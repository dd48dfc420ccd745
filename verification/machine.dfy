/** The C machine the formatter is written for: a 32-bit ARM target, where
    `long` and pointers are 32 bits wide and `long long` is 64 bits, plus the
    reading of a C string out of a character sequence. */
module Machine {
  import opened Arith

  /** An 8-bit unsigned counter: the type of the formatter's running index,
      field width, precision and digit counter. */
  type Byte = x: int | 0 <= x < 256

  /** Sizes in bytes of the C types whose width the length modifiers and
      `%p` depend on. */
  const LongBytes: nat := 4
  const LongLongBytes: nat := 8
  const PointerBytes: nat := 4
  const SizeBytes: nat := 4
  const PtrdiffBytes: nat := 4
  const IntmaxBytes: nat := 8

  /** `(size_t)-1` for a 32-bit `size_t`. */
  const SizeMax: nat := 0xFFFF_FFFF

  /** The two magnitude representations: `unsigned long` and
      `unsigned long long`. */
  datatype Width = Narrow | Wide

  function Bits(w: Width): nat {
    match w
    case Narrow => 8 * LongBytes
    case Wide => 8 * LongLongBytes
  }

  /** One past the largest magnitude of the width. */
  function Limit(w: Width): nat {
    match w
    case Narrow => 0x1_0000_0000
    case Wide => 0x1_0000_0000_0000_0000
  }

  /** The powers of two the C integer types are built from. */
  lemma TwoPowers()
    ensures Pow(2, 7) == 0x80 && Pow(2, 8) == 0x100
    ensures Pow(2, 15) == 0x8000 && Pow(2, 16) == 0x1_0000
    ensures Pow(2, 31) == 0x8000_0000 && Pow(2, 32) == 0x1_0000_0000
    ensures Pow(2, 63) == 0x8000_0000_0000_0000 && Pow(2, 64) == 0x1_0000_0000_0000_0000
  {
    assert Pow(2, 4) == 16;
    PowAdd(2, 4, 3);
    PowAdd(2, 4, 4);
    PowAdd(2, 8, 7);
    PowAdd(2, 8, 8);
    PowAdd(2, 16, 15);
    PowAdd(2, 16, 16);
    PowAdd(2, 32, 31);
    PowAdd(2, 32, 32);
  }

  /** Keeping the low `bits` bits of `x`: a C conversion to an unsigned type. */
  function Truncate(x: int, bits: nat): (r: nat)
    ensures r < Pow(2, bits)
  {
    x % Pow(2, bits)
  }

  /** A C conversion to a signed type of `bits` bits on a two's complement
      machine: the low bits, read with the top bit as sign. */
  function ToSigned(x: int, bits: nat): (r: int)
    requires bits > 0
    ensures 0 <= r + Pow(2, bits - 1) && r < Pow(2, bits - 1)
    ensures Truncate(r, bits) == Truncate(x, bits)
  {
    var m := Pow(2, bits);
    var u := Truncate(x, bits);
    assert m == 2 * Pow(2, bits - 1);
    DivModUnique(u, m, 0, u);
    DivModUnique(u - m, m, -1, u);
    if u < Pow(2, bits - 1) then u else u - m
  }

  /** A value the signed type holds is kept by the conversion. */
  lemma ToSignedKeeps(x: int, bits: nat)
    requires bits > 0
    requires 0 <= x + Pow(2, bits - 1) && x < Pow(2, bits - 1)
    ensures ToSigned(x, bits) == x
  {
    var m := Pow(2, bits);
    assert m == 2 * Pow(2, bits - 1);
    if x >= 0 {
      DivModUnique(x, m, 0, x);
    } else {
      DivModUnique(x, m, -1, x + m);
    }
  }

  /** An `int` is 32 bits wide. */
  predicate IsInt(v: int) {
    -0x8000_0000 <= v < 0x8000_0000
  }

  /** The character an `int` code becomes when passed as a C `char`. */
  function CharOf(code: int): char {
    (code % 256) as char
  }

  /** The character at index `i` of memory holding `s` followed by its
      terminating NUL; indices past the end read as NUL. */
  function At(s: seq<char>, i: nat): char {
    if i < |s| then s[i] else '\0'
  }

  /** The length of the C string held in `s`: the characters before the
      first NUL, or all of them. */
  function CLen(s: seq<char>): (n: nat)
    ensures n <= |s|
    ensures forall i :: 0 <= i < n ==> s[i] != '\0'
    ensures n == |s| || s[n] == '\0'
  {
    if |s| == 0 || s[0] == '\0' then 0 else 1 + CLen(s[1..])
  }
}
