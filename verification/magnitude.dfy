/** The magnitude converter: counting the digits of an unsigned value
    (get_digits_long and get_digits_long_long) and emitting them most
    significant first (the digit loops of ntoa_long and ntoa_long_long).
    Both integer widths share one definition, parameterised by `Width`. */
module Magnitude {
  import opened Arith
  import opened Machine

  datatype Base = Binary | Octal | Decimal | Hex

  function Radix(b: Base): nat {
    match b
    case Binary => 2
    case Octal => 8
    case Decimal => 10
    case Hex => 16
  }

  /** Bits per digit of the power-of-two bases (`base_bits`); decimal is
      never shifted and has 0. */
  function BaseBits(b: Base): nat {
    match b
    case Binary => 1
    case Octal => 3
    case Decimal => 0
    case Hex => 4
  }

  /** The mask that isolates one digit (`base_mask`); `& mask` with a mask
      2^k - 1 keeps the remainder modulo 2^k. */
  function BaseMask(b: Base): nat {
    match b
    case Binary => 1
    case Octal => 7
    case Decimal => 0
    case Hex => 15
  }

  type Positive = x: nat | x > 0 witness 1

  /** The decimal divisor tables: ten entries for `unsigned long`, twenty for
      `unsigned long long`. */
  const Pow10Long: seq<Positive> := [1, 10, 100, 1000, 10000, 100000, 1000000,
    10000000, 100000000, 1000000000]
  const Pow10LongLong: seq<Positive> := [1, 10, 100, 1000, 10000, 100000, 1000000,
    10000000, 100000000, 1000000000, 10000000000, 100000000000,
    1000000000000, 10000000000000, 100000000000000, 1000000000000000,
    10000000000000000, 100000000000000000, 1000000000000000000,
    10000000000000000000]

  function Pow10Table(w: Width): seq<Positive> {
    match w
    case Narrow => Pow10Long
    case Wide => Pow10LongLong
  }

  /** Entry i of either table is 10^i, and the table covers every value of
      its width. */
  lemma TableIsPowers(w: Width)
    ensures forall i :: 0 <= i < |Pow10Table(w)| ==> Pow10Table(w)[i] == Pow(10, i)
    ensures Limit(w) <= Pow(10, |Pow10Table(w)|)
  {
    var t := Pow10Table(w);
    forall i | 0 <= i < |t|
      ensures t[i] == Pow(10, i)
    {
      PowersFrom(t, i);
    }
  }

  lemma PowersFrom(t: seq<Positive>, i: nat)
    requires t == Pow10Long || t == Pow10LongLong
    requires i < |t|
    ensures t[i] == Pow(10, i)
  {
  }

  /** get_digits_long(_long): the number of digits `value` has in `base`.
      Decimal counts the table entries not above the value, stopping at the
      end of the table; the other bases count right shifts until zero. */
  function GetDigits(value: nat, base: Base, w: Width): (k: nat)
    ensures base == Decimal ==> k <= |Pow10Table(w)|
  {
    if base == Decimal then CountTable(value, Pow10Table(w), 0)
    else CountShifts(value, BaseBits(base))
  }

  function CountTable(value: nat, table: seq<nat>, d: nat): (k: nat)
    requires d <= |table|
    ensures d <= k <= |table|
    decreases |table| - d
  {
    if d < |table| && value >= table[d] then CountTable(value, table, d + 1) else d
  }

  /** `value >>= bits` until the value is zero. */
  function CountShifts(value: nat, bits: nat): nat
    requires bits > 0
    decreases value
  {
    if value > 0 then
      PowGrows(2, 0, bits);
      DivShrinks(value, Pow(2, bits));
      1 + CountShifts(value / Pow(2, bits), bits)
    else 0
  }

  /** The character for a digit below 16: '0'-'9', then 'a'-'f', or 'A'-'F'
      under FLAGS_UPPERCASE. */
  function DigitChar(d: nat, upper: bool): char
    requires d < 16
  {
    if d < 10 then ('0' as int + d) as char
    else ((if upper then 'A' else 'a') as int + d - 10) as char
  }

  /** The decimal loop of ntoa_long(_long): with `count` digits left, divide
      by table entry count-1, write the quotient as an 8-bit digit and keep
      the remainder. */
  function DecimalDigits(value: nat, count: nat, w: Width): (s: seq<char>)
    requires count <= |Pow10Table(w)|
    ensures |s| == count
    decreases count
  {
    if count == 0 then []
    else
      var l := Pow10Table(w)[count - 1];
      var digit := (value / l) % 256;
      [CharOf('0' as int + digit)] + DecimalDigits(value % l, count - 1, w)
  }

  /** The shift-and-mask loop of ntoa_long(_long) for bases 2, 8 and 16:
      digit count-1 is `(value >> (count-1) * bits) & mask`. */
  function ShiftDigits(value: nat, count: nat, base: Base, upper: bool): (s: seq<char>)
    requires base != Decimal
    ensures |s| == count
    ensures forall i :: 0 <= i < |s| ==> IsDigitOf(s[i], base, upper)
    decreases count
  {
    if count == 0 then []
    else
      var digit := (value / Pow(2, (count - 1) * BaseBits(base))) % (BaseMask(base) + 1);
      [DigitChar(digit, upper)] + ShiftDigits(value, count - 1, base, upper)
  }

  /** The digits of a nonzero value, `count` of them, most significant first. */
  function Digits(value: nat, count: nat, base: Base, w: Width, upper: bool): seq<char>
    requires base == Decimal ==> count <= |Pow10Table(w)|
  {
    if base == Decimal then DecimalDigits(value, count, w)
    else ShiftDigits(value, count, base, upper)
  }

  /** What ntoa_long(_long) writes before its trailing padding: nothing for
      zero under an explicit precision, a single '0' for zero otherwise, and
      the digits of any other value. */
  function DigitText(value: nat, count: nat, base: Base, w: Width, upper: bool,
                     hasPrecision: bool): (s: seq<char>)
    requires base == Decimal ==> count <= |Pow10Table(w)|
    ensures value != 0 ==> |s| == count
    ensures value == 0 ==> |s| <= 1
  {
    if hasPrecision && value == 0 then []
    else if value == 0 then "0"
    else Digits(value, count, base, w, upper)
  }

  // ---------------------------------------------------------------------
  // Reading digits back

  /** The value of a digit character in bases up to 16 (either case). */
  function DigitValue(c: char): nat {
    if '0' <= c <= '9' then c as int - '0' as int
    else if 'a' <= c <= 'f' then c as int - 'a' as int + 10
    else if 'A' <= c <= 'F' then c as int - 'A' as int + 10
    else 0
  }

  /** `c` is a digit of `base`, with letters in the case `upper` selects. */
  predicate IsDigitOf(c: char, base: Base, upper: bool) {
    && (('0' <= c <= '9') || (upper && 'A' <= c <= 'F') || (!upper && 'a' <= c <= 'f'))
    && DigitValue(c) < Radix(base)
  }

  /** Positional notation: the number a digit string denotes in `radix`. */
  function ReadBack(s: seq<char>, radix: nat): nat {
    if |s| == 0 then 0
    else DigitValue(s[0]) * Pow(radix, |s| - 1) + ReadBack(s[1..], radix)
  }

  /** A string of k digits below `radix` denotes a number below radix^k. */
  lemma {:induction false} ReadBackBelow(s: seq<char>, radix: nat)
    requires radix > 0
    requires forall i :: 0 <= i < |s| ==> DigitValue(s[i]) < radix
    ensures ReadBack(s, radix) < Pow(radix, |s|)
  {
    if |s| > 0 {
      var p := Pow(radix, |s| - 1);
      ReadBackBelow(s[1..], radix);
      MulLeft(DigitValue(s[0]), radix - 1, p);
      assert ReadBack(s, radix) < (radix - 1) * p + p;
    }
  }

  // ---------------------------------------------------------------------
  // Digit count

  /** The table count stops at the first entry above the value. */
  lemma {:induction false} CountTableStops(value: nat, t: seq<nat>, d: nat)
    requires d <= |t|
    requires d > 0 ==> t[d - 1] <= value
    ensures var k := CountTable(value, t, d);
      (k > 0 ==> t[k - 1] <= value) && (k < |t| ==> value < t[k])
    decreases |t| - d
  {
    if d < |t| && value >= t[d] {
      CountTableStops(value, t, d + 1);
    }
  }

  /** Over a table of powers of ten, the count lands between the two powers
      of ten around the value. */
  lemma CountTableBounds(value: nat, t: seq<nat>)
    requires forall i :: 0 <= i < |t| ==> t[i] == Pow(10, i)
    requires value < Pow(10, |t|)
    ensures var k := CountTable(value, t, 0);
      (k > 0 ==> Pow(10, k - 1) <= value) && value < Pow(10, k)
  {
    var k := CountTable(value, t, 0);
    CountTableStops(value, t, 0);
    if k > 0 {
      assert t[k - 1] == Pow(10, k - 1);
    }
    if k < |t| {
      assert t[k] == Pow(10, k);
    }
  }

  /** One shift step of the count: if the quotient value / r lies between
      r^(j-1) and r^j, the value lies between r^j and r^(j+1). */
  lemma ShiftStep(value: nat, r: nat, j: nat)
    requires r >= 2 && value > 0
    requires value / r < Pow(r, j)
    requires value / r > 0 <==> j > 0
    requires j > 0 ==> Pow(r, j - 1) <= value / r
    ensures Pow(r, j) <= value < Pow(r, j + 1)
  {
    ShiftUpper(value, r, j);
    if j > 0 {
      ShiftLower(value, r, j);
    }
  }

  lemma ShiftUpper(value: nat, r: nat, j: nat)
    requires r >= 2 && value / r < Pow(r, j)
    ensures value < Pow(r, j + 1)
  {
    var q := value / r;
    var p := Pow(r, j);
    MulLeft(q + 1, p, r);
    assert value < (q + 1) * r;
    assert Pow(r, j + 1) == p * r;
  }

  lemma ShiftLower(value: nat, r: nat, j: nat)
    requires r >= 2 && j > 0 && Pow(r, j - 1) <= value / r
    ensures Pow(r, j) <= value
  {
    var q := value / r;
    MulLeft(Pow(r, j - 1), q, r);
    assert q * r <= value;
    assert Pow(r, j) == Pow(r, j - 1) * r;
  }

  /** Counting shifts finds the number of base-2^bits digits of the value. */
  lemma {:induction false} CountShiftsBounds(value: nat, bits: nat)
    requires bits > 0
    ensures var k := CountShifts(value, bits);
      var r := Pow(2, bits);
      (value > 0 ==> k > 0 && Pow(r, k - 1) <= value) && value < Pow(r, k)
    decreases value
  {
    var r := Pow(2, bits);
    PowGrows(2, 0, bits);
    if value > 0 {
      DivShrinks(value, r);
      CountShiftsBounds(value / r, bits);
      ShiftStep(value, r, CountShifts(value / r, bits));
    }
  }

  /** For a power-of-two base, 2^bits is the radix. */
  lemma RadixIsPowerOfTwo(base: Base)
    requires base != Decimal
    ensures Pow(2, BaseBits(base)) == Radix(base) == BaseMask(base) + 1
  {
    assert Pow(2, 1) == 2;
    assert Pow(2, 3) == 2 * Pow(2, 2) == 8;
    assert Pow(2, 4) == 2 * Pow(2, 3) == 16;
  }

  /** get_digits returns k with base^(k-1) <= value < base^k for every
      nonzero value of the width, and 0 for zero. */
  lemma DigitCountBounds(value: nat, base: Base, w: Width)
    requires value < Limit(w)
    ensures var k := GetDigits(value, base, w);
      && (value == 0 <==> k == 0)
      && (value > 0 ==> Pow(Radix(base), k - 1) <= value)
      && value < Pow(Radix(base), k)
  {
    if base == Decimal {
      TableIsPowers(w);
      CountTableBounds(value, Pow10Table(w));
    } else {
      RadixIsPowerOfTwo(base);
      CountShiftsBounds(value, BaseBits(base));
    }
  }

  // ---------------------------------------------------------------------
  // Round trip

  lemma {:induction false} DecimalRoundTrip(value: nat, count: nat, w: Width)
    requires count <= |Pow10Table(w)|
    requires value < Pow(10, count)
    ensures var s := DecimalDigits(value, count, w);
      && |s| == count
      && (forall i :: 0 <= i < |s| ==> '0' <= s[i] <= '9')
      && ReadBack(s, 10) == value
    decreases count
  {
    if count > 0 {
      var t := Pow10Table(w);
      PowersFrom(t, count - 1);
      var l := t[count - 1];
      assert Pow(10, count) == l * 10;
      DecimalStep(value, l);
      var digit := value / l;
      var rest := DecimalDigits(value % l, count - 1, w);
      DecimalRoundTrip(value % l, count - 1, w);
      var s := DecimalDigits(value, count, w);
      assert s == [CharOf('0' as int + digit)] + rest;
      DecimalChar(digit);
      assert s[1..] == rest;
    }
  }

  /** A decimal digit written through an 8-bit character is read back unchanged. */
  lemma DecimalChar(d: nat)
    requires d < 10
    ensures var c := CharOf('0' as int + d); '0' <= c <= '9' && DigitValue(c) == d
  {
    assert ('0' as int + d) % 256 == '0' as int + d;
  }

  /** One decimal step: the quotient by the leading power is a single digit. */
  lemma DecimalStep(value: nat, l: nat)
    requires l > 0 && value < l * 10
    ensures value / l < 10
    ensures (value / l) % 256 == value / l
    ensures value == (value / l) * l + value % l
  {
    DivBelow(value, l, 10);
  }

  lemma {:induction false} ShiftRoundTrip(value: nat, count: nat, base: Base, upper: bool)
    requires base != Decimal
    ensures var s := ShiftDigits(value, count, base, upper);
      && |s| == count
      && (forall i :: 0 <= i < |s| ==> IsDigitOf(s[i], base, upper))
      && ReadBack(s, Radix(base)) == value % Pow(Radix(base), count)
    decreases count
  {
    if count > 0 {
      var r := Radix(base);
      var p := Pow(r, count - 1);
      ShiftRoundTrip(value, count - 1, base, upper);
      var s := ShiftDigits(value, count, base, upper);
      var t := ShiftDigits(value, count - 1, base, upper);
      ShiftHead(value, count, base, upper);
      assert forall i :: 1 <= i < |s| ==> s[i] == t[i - 1];
      assert ReadBack(s, r) == DigitValue(s[0]) * p + ReadBack(t, r);
      ModSplit(value, p, r);
      assert Pow(r, count) == p * r;
    }
  }

  /** The first digit the shift loop writes: value / r^(count-1), as a digit
      of the base, followed by the digits of the lower positions. */
  lemma ShiftHead(value: nat, count: nat, base: Base, upper: bool)
    requires base != Decimal && count > 0
    ensures var s := ShiftDigits(value, count, base, upper);
      var d := (value / Pow(Radix(base), count - 1)) % Radix(base);
      && |s| > 0 && s[1..] == ShiftDigits(value, count - 1, base, upper)
      && IsDigitOf(s[0], base, upper) && DigitValue(s[0]) == d
  {
    RadixIsPowerOfTwo(base);
    PowOfPow(2, BaseBits(base), count - 1);
    assert Pow(2, (count - 1) * BaseBits(base)) == Pow(Radix(base), count - 1) by {
      assert BaseBits(base) * (count - 1) == (count - 1) * BaseBits(base);
    }
    var d := (value / Pow(Radix(base), count - 1)) % Radix(base);
    ShiftChar(d, base, upper);
  }

  /** A digit below the radix is written as a digit of the base in the
      requested case, and read back unchanged. */
  lemma ShiftChar(d: nat, base: Base, upper: bool)
    requires base != Decimal && d < Radix(base)
    ensures IsDigitOf(DigitChar(d, upper), base, upper) && DigitValue(DigitChar(d, upper)) == d
  {
  }

  /** The digits emitted for a nonzero value of the width, read back in its
      base, are the value; there are exactly get_digits of them, all digits
      of the base in the requested case, and the first is not '0'. */
  lemma DigitsRoundTrip(value: nat, base: Base, w: Width, upper: bool)
    requires 0 < value < Limit(w)
    ensures var k := GetDigits(value, base, w);
      var s := Digits(value, k, base, w, upper);
      && |s| == k > 0
      && (forall i :: 0 <= i < |s| ==> IsDigitOf(s[i], base, upper))
      && ReadBack(s, Radix(base)) == value
      && s[0] != '0'
  {
    var k := GetDigits(value, base, w);
    var r := Radix(base);
    DigitCountBounds(value, base, w);
    var s := Digits(value, k, base, w, upper);
    if base == Decimal {
      DecimalRoundTrip(value, k, w);
    } else {
      ShiftRoundTrip(value, k, base, upper);
      DivModUnique(value, Pow(r, k), 0, value);
    }
    LeadingDigitNonzero(s, base, upper, value);
  }

  /** A digit string whose value needs all its positions does not start
      with '0'. */
  lemma LeadingDigitNonzero(s: seq<char>, base: Base, upper: bool, value: nat)
    requires |s| > 0
    requires forall i :: 0 <= i < |s| ==> IsDigitOf(s[i], base, upper)
    requires ReadBack(s, Radix(base)) == value >= Pow(Radix(base), |s| - 1)
    ensures s[0] != '0'
  {
    var r := Radix(base);
    var t := s[1..];
    assert forall i :: 0 <= i < |t| ==> DigitValue(t[i]) < r by {
      forall i | 0 <= i < |t| ensures DigitValue(t[i]) < r {
        assert t[i] == s[i + 1];
      }
    }
    ReadBackBelow(t, r);
    if s[0] == '0' {
      assert false;
    }
  }
}
