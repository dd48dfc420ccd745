/** The directive parser at the head of format_out: the flag characters,
    the width (digits read by atoi, or `*`), the precision (`.` followed by
    digits, `*` or nothing) and the length modifier, up to the conversion
    character. The parser works on the part of the format not yet read,
    which in memory is followed by the terminating NUL (see `At`). */
module Directive {
  import opened Arith
  import opened Machine
  import opened Magnitude
  import opened Field

  /** `unsigned int` is 32 bits wide: atoi's accumulator wraps modulo this. */
  const UIntModulus: nat := 0x1_0000_0000

  /** What one part of the directive parser read, and the format after it. */
  datatype Scan<T> = Scan(value: T, rest: seq<char>)

  /** A suffix of a suffix is a suffix: the parser's stages each leave the
      end of the text they were given. */
  lemma SuffixOfSuffix(a: seq<char>, b: seq<char>, c: seq<char>)
    requires |b| <= |a| && b == a[|a| - |b|..]
    requires |c| <= |b| && c == b[|b| - |c|..]
    ensures c == a[|a| - |c|..]
  {
  }

  /** is_digit. */
  predicate IsDigit(c: char) {
    '0' <= c <= '9'
  }

  /** atoi's accumulator after one more digit: `i * 10 + digit` in 32-bit
      unsigned arithmetic. */
  function NextAcc(acc: nat, c: char): (r: nat)
    ensures r < UIntModulus
  {
    (acc * 10 + (c as int - '0' as int)) % UIntModulus
  }

  /** atoi, carrying the accumulator `i`: while the next character is a
      digit, `i = i * 10 + digit` in 32-bit unsigned arithmetic. Returns the
      value and the characters after the digits. */
  function AtoiFrom(s: seq<char>, acc: nat): (r: Scan<nat>)
    ensures |r.rest| <= |s| && r.rest == s[|s| - |r.rest|..]
    ensures forall i :: 0 <= i < |s| - |r.rest| ==> IsDigit(s[i])
    ensures !IsDigit(At(r.rest, 0))
    ensures |r.rest| < |s| ==> r.value < UIntModulus
    ensures |r.rest| == |s| ==> r.value == acc
    decreases |s|
  {
    if IsDigit(At(s, 0)) then
      var r := AtoiFrom(s[1..], NextAcc(acc, s[0]));
      assert s[1..][|s| - 1 - |r.rest|..] == s[|s| - |r.rest|..];
      assert forall i :: 1 <= i < |s| - |r.rest| ==> s[i] == s[1..][i - 1];
      r
    else Scan(acc, s)
  }

  function Atoi(s: seq<char>): (r: Scan<nat>)
    ensures r.value < UIntModulus
    ensures |r.rest| <= |s| && r.rest == s[|s| - |r.rest|..]
  {
    AtoiFrom(s, 0)
  }

  /** atoi's accumulation over a run of digits, from accumulator `acc`. */
  function Accumulate(acc: nat, digits: seq<char>): nat
    decreases |digits|
  {
    if |digits| == 0 then acc
    else Accumulate(NextAcc(acc, digits[0]), digits[1..])
  }

  /** The accumulation is the number the digits denote after the
      accumulator, reduced modulo 2^32. */
  lemma {:induction false} AccumulateValue(acc: nat, digits: seq<char>)
    requires acc < UIntModulus
    requires forall i :: 0 <= i < |digits| ==> IsDigit(digits[i])
    ensures Accumulate(acc, digits)
      == (acc * Pow(10, |digits|) + ReadBack(digits, 10)) % UIntModulus
    decreases |digits|
  {
    if |digits| == 0 {
      DivModUnique(acc, UIntModulus, 0, acc);
    } else {
      var d := digits[0] as int - '0' as int;
      var acc' := NextAcc(acc, digits[0]);
      AccumulateValue(acc', digits[1..]);
      var p := Pow(10, |digits| - 1);
      var rest := ReadBack(digits[1..], 10);
      assert ReadBack(digits, 10) == d * p + rest;
      assert Pow(10, |digits|) == 10 * p;
      AtoiStep(acc, d, p, rest, Accumulate(acc, digits), Pow(10, |digits|), ReadBack(digits, 10));
    }
  }

  /** One step of atoi's accumulation, in the arithmetic of AccumulateValue. */
  lemma AtoiStep(acc: nat, d: nat, p: nat, rest: nat, v: nat, pk: nat, rb: nat)
    requires v == (((acc * 10 + d) % UIntModulus) * p + rest) % UIntModulus
    requires pk == 10 * p && rb == d * p + rest
    ensures v == (acc * pk + rb) % UIntModulus
  {
    ModMulAdd(acc * 10 + d, p, rest, UIntModulus);
    assert (acc * 10 + d) * p == acc * (10 * p) + d * p;
  }

  /** atoi runs over a run of digits, stops at the first non-digit after
      them, and accumulates them. */
  lemma {:induction false} AtoiReads(digits: seq<char>, t: seq<char>, acc: nat)
    requires forall i :: 0 <= i < |digits| ==> IsDigit(digits[i])
    requires !IsDigit(At(t, 0))
    ensures AtoiFrom(digits + t, acc) == Scan(Accumulate(acc, digits), t)
    decreases |digits|
  {
    if |digits| == 0 {
      NoDigits(digits, t);
    } else {
      var acc' := NextAcc(acc, digits[0]);
      AtoiHead(digits, t, acc, acc');
      AtoiReads(digits[1..], t, acc');
    }
  }

  lemma NoDigits(digits: seq<char>, t: seq<char>)
    requires |digits| == 0
    ensures digits + t == t
  {
  }

  /** One turn of atoi on a run of digits. */
  lemma AtoiHead(digits: seq<char>, t: seq<char>, acc: nat, acc': nat)
    requires |digits| > 0 && IsDigit(digits[0])
    requires acc' == NextAcc(acc, digits[0])
    ensures AtoiFrom(digits + t, acc) == AtoiFrom(digits[1..] + t, acc')
  {
    var s := digits + t;
    assert At(s, 0) == digits[0] && s[0] == digits[0];
    assert s[1..] == digits[1..] + t;
  }

  /** atoi stops exactly after a run of digits that is followed by a
      non-digit, whatever follows, and reads the number they denote. */
  lemma AtoiStops(digits: seq<char>, t: seq<char>)
    requires forall i :: 0 <= i < |digits| ==> IsDigit(digits[i])
    requires !IsDigit(At(t, 0))
    ensures Atoi(digits + t) == Scan(ReadBack(digits, 10) % UIntModulus, t)
  {
    AtoiReads(digits, t, 0);
    AccumulateValue(0, digits);
  }

  // ---------------------------------------------------------------------
  // Flags

  predicate IsFlagChar(c: char) {
    c == '0' || c == '-' || c == '+' || c == ' ' || c == '#'
  }

  /** The bit one flag character sets. */
  function SetFlag(f: Flags, c: char): Flags
    requires IsFlagChar(c)
  {
    f.(zeroPad := f.zeroPad || c == '0', left := f.left || c == '-', plus := f.plus || c == '+',
       space := f.space || c == ' ', hash := f.hash || c == '#')
  }

  /** The flag loop: flag characters in any order and number. */
  function ParseFlags(s: seq<char>, f: Flags): (r: Scan<Flags>)
    ensures |r.rest| <= |s| && r.rest == s[|s| - |r.rest|..]
    ensures forall i :: 0 <= i < |s| - |r.rest| ==> IsFlagChar(s[i])
    ensures !IsFlagChar(At(r.rest, 0))
    decreases |s|
  {
    if IsFlagChar(At(s, 0)) then ParseFlags(s[1..], SetFlag(f, s[0]))
    else Scan(f, s)
  }

  /** The flags a run of flag characters turns on, on top of `f`: each bit
      is set when its character occurs anywhere in the run. */
  function AddFlags(f: Flags, u: seq<char>): Flags {
    f.(zeroPad := f.zeroPad || '0' in u, left := f.left || '-' in u,
       plus := f.plus || '+' in u, space := f.space || ' ' in u, hash := f.hash || '#' in u)
  }

  /** The flag loop reads flag characters in any order and any number,
      repeats included, and stops at the first other character. */
  lemma {:induction false} ParseFlagsReads(u: seq<char>, t: seq<char>, f: Flags)
    requires forall i :: 0 <= i < |u| ==> IsFlagChar(u[i])
    requires !IsFlagChar(At(t, 0))
    ensures ParseFlags(u + t, f) == Scan(AddFlags(f, u), t)
    decreases |u|
  {
    if |u| == 0 {
      NoFlagChars(u, t, f);
    } else {
      ParseFlagsHead(u, t, f);
      ParseFlagsReads(u[1..], t, SetFlag(f, u[0]));
      AddFlagsStep(f, u);
    }
  }

  lemma NoFlagChars(u: seq<char>, t: seq<char>, f: Flags)
    requires |u| == 0
    ensures u + t == t && AddFlags(f, u) == f
  {
    assert u + t == t;
  }

  /** One turn of the flag loop on a run of flag characters. */
  lemma ParseFlagsHead(u: seq<char>, t: seq<char>, f: Flags)
    requires |u| > 0 && IsFlagChar(u[0])
    ensures ParseFlags(u + t, f) == ParseFlags(u[1..] + t, SetFlag(f, u[0]))
  {
    var s := u + t;
    assert At(s, 0) == u[0] && s[0] == u[0];
    assert s[1..] == u[1..] + t;
  }

  /** Taking the first flag character of a run, then the rest. */
  lemma AddFlagsStep(f: Flags, u: seq<char>)
    requires |u| > 0 && IsFlagChar(u[0])
    ensures AddFlags(SetFlag(f, u[0]), u[1..]) == AddFlags(f, u)
  {
    InFirstOrRest('0', u);
    InFirstOrRest('-', u);
    InFirstOrRest('+', u);
    InFirstOrRest(' ', u);
    InFirstOrRest('#', u);
  }

  lemma InFirstOrRest(c: char, u: seq<char>)
    requires |u| > 0
    ensures c in u <==> c == u[0] || c in u[1..]
  {
    assert u == [u[0]] + u[1..];
  }

  // ---------------------------------------------------------------------
  // Width, precision and length

  /** The width field: none, a literal run of digits (atoi's 32-bit value)
      or `*` (taken from the arguments). */
  datatype WidthSpec = NoWidth | WidthLit(n: nat) | WidthStar

  /** The precision field: none, `.` with digits (a `.` alone is precision
      0), or `.*`. */
  datatype PrecSpec = NoPrec | PrecLit(n: nat) | PrecStar

  /** The length modifier: none, hh, h, l, ll, j, z, t. */
  datatype Length = LenNone | LenHH | LenH | LenL | LenLL | LenJ | LenZ | LenT

  /** Everything between the `%` and the conversion character. */
  datatype Spec = Spec(flags: Flags, width: WidthSpec, precision: PrecSpec, length: Length)

  /** A parsed directive and the rest of the format, which starts at the
      conversion character. */
  datatype Parsed = Parsed(spec: Spec, rest: seq<char>)

  function ParseWidth(s: seq<char>): (r: Scan<WidthSpec>)
    ensures |r.rest| <= |s| && r.rest == s[|s| - |r.rest|..]
    ensures r.value.WidthLit? ==> r.value.n < UIntModulus
  {
    if IsDigit(At(s, 0)) then
      var Scan(n, rest) := Atoi(s);
      Scan(WidthLit(n), rest)
    else if At(s, 0) == '*' then Scan(WidthStar, s[1..])
    else Scan(NoWidth, s)
  }

  function ParsePrecision(s: seq<char>): (r: Scan<PrecSpec>)
    ensures |r.rest| <= |s| && r.rest == s[|s| - |r.rest|..]
    ensures r.value.PrecLit? ==> r.value.n < UIntModulus
  {
    if At(s, 0) != '.' then Scan(NoPrec, s)
    else
      var t := s[1..];
      if IsDigit(At(t, 0)) then
        var Scan(n, rest) := Atoi(t);
        assert rest == s[|s| - |rest|..];
        Scan(PrecLit(n), rest)
      else if At(t, 0) == '*' then Scan(PrecStar, t[1..])
      else Scan(PrecLit(0), t)
  }

  predicate IsLengthChar(c: char) {
    c == 'l' || c == 'h' || c == 'j' || c == 'z' || c == 't'
  }

  function ParseLength(s: seq<char>): (r: Scan<Length>)
    ensures |r.rest| <= |s| && r.rest == s[|s| - |r.rest|..]
    ensures r.value == LenNone <==> r.rest == s
  {
    match At(s, 0)
    case 'l' => if At(s, 1) == 'l' then Scan(LenLL, s[2..]) else Scan(LenL, s[1..])
    case 'h' => if At(s, 1) == 'h' then Scan(LenHH, s[2..]) else Scan(LenH, s[1..])
    case 't' => Scan(LenT, s[1..])
    case 'j' => Scan(LenJ, s[1..])
    case 'z' => Scan(LenZ, s[1..])
    case _ => Scan(LenNone, s)
  }

  /** None of the bits but those of the five flag characters is set. */
  predicate OnlyFlagChars(f: Flags) {
    !f.upper && !f.charSize && !f.shortSize && !f.longSize && !f.longLongSize
    && !f.hasPrecision && !f.negative
  }

  /** Only the five flag characters' bits, and literal numbers that fit in
      an `unsigned int`: what the parser can produce. */
  predicate WellFormed(spec: Spec) {
    && OnlyFlagChars(spec.flags)
    && (spec.width.WidthLit? ==> spec.width.n < UIntModulus)
    && (spec.precision.PrecLit? ==> spec.precision.n < UIntModulus)
  }

  /** The directive after a `%`: flags, width, precision, length. */
  function ParseSpec(s: seq<char>): (p: Parsed)
    ensures |p.rest| <= |s|
  {
    var flags := ParseFlags(s, NoFlags);
    var width := ParseWidth(flags.rest);
    var precision := ParsePrecision(width.rest);
    var length := ParseLength(precision.rest);
    Parsed(Spec(flags.value, width.value, precision.value, length.value), length.rest)
  }

  /** The directive parser leaves the end of the text it was given. */
  lemma ParseSpecSuffix(s: seq<char>)
    ensures var p := ParseSpec(s); p.rest == s[|s| - |p.rest|..]
  {
    var flags := ParseFlags(s, NoFlags);
    var width := ParseWidth(flags.rest);
    var precision := ParsePrecision(width.rest);
    ParseSpecRest(s, flags.rest, width.rest, precision.rest, ParseLength(precision.rest).rest);
  }

  /** Four stages, each leaving a suffix of what the one before left. */
  lemma ParseSpecRest(s: seq<char>, a: seq<char>, b: seq<char>, c: seq<char>, d: seq<char>)
    requires |a| <= |s| && a == s[|s| - |a|..]
    requires |b| <= |a| && b == a[|a| - |b|..]
    requires |c| <= |b| && c == b[|b| - |c|..]
    requires |d| <= |c| && d == c[|c| - |d|..]
    ensures |d| <= |s| && d == s[|s| - |d|..]
  {
    SuffixOfSuffix(s, a, b);
    SuffixOfSuffix(s, b, c);
    SuffixOfSuffix(s, c, d);
  }

  /** The parser produces only well-formed directives. */
  lemma ParseSpecWellFormed(s: seq<char>)
    ensures WellFormed(ParseSpec(s).spec)
  {
    ParseFlagsOnlyFlags(s, NoFlags);
  }

  /** The flag loop sets none of the bits it does not own. */
  lemma {:induction false} ParseFlagsOnlyFlags(s: seq<char>, f: Flags)
    requires OnlyFlagChars(f)
    ensures OnlyFlagChars(ParseFlags(s, f).value)
    decreases |s|
  {
    if IsFlagChar(At(s, 0)) {
      ParseFlagsOnlyFlags(s[1..], SetFlag(f, s[0]));
    }
  }

  // ---------------------------------------------------------------------
  // Writing a directive back

  /** The decimal numeral of a positive number, as the converter writes it. */
  function Numeral(n: nat): (s: seq<char>)
    requires 0 < n < UIntModulus
  {
    Digits(n, GetDigits(n, Decimal, Narrow), Decimal, Narrow, false)
  }

  /** One flag character, written when its bit is set. */
  function Opt(bit: bool, c: char): seq<char> {
    if bit then [c] else []
  }

  function FlagText(f: Flags): seq<char> {
    Opt(f.zeroPad, '0') + (Opt(f.left, '-') + (Opt(f.plus, '+')
    + (Opt(f.space, ' ') + Opt(f.hash, '#'))))
  }

  function WidthText(w: WidthSpec): seq<char>
    requires w.WidthLit? ==> 0 < w.n < UIntModulus
  {
    match w
    case NoWidth => ""
    case WidthLit(n) => Numeral(n)
    case WidthStar => "*"
  }

  function PrecisionText(p: PrecSpec): seq<char>
    requires p.PrecLit? ==> p.n < UIntModulus
  {
    match p
    case NoPrec => ""
    case PrecLit(n) => if n == 0 then "." else "." + Numeral(n)
    case PrecStar => ".*"
  }

  function LengthText(l: Length): seq<char> {
    match l
    case LenNone => ""
    case LenHH => "hh"
    case LenH => "h"
    case LenL => "l"
    case LenLL => "ll"
    case LenJ => "j"
    case LenZ => "z"
    case LenT => "t"
  }

  /** A directive that can be written down: well formed, and a literal width
      is not 0 (a leading '0' is the zero-pad flag). */
  predicate Writable(spec: Spec) {
    WellFormed(spec) && (spec.width.WidthLit? ==> spec.width.n > 0)
  }

  function Render(spec: Spec): seq<char>
    requires Writable(spec)
  {
    FlagText(spec.flags) + WidthText(spec.width) + PrecisionText(spec.precision)
    + LengthText(spec.length)
  }

  /** A character that ends a directive: no flag, digit, `*`, `.` or length
      character. */
  predicate EndsDirective(c: char) {
    Plain(c) && !IsLengthChar(c)
  }

  /** No flag, digit, `*` or `.`. */
  predicate Plain(c: char) {
    !IsFlagChar(c) && !IsDigit(c) && c != '*' && c != '.'
  }

  lemma NumeralDigits(n: nat)
    requires 0 < n < UIntModulus
    ensures |Numeral(n)| > 0
    ensures forall i :: 0 <= i < |Numeral(n)| ==> IsDigit(Numeral(n)[i])
    ensures ReadBack(Numeral(n), 10) == n
  {
    DigitsRoundTrip(n, Decimal, Narrow, false);
  }

  /** atoi reads a numeral back. */
  lemma NumeralRoundTrip(n: nat, t: seq<char>)
    requires 0 < n < UIntModulus
    requires !IsDigit(At(t, 0))
    ensures Atoi(Numeral(n) + t) == Scan(n, t)
  {
    NumeralDigits(n);
    AtoiStops(Numeral(n), t);
    DivModUnique(n, UIntModulus, 0, n);
  }

  /** A flag set written in canonical order parses back to itself. */
  lemma FlagsRoundTrip(f: Flags, t: seq<char>)
    requires OnlyFlagChars(f)
    requires !IsFlagChar(At(t, 0))
    ensures ParseFlags(FlagText(f) + t, NoFlags) == Scan(f, t)
  {
    FlagTextContents(f);
    ParseFlagsReads(FlagText(f), t, NoFlags);
  }

  /** The written flags are flag characters, one for each bit set. */
  lemma FlagTextContents(f: Flags)
    ensures forall i :: 0 <= i < |FlagText(f)| ==> IsFlagChar(FlagText(f)[i])
    ensures OnlyFlagChars(f) ==> AddFlags(NoFlags, FlagText(f)) == f
  {
    var s := FlagText(f);
    FlagTextMembers(f);
    forall i | 0 <= i < |s| ensures IsFlagChar(s[i]) {
      assert s[i] in s;
    }
  }

  /** Which characters the written flags contain. */
  lemma FlagTextMembers(f: Flags)
    ensures forall x :: x in FlagText(f) <==>
      (f.zeroPad && x == '0') || (f.left && x == '-') || (f.plus && x == '+')
      || (f.space && x == ' ') || (f.hash && x == '#')
  {
    var a, b, c, d, e := Opt(f.zeroPad, '0'), Opt(f.left, '-'), Opt(f.plus, '+'),
      Opt(f.space, ' '), Opt(f.hash, '#');
    OptContents(f.zeroPad, '0');
    OptContents(f.left, '-');
    OptContents(f.plus, '+');
    OptContents(f.space, ' ');
    OptContents(f.hash, '#');
    assert FlagText(f) == a + (b + (c + (d + e)));
  }

  /** An optional flag character holds that character exactly when its bit
      is set, and nothing else. */
  lemma OptContents(bit: bool, c: char)
    ensures forall x :: x in Opt(bit, c) <==> bit && x == c
  {
  }

  lemma WidthRoundTrip(w: WidthSpec, t: seq<char>)
    requires w.WidthLit? ==> 0 < w.n < UIntModulus
    requires !IsDigit(At(t, 0))
    requires w == NoWidth ==> At(t, 0) != '*'
    ensures ParseWidth(WidthText(w) + t) == Scan(w, t)
  {
    match w
    case NoWidth =>
      assert WidthText(w) + t == t;
    case WidthStar =>
      assert (WidthText(w) + t)[1..] == t;
    case WidthLit(n) =>
      NumeralDigits(n);
      assert At(Numeral(n) + t, 0) == Numeral(n)[0];
      NumeralRoundTrip(n, t);
  }

  lemma PrecisionRoundTrip(p: PrecSpec, t: seq<char>)
    requires p.PrecLit? ==> p.n < UIntModulus
    requires !IsDigit(At(t, 0)) && At(t, 0) != '*'
    requires p == NoPrec ==> At(t, 0) != '.'
    ensures ParsePrecision(PrecisionText(p) + t) == Scan(p, t)
    ensures Plain(At(t, 0)) ==> var h := At(PrecisionText(p) + t, 0);
      !IsFlagChar(h) && !IsDigit(h) && h != '*'
  {
    match p
    case NoPrec =>
      assert PrecisionText(p) + t == t;
    case PrecStar =>
      PrecStarRoundTrip(t);
    case PrecLit(n) =>
      if n == 0 {
        PrecDotRoundTrip(t);
      } else {
        PrecNumeralRoundTrip(n, t);
      }
  }

  lemma PrecStarRoundTrip(t: seq<char>)
    ensures ParsePrecision(".*" + t) == Scan(PrecStar, t)
    ensures At(".*" + t, 0) == '.'
  {
    var s := ".*" + t;
    assert s[1..][1..] == t;
  }

  lemma PrecDotRoundTrip(t: seq<char>)
    requires !IsDigit(At(t, 0)) && At(t, 0) != '*'
    ensures ParsePrecision("." + t) == Scan(PrecLit(0), t)
    ensures At("." + t, 0) == '.'
  {
    var s := "." + t;
    assert s[1..] == t;
  }

  lemma PrecNumeralRoundTrip(n: nat, t: seq<char>)
    requires 0 < n < UIntModulus
    requires !IsDigit(At(t, 0))
    ensures ParsePrecision("." + Numeral(n) + t) == Scan(PrecLit(n), t)
    ensures At("." + Numeral(n) + t, 0) == '.'
  {
    var u := Numeral(n) + t;
    var s := "." + Numeral(n) + t;
    assert s == "." + u;
    NumeralDigits(n);
    NumeralRoundTrip(n, t);
    assert At(u, 0) == Numeral(n)[0];
    assert s[1..] == u;
  }

  lemma LengthRoundTrip(l: Length, t: seq<char>)
    requires !IsLengthChar(At(t, 0))
    ensures ParseLength(LengthText(l) + t) == Scan(l, t)
    ensures Plain(At(t, 0)) ==> Plain(At(LengthText(l) + t, 0))
  {
    var s := LengthText(l) + t;
    match l
    case LenNone =>
      assert s == t;
    case LenHH =>
      assert s[0] == 'h' && s[1] == 'h' && s[2..] == t;
    case LenH =>
      assert s[0] == 'h' && At(s, 1) == At(t, 0) && s[1..] == t;
    case LenL =>
      assert s[0] == 'l' && At(s, 1) == At(t, 0) && s[1..] == t;
    case LenLL =>
      assert s[0] == 'l' && s[1] == 'l' && s[2..] == t;
    case LenJ =>
      assert s[0] == 'j' && s[1..] == t;
    case LenZ =>
      assert s[0] == 'z' && s[1..] == t;
    case LenT =>
      assert s[0] == 't' && s[1..] == t;
  }

  /** A written width never starts with a flag character: a numeral's
      leading digit is not `0`. */
  lemma WidthStartsNoFlag(w: WidthSpec, t: seq<char>)
    requires w.WidthLit? ==> 0 < w.n < UIntModulus
    requires !IsFlagChar(At(t, 0))
    ensures !IsFlagChar(At(WidthText(w) + t, 0))
  {
    if w.WidthLit? {
      NumeralDigits(w.n);
      DigitsRoundTrip(w.n, Decimal, Narrow, false);
      assert At(WidthText(w) + t, 0) == Numeral(w.n)[0];
    }
  }

  lemma RenderThen(spec: Spec, t: seq<char>)
    requires Writable(spec)
    ensures Render(spec) + t == FlagText(spec.flags) + (WidthText(spec.width)
      + (PrecisionText(spec.precision) + (LengthText(spec.length) + t)))
  {
    var f, w, p, l := FlagText(spec.flags), WidthText(spec.width),
      PrecisionText(spec.precision), LengthText(spec.length);
    calc {
      ((f + w) + p) + l + t;
      (f + w) + p + (l + t);
      f + w + (p + (l + t));
      f + (w + (p + (l + t)));
    }
  }

  /** Parsing a written directive followed by anything that cannot
      continue it (a conversion character, or the terminator) gives the
      directive back and stops right after it. */
  lemma ParseRender(spec: Spec, t: seq<char>)
    requires Writable(spec)
    requires EndsDirective(At(t, 0))
    ensures ParseSpec(Render(spec) + t) == Parsed(spec, t)
  {
    var t3 := LengthText(spec.length) + t;
    var t2 := PrecisionText(spec.precision) + t3;
    var t1 := WidthText(spec.width) + t2;
    RenderThen(spec, t);
    LengthRoundTrip(spec.length, t);
    PrecisionRoundTrip(spec.precision, t3);
    WidthRoundTrip(spec.width, t2);
    WidthStartsNoFlag(spec.width, t2);
    FlagsRoundTrip(spec.flags, t1);
  }
}
