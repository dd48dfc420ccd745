/** The field formatter for numbers: the flag set of a directive, the
    width and precision arithmetic of ntoa_format, the sign, `#` prefix and
    padding it writes, and the digits and trailing pad of ntoa_long(_long),
    assembled as pre_format_long(_long) prepares them. */
module Field {
  import opened Arith
  import opened Machine
  import opened Magnitude

  /** The directive's flag bits (FLAGS_ZEROPAD ... FLAGS_NEGATIVE). */
  datatype Flags = Flags(
    zeroPad: bool,
    left: bool,
    plus: bool,
    space: bool,
    hash: bool,
    upper: bool,
    charSize: bool,
    shortSize: bool,
    longSize: bool,
    longLongSize: bool,
    hasPrecision: bool,
    negative: bool)

  /** `data.flags = 0`, the state at the start of every directive. */
  const NoFlags := Flags(false, false, false, false, false, false,
                         false, false, false, false, false, false)

  /** Characters handed to the sink, and how many of them the running index
      counted. */
  datatype Emission = Emission(text: seq<char>, counted: nat)

  /** `MAX(a - b, 0)` on operands promoted to `int`. */
  function Sat(a: int, b: int): nat {
    if a > b then a - b else 0
  }

  /** `n` copies of the padding character `c`. */
  function Fill(c: char, n: nat): (s: seq<char>)
    ensures |s| == n && forall i :: 0 <= i < n ==> s[i] == c
  {
    seq(n, _ => c)
  }

  function Spaces(n: nat): seq<char> {
    Fill(' ', n)
  }

  function Zeros(n: nat): seq<char> {
    Fill('0', n)
  }

  /** Columns a sign or a space in the sign position takes. */
  function SignLength(f: Flags): nat {
    if f.negative || f.plus || f.space then 1 else 0
  }

  /** Columns the `#` prefix takes: "0x", "0X" and "0b" two, octal's "0" one. */
  function PrefixLength(f: Flags, base: Base): nat {
    if !f.hash then 0 else if base == Hex || base == Binary then 2 else 1
  }

  /** The sign position: '-' for a negative value, else '+' under the plus
      flag, else ' ' under the space flag, else nothing. */
  function SignText(f: Flags): seq<char> {
    if f.negative then "-"
    else if f.plus then "+"
    else if f.space then " "
    else ""
  }

  /** The `#` prefix. */
  function PrefixText(f: Flags, base: Base): seq<char> {
    if !f.hash then ""
    else if base == Hex && !f.upper then "0x"
    else if base == Hex then "0X"
    else if base == Binary then "0b"
    else "0"
  }

  /** The sign and prefix take exactly the columns reserved for them. */
  lemma ReservedColumnsAreWritten(f: Flags, base: Base)
    ensures |SignText(f)| == SignLength(f)
    ensures |PrefixText(f, base)| == PrefixLength(f, base)
  {
  }

  /** What ntoa_format leaves in data->width and data->precision after its
      arithmetic and before writing anything. */
  datatype Room = Room(width: Byte, precision: Byte)

  /** The arithmetic head of ntoa_format: the digits come off width and
      precision, then a column for the sign, the leading zeros of the
      precision when one was given, and the `#` prefix; every step stops at 0.
      The steps compose into one saturating subtraction of everything the
      field holds besides padding. */
  function Reserve(f: Flags, base: Base, width: Byte, precision: Byte, digitCount: nat): (r: Room)
    ensures r.width <= width && r.precision <= precision
    ensures r.precision == Sat(precision, digitCount)
    ensures r.width == Sat(width, digitCount + SignLength(f)
                                  + (if f.hasPrecision then r.precision else 0)
                                  + PrefixLength(f, base))
  {
    var w1 := Sat(width, digitCount);
    var p1 := Sat(precision, digitCount);
    var w2 := if w1 > 0 && (f.negative || f.plus || f.space) then w1 - 1 else w1;
    var w3 := if f.hasPrecision then Sat(w2, p1) else w2;
    var w4 :=
      if !f.hash then w3
      else if base == Hex || base == Binary then Sat(w3, 2)
      else if w3 > 0 then w3 - 1
      else w3;
    Room(w4, p1)
  }

  /** What ntoa_format writes, and the width it leaves for ntoa_long's
      trailing pad. */
  datatype Head = Head(text: seq<char>, widthLeft: Byte)

  /** ntoa_format: right-justified fields drain the width into leading
      spaces (no zero pad) or leading zeros (zero pad); left-justified ones
      write neither spaces nor zeros and keep the width. */
  function NtoaFormat(f: Flags, base: Base, width: Byte, precision: Byte, digitCount: nat): (h: Head)
    ensures f.left ==> h.text == SignText(f) + PrefixText(f, base)
    ensures !f.left ==> h.widthLeft == 0
  {
    var room := Reserve(f, base, width, precision, digitCount);
    var lead := if !f.left && !f.zeroPad then Spaces(room.width) else [];
    var zeros := if !f.left then Zeros(room.precision) + (if f.zeroPad then Zeros(room.width) else []) else [];
    var widthLeft := if !f.left then 0 else room.width;
    Head(lead + SignText(f) + PrefixText(f, base) + zeros, widthLeft)
  }

  /** ntoa_long(_long): the digits, then, for a left-justified field, the
      remaining width in spaces that the running index does not count. */
  function NtoaLong(f: Flags, base: Base, value: nat, digitCount: nat, widthLeft: Byte, w: Width)
    : (e: Emission)
    requires base == Decimal ==> digitCount <= |Pow10Table(w)|
    ensures e.counted <= |e.text|
    ensures e.text[..e.counted] == DigitText(value, digitCount, base, w, f.upper, f.hasPrecision)
    ensures f.left ==> |e.text| == e.counted + widthLeft
    ensures !f.left ==> |e.text| == e.counted
  {
    var body := DigitText(value, digitCount, base, w, f.upper, f.hasPrecision);
    var tail := if f.left then Spaces(widthLeft) else [];
    assert (body + tail)[..|body|] == body;
    Emission(body + tail, |body|)
  }

  /** The flags pre_format_long(_long) hands on: `#` dropped for the value
      zero, and the negative flag set from the sign of the original value. */
  function Effective(f: Flags, value: nat, negative: bool): (g: Flags)
    ensures g.hash <==> f.hash && value != 0
    ensures g.negative <==> f.negative || negative
  {
    f.(hash := f.hash && value != 0, negative := f.negative || negative)
  }

  /** pre_format leaves every other flag as the directive set it. */
  lemma EffectiveKeeps(f: Flags, value: nat, negative: bool)
    ensures var g := Effective(f, value, negative);
      && g.left == f.left && g.zeroPad == f.zeroPad && g.plus == f.plus && g.space == f.space
      && g.upper == f.upper && g.hasPrecision == f.hasPrecision
  {
  }

  /** ntoa_long(_long) with the ntoa_format it calls, on the flags
      pre_format hands on: the digit count, the head, the digits and the
      trailing pad. */
  function Ntoa(g: Flags, base: Base, width: Byte, precision: Byte, value: nat, w: Width)
    : (e: Emission)
    ensures e.counted <= |e.text|
    ensures !g.left ==> e.counted == |e.text|
  {
    var count := GetDigits(value, base, w);
    var head := NtoaFormat(g, base, width, precision, count);
    var tail := NtoaLong(g, base, value, count, head.widthLeft, w);
    Emission(head.text + tail.text, |head.text| + tail.counted)
  }

  /** One numeric conversion as pre_format_long(_long) runs it. */
  function NumberField(f: Flags, base: Base, width: Byte, precision: Byte,
                       value: nat, negative: bool, w: Width): (e: Emission)
    ensures e.counted <= |e.text|
    ensures !f.left ==> e.counted == |e.text|
  {
    Ntoa(Effective(f, value, negative), base, width, precision, value, w)
  }

  // ---------------------------------------------------------------------
  // Properties of a numeric field

  /** The pad of a numeric field: the width less everything else the field
      holds, never below zero. */
  function Pad(g: Flags, base: Base, width: Byte, precision: Byte, count: nat): nat {
    Sat(width, count + SignLength(g) + (if g.hasPrecision then Sat(precision, count) else 0)
                 + PrefixLength(g, base))
  }

  /** A left-justified field: sign, prefix, digits, then the pad in spaces,
      which the running index does not count; no leading zeros of the
      precision are written. */
  lemma LayoutLeft(g: Flags, base: Base, width: Byte, precision: Byte, value: nat, w: Width)
    requires g.left
    ensures var count := GetDigits(value, base, w);
      var pad := Pad(g, base, width, precision, count);
      var e := Ntoa(g, base, width, precision, value, w);
      && e.text == SignText(g) + PrefixText(g, base)
                   + DigitText(value, count, base, w, g.upper, g.hasPrecision) + Spaces(pad)
      && e.counted == |e.text| - pad
  {
    var count := GetDigits(value, base, w);
    var body := DigitText(value, count, base, w, g.upper, g.hasPrecision);
    var head := NtoaFormat(g, base, width, precision, count);
    var tail := NtoaLong(g, base, value, count, head.widthLeft, w);
    assert head.widthLeft == Pad(g, base, width, precision, count);
    assert tail.text == body + Spaces(head.widthLeft);
    LeftFieldConcat(SignText(g), PrefixText(g, base), body, Spaces(head.widthLeft));
  }

  /** The head of a left-justified field, then its digits and pad, as one
      run of characters. */
  lemma LeftFieldConcat(a: seq<char>, b: seq<char>, c: seq<char>, d: seq<char>)
    ensures (a + b) + (c + d) == a + b + c + d
  {
  }

  /** What ntoa_format writes for a right-justified field: the pad in
      spaces, the sign and prefix, the precision's leading zeros, the pad
      in zeros; exactly one of the two pads is nonempty. */
  lemma HeadRight(g: Flags, base: Base, width: Byte, precision: Byte, count: nat)
    requires !g.left
    ensures var pad := Pad(g, base, width, precision, count);
      NtoaFormat(g, base, width, precision, count).text
        == (if g.zeroPad then [] else Spaces(pad)) + SignText(g) + PrefixText(g, base)
           + (Zeros(Sat(precision, count)) + (if g.zeroPad then Zeros(pad) else []))
  {
  }

  /** The digits of a right-justified field follow its head, all counted. */
  lemma TailRight(g: Flags, base: Base, width: Byte, precision: Byte, value: nat, w: Width)
    requires !g.left
    ensures var count := GetDigits(value, base, w);
      Ntoa(g, base, width, precision, value, w).text
        == NtoaFormat(g, base, width, precision, count).text
           + DigitText(value, count, base, w, g.upper, g.hasPrecision)
  {
    var count := GetDigits(value, base, w);
    var head := NtoaFormat(g, base, width, precision, count);
    var tail := NtoaLong(g, base, value, count, head.widthLeft, w);
    assert tail.text == tail.text[..tail.counted];
  }

  /** A right-justified field without zero padding: the pad in spaces, the
      sign, the prefix, the precision's leading zeros, the digits. */
  lemma LayoutSpaced(g: Flags, base: Base, width: Byte, precision: Byte, value: nat, w: Width)
    requires !g.left && !g.zeroPad
    ensures var count := GetDigits(value, base, w);
      Ntoa(g, base, width, precision, value, w).text
        == Spaces(Pad(g, base, width, precision, count)) + SignText(g) + PrefixText(g, base)
           + Zeros(Sat(precision, count)) + DigitText(value, count, base, w, g.upper, g.hasPrecision)
  {
    var count := GetDigits(value, base, w);
    HeadRight(g, base, width, precision, count);
    TailRight(g, base, width, precision, value, w);
    var e: seq<char> := [];
    assert (if g.zeroPad then Zeros(Pad(g, base, width, precision, count)) else []) == e;
    SpacedFieldConcat(Spaces(Pad(g, base, width, precision, count)), SignText(g), PrefixText(g, base),
                  Zeros(Sat(precision, count)), e,
                  DigitText(value, count, base, w, g.upper, g.hasPrecision));
  }

  /** The head of a field padded with spaces, then its digits, as one run. */
  lemma SpacedFieldConcat(a: seq<char>, s: seq<char>, p: seq<char>, z: seq<char>, e: seq<char>, d: seq<char>)
    requires e == []
    ensures (a + s + p + (z + e)) + d == a + s + p + z + d
  {
  }

  /** A right-justified zero-padded field: the sign and the prefix first,
      then the precision's leading zeros and the pad in zeros, the digits. */
  lemma LayoutZeroPadded(g: Flags, base: Base, width: Byte, precision: Byte, value: nat, w: Width)
    requires !g.left && g.zeroPad
    ensures var count := GetDigits(value, base, w);
      Ntoa(g, base, width, precision, value, w).text
        == SignText(g) + PrefixText(g, base) + Zeros(Sat(precision, count))
           + Zeros(Pad(g, base, width, precision, count))
           + DigitText(value, count, base, w, g.upper, g.hasPrecision)
  {
    var count := GetDigits(value, base, w);
    HeadRight(g, base, width, precision, count);
    TailRight(g, base, width, precision, value, w);
    var e: seq<char> := [];
    assert (if g.zeroPad then [] else Spaces(Pad(g, base, width, precision, count))) == e;
    ZeroPaddedFieldConcat(e, SignText(g), PrefixText(g, base), Zeros(Sat(precision, count)),
                Zeros(Pad(g, base, width, precision, count)),
                DigitText(value, count, base, w, g.upper, g.hasPrecision));
  }

  /** The head of a right-justified field, then its digits, as one run. */
  lemma ZeroPaddedFieldConcat(e: seq<char>, s: seq<char>, p: seq<char>, z: seq<char>, q: seq<char>, d: seq<char>)
    requires e == []
    ensures (e + s + p + (z + q)) + d == s + p + z + q + d
  {
  }

  /** Every right-justified field is its pad, its sign and prefix, the
      precision's leading zeros and its digits. */
  lemma RightLength(g: Flags, base: Base, width: Byte, precision: Byte, value: nat, w: Width)
    requires !g.left
    ensures var count := GetDigits(value, base, w);
      |Ntoa(g, base, width, precision, value, w).text|
        == Pad(g, base, width, precision, count) + SignLength(g) + PrefixLength(g, base)
           + Sat(precision, count) + |DigitText(value, count, base, w, g.upper, g.hasPrecision)|
  {
    ReservedColumnsAreWritten(g, base);
    if g.zeroPad {
      LayoutZeroPadded(g, base, width, precision, value, w);
    } else {
      LayoutSpaced(g, base, width, precision, value, w);
    }
  }

  /** Digits written for a value are as many as get_digits counts, except
      for the lone '0' of the value zero without a precision. */
  lemma DigitTextLength(value: nat, base: Base, w: Width, upper: bool, hasPrecision: bool)
    requires value < Limit(w)
    requires value != 0 || hasPrecision
    ensures var count := GetDigits(value, base, w);
      |DigitText(value, count, base, w, upper, hasPrecision)| == count
  {
    if value != 0 {
      DigitsRoundTrip(value, base, w, upper);
    } else {
      ZeroDigits(value, base, w, upper, hasPrecision);
    }
  }

  /** The width arithmetic of a right-justified field: pad plus content is
      the larger of width and content. */
  lemma RightWidth(g: Flags, base: Base, width: Byte, precision: Byte, value: nat, w: Width)
    requires !g.left
    requires !g.hasPrecision ==> precision == 0
    requires |DigitText(value, GetDigits(value, base, w), base, w, g.upper, g.hasPrecision)|
             == GetDigits(value, base, w)
    ensures var e := Ntoa(g, base, width, precision, value, w);
      |e.text| == Max(width, SignLength(g) + PrefixLength(g, base)
                             + Max(precision, GetDigits(value, base, w)))
  {
    var count := GetDigits(value, base, w);
    RightLength(g, base, width, precision, value, w);
    var content := SignLength(g) + PrefixLength(g, base) + Max(precision, count);
    assert Sat(precision, count) + count == Max(precision, count);
    assert Pad(g, base, width, precision, count) == Sat(width, content);
  }

  /** A right-justified field whose value writes a digit count's worth of
      digits is as wide as the width, or as its content when that is wider:
      the sign, the prefix and the larger of precision and digit count.
      Every character is counted. */
  lemma FieldWidth(f: Flags, base: Base, width: Byte, precision: Byte,
                   value: nat, negative: bool, w: Width)
    requires !f.left
    requires !f.hasPrecision ==> precision == 0
    requires value != 0 || f.hasPrecision
    requires value < Limit(w)
    ensures var g := Effective(f, value, negative);
      var e := NumberField(f, base, width, precision, value, negative, w);
      e.counted == |e.text|
        == Max(width, SignLength(g) + PrefixLength(g, base) + Max(precision, GetDigits(value, base, w)))
  {
    DigitTextLength(value, base, w, f.upper, f.hasPrecision);
    RightWidth(Effective(f, value, negative), base, width, precision, value, w);
  }

  /** The value zero has no digits to count and writes one '0', or nothing
      under an explicit precision. */
  lemma ZeroDigits(value: nat, base: Base, w: Width, upper: bool, hasPrecision: bool)
    requires value == 0
    ensures GetDigits(value, base, w) == 0
    ensures DigitText(value, 0, base, w, upper, hasPrecision) == if hasPrecision then [] else "0"
  {
    DigitCountBounds(value, base, w);
  }

  /** The value zero under no precision: get_digits counts 0 digits but one
      '0' is written, so a padded field comes out one column wider than its
      width (`%5d` of 0 writes five spaces and a '0'). */
  lemma ZeroValueWiderThanWidth(f: Flags, base: Base, width: Byte, value: nat, negative: bool, w: Width)
    requires value == 0
    requires !f.left && !f.hasPrecision
    ensures var g := Effective(f, value, negative);
      var e := NumberField(f, base, width, 0, value, negative, w);
      && e.counted == |e.text| == Max(width, SignLength(g)) + 1
      && e.text[|e.text| - 1] == '0'
  {
    var g := Effective(f, value, negative);
    EffectiveKeeps(f, value, negative);
    ZeroDigits(value, base, w, f.upper, false);
    LoneZeroLayout(g, base, width, value, w);
  }

  lemma LoneZeroLayout(g: Flags, base: Base, width: Byte, value: nat, w: Width)
    requires value == 0 && !g.hash
    requires !g.left && !g.hasPrecision
    requires GetDigits(value, base, w) == 0
    requires DigitText(value, 0, base, w, g.upper, false) == "0"
    ensures var e := Ntoa(g, base, width, 0, value, w);
      |e.text| == Max(width, SignLength(g)) + 1 && e.text[|e.text| - 1] == '0'
  {
    ReservedColumnsAreWritten(g, base);
    if g.zeroPad {
      LayoutZeroPadded(g, base, width, 0, value, w);
    } else {
      LayoutSpaced(g, base, width, 0, value, w);
    }
  }

  /** The value zero under an explicit precision of 0 writes no digit at
      all: without zero padding the field is its sign and its pad in spaces,
      the pad first unless left-justified. */
  lemma ZeroValueNoDigits(f: Flags, base: Base, width: Byte, value: nat, negative: bool, w: Width)
    requires value == 0
    requires f.hasPrecision && !f.zeroPad
    ensures var g := Effective(f, value, negative);
      var pad := Pad(g, base, width, 0, 0);
      NumberField(f, base, width, 0, value, negative, w).text
        == if f.left then SignText(g) + Spaces(pad) else Spaces(pad) + SignText(g)
  {
    var g := Effective(f, value, negative);
    EffectiveKeeps(f, value, negative);
    ZeroDigits(value, base, w, f.upper, true);
    NoDigitsLayout(g, base, width, value, w);
  }

  lemma NoDigitsLayout(g: Flags, base: Base, width: Byte, value: nat, w: Width)
    requires value == 0 && !g.hash
    requires g.hasPrecision && !g.zeroPad
    requires GetDigits(value, base, w) == 0
    requires DigitText(value, 0, base, w, g.upper, true) == []
    ensures var pad := Pad(g, base, width, 0, 0);
      Ntoa(g, base, width, 0, value, w).text
        == if g.left then SignText(g) + Spaces(pad) else Spaces(pad) + SignText(g)
  {
    if g.left {
      LayoutLeft(g, base, width, 0, value, w);
    } else {
      LayoutSpaced(g, base, width, 0, value, w);
    }
  }

  /** The `#` flag never writes a prefix for the value zero. */
  lemma NoPrefixForZero(f: Flags, base: Base, width: Byte, precision: Byte,
                        value: nat, negative: bool, w: Width)
    requires value == 0
    ensures NumberField(f.(hash := true), base, width, precision, value, negative, w)
         == NumberField(f.(hash := false), base, width, precision, value, negative, w)
  {
    assert Effective(f.(hash := true), value, negative) == Effective(f.(hash := false), value, negative);
  }

  /** The sign position holds '-' for a negative value whatever `+` and
      space say, else '+' under `+`, else a space under the space flag, else
      nothing. It comes first, except in a right-justified field without
      zero padding, where the pad in spaces stands before it. */
  lemma SignPriority(f: Flags, base: Base, width: Byte, precision: Byte,
                     value: nat, negative: bool, w: Width)
    requires !f.negative
    ensures var g := Effective(f, value, negative);
      var sign := if negative then "-" else if f.plus then "+" else if f.space then " " else "";
      var at := if !f.left && !f.zeroPad then Pad(g, base, width, precision, GetDigits(value, base, w)) else 0;
      var e := NumberField(f, base, width, precision, value, negative, w);
      at + |sign| <= |e.text| && e.text[at..at + |sign|] == sign
  {
    var g := Effective(f, value, negative);
    EffectiveKeeps(f, value, negative);
    assert SignText(g) == if negative then "-" else if f.plus then "+" else if f.space then " " else "";
    assert NumberField(f, base, width, precision, value, negative, w) == Ntoa(g, base, width, precision, value, w);
    if f.left {
      SignLeft(g, base, width, precision, value, w);
    } else if f.zeroPad {
      SignZeroPadded(g, base, width, precision, value, w);
    } else {
      SignSpaced(g, base, width, precision, value, w);
    }
  }

  lemma SignLeft(g: Flags, base: Base, width: Byte, precision: Byte, value: nat, w: Width)
    requires g.left
    ensures var sign := SignText(g);
      var e := Ntoa(g, base, width, precision, value, w);
      |sign| <= |e.text| && e.text[0..|sign|] == sign
  {
    var count := GetDigits(value, base, w);
    LayoutLeft(g, base, width, precision, value, w);
    ConcatPrefix(SignText(g), PrefixText(g, base), DigitText(value, count, base, w, g.upper, g.hasPrecision),
          Spaces(Pad(g, base, width, precision, count)));
  }

  /** The first part of a field's characters is the part written first. */
  lemma ConcatPrefix(a: seq<char>, b: seq<char>, c: seq<char>, d: seq<char>)
    ensures |a| <= |a + b + c + d| && (a + b + c + d)[0..|a|] == a
  {
  }

  lemma SignZeroPadded(g: Flags, base: Base, width: Byte, precision: Byte, value: nat, w: Width)
    requires !g.left && g.zeroPad
    ensures var sign := SignText(g);
      var e := Ntoa(g, base, width, precision, value, w);
      |sign| <= |e.text| && e.text[0..|sign|] == sign
  {
    var count := GetDigits(value, base, w);
    var sign := SignText(g);
    LayoutZeroPadded(g, base, width, precision, value, w);
    ReservedColumnsAreWritten(g, base);
    var t := Ntoa(g, base, width, precision, value, w).text;
    if |sign| == 1 {
      assert t[0] == sign[0];
      assert t[0..1] == sign;
    }
  }

  lemma SignSpaced(g: Flags, base: Base, width: Byte, precision: Byte, value: nat, w: Width)
    requires !g.left && !g.zeroPad
    ensures var sign := SignText(g);
      var at := Pad(g, base, width, precision, GetDigits(value, base, w));
      var e := Ntoa(g, base, width, precision, value, w);
      at + |sign| <= |e.text| && e.text[at..at + |sign|] == sign
  {
    var count := GetDigits(value, base, w);
    LayoutSpaced(g, base, width, precision, value, w);
    ConcatSlice(Spaces(Pad(g, base, width, precision, count)), SignText(g), PrefixText(g, base),
          Zeros(Sat(precision, count)), DigitText(value, count, base, w, g.upper, g.hasPrecision));
  }

  /** The second part of a field's characters stands right after the first. */
  lemma ConcatSlice(a: seq<char>, b: seq<char>, c: seq<char>, d: seq<char>, e: seq<char>)
    ensures |a| + |b| <= |a + b + c + d + e| && (a + b + c + d + e)[|a|..|a| + |b|] == b
  {
  }

  /** `%05d` of -42 is "-0042". */
  lemma ZeroPaddedNegative()
    ensures NumberField(NoFlags.(zeroPad := true), Decimal, 5, 0, 42, true, Narrow).text == "-0042"
  {
    var g := Effective(NoFlags.(zeroPad := true), 42, true);
    assert GetDigits(42, Decimal, Narrow) == 2;
    assert DigitText(42, 2, Decimal, Narrow, false, false) == "42";
    LayoutZeroPadded(g, Decimal, 5, 0, 42, Narrow);
  }

  /** `%-4d` of 5 writes "5   " but counts one character: the trailing
      pad of a left-justified field is not counted. */
  lemma LeftPadUncounted()
    ensures NumberField(NoFlags.(left := true), Decimal, 4, 0, 5, false, Narrow) == Emission("5   ", 1)
  {
    var g := Effective(NoFlags.(left := true), 5, false);
    assert g == NoFlags.(left := true);
    assert GetDigits(5, Decimal, Narrow) == 1;
    assert DigitText(5, 1, Decimal, Narrow, false, false) == "5";
    assert Pad(g, Decimal, 4, 0, 1) == 3;
    LayoutLeft(g, Decimal, 4, 0, 5, Narrow);
  }

  /** `%5d` of 0 writes six characters: five spaces, then the '0' that
      get_digits did not count. */
  lemma ZeroValueOverflowsWidth()
    ensures NumberField(NoFlags, Decimal, 5, 0, 0, false, Narrow) == Emission("     0", 6)
  {
    var g := Effective(NoFlags, 0, false);
    assert g == NoFlags;
    ZeroDigits(0, Decimal, Narrow, false, false);
    assert Pad(g, Decimal, 5, 0, 0) == 5;
    LayoutSpaced(g, Decimal, 5, 0, 0, Narrow);
  }

  /** The `%p` field of a null pointer: eight zeros of pad, and the '0'
      of the value zero after them. */
  lemma NullPointerField()
    ensures NumberField(NoFlags.(zeroPad := true, upper := true), Hex, 8, 0, 0, false, Narrow)
         == Emission("000000000", 9)
  {
    var f := NoFlags.(zeroPad := true, upper := true);
    var g := Effective(f, 0, false);
    assert g == f;
    ZeroDigits(0, Hex, Narrow, true, false);
    assert Pad(g, Hex, 8, 0, 0) == 8;
    LayoutZeroPadded(g, Hex, 8, 0, 0, Narrow);
  }

  /** The `%p` field of a nonzero 32-bit address: eight columns, counted,
      each an upper-case hex digit (leading zeros of the pad included),
      which read back to the address. */
  lemma PointerDigits(v: nat)
    requires 0 < v < Limit(Narrow)
    ensures var e := NumberField(NoFlags.(zeroPad := true, upper := true), Hex, 8, 0, v, false, Narrow);
      && e.counted == |e.text| == 8
      && (forall i :: 0 <= i < 8 ==> IsDigitOf(e.text[i], Hex, true))
      && ReadBack(e.text, 16) == v
  {
    var f := NoFlags.(zeroPad := true, upper := true);
    var g := Effective(f, v, false);
    assert g == f;
    var k := GetDigits(v, Hex, Narrow);
    var s := Digits(v, k, Hex, Narrow, true);
    DigitsRoundTrip(v, Hex, Narrow, true);
    HexDigitsFit(v, k);
    assert Pad(g, Hex, 8, 0, k) == 8 - k;
    LayoutZeroPadded(g, Hex, 8, 0, v, Narrow);
    var text := Ntoa(g, Hex, 8, 0, v, Narrow).text;
    DropEmpty(SignText(g), PrefixText(g, Hex), Zeros(Sat(0, k)), Zeros(8 - k), s);
    assert text == Zeros(8 - k) + s;
    ReadBackPastZeros(8 - k, s, 16);
    forall i | 0 <= i < 8 ensures IsDigitOf(text[i], Hex, true) {
      if i >= 8 - k {
        assert text[i] == s[i - (8 - k)];
      }
    }
  }

  /** A nonzero 32-bit value has at most eight hex digits. */
  lemma HexDigitsFit(v: nat, k: nat)
    requires 0 < v < Limit(Narrow) && k == GetDigits(v, Hex, Narrow)
    ensures 0 < k <= 8
  {
    DigitCountBounds(v, Hex, Narrow);
    TwoPowers();
    PowOfPow(2, 4, 8);
    assert Pow(2, 4) == 16;
    if k - 1 > 8 {
      PowGrows(16, 8, k - 1);
    }
  }

  /** Leading zeros do not change the number a digit string denotes. */
  lemma {:induction false} ReadBackPastZeros(n: nat, s: seq<char>, radix: nat)
    ensures ReadBack(Zeros(n) + s, radix) == ReadBack(s, radix)
    decreases n
  {
    if n > 0 {
      var t := Zeros(n) + s;
      assert t[0] == '0';
      assert t[1..] == Zeros(n - 1) + s;
      assert DigitValue(t[0]) == 0;
      assert ReadBack(t, radix) == ReadBack(t[1..], radix);
      ReadBackPastZeros(n - 1, s, radix);
    } else {
      assert Zeros(n) + s == s;
    }
  }

  /** Empty sign, prefix and precision zeros drop out of a field. */
  lemma DropEmpty(a: seq<char>, b: seq<char>, c: seq<char>, z: seq<char>, d: seq<char>)
    requires a == [] && b == [] && c == []
    ensures a + b + c + z + d == z + d
  {
  }
}
