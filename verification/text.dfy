/** The `%s` and `%c` conversions: strnlen_s, print_string and the
    character arm of format_out. */
module Text {
  import opened Arith
  import opened Machine
  import opened Field

  /** strnlen_s: the characters before the terminator, but no more than
      `maxsize`. */
  function StrnLen(s: seq<char>, maxsize: nat): (n: nat)
    ensures n == Min(CLen(s), maxsize)
    decreases |s|
  {
    if At(s, 0) == '\0' || maxsize == 0 then 0
    else 1 + StrnLen(s[1..], maxsize - 1)
  }

  /** The output loop of print_string: characters up to the terminator and,
      under an explicit precision, no more than `budget` of them. */
  function CopyOut(s: seq<char>, hasPrecision: bool, budget: nat): (r: seq<char>)
    ensures r == s[..if hasPrecision then Min(CLen(s), budget) else CLen(s)]
    decreases |s|
  {
    if At(s, 0) == '\0' then []
    else if hasPrecision && budget == 0 then []
    else [s[0]] + CopyOut(s[1..], hasPrecision, if hasPrecision then budget - 1 else budget)
  }

  /** print_string: the length measured up front (the precision, or no limit
      when it is 0, bounds the scan; an explicit precision bounds it again),
      the pad before or after, and the copied characters; everything counted. */
  function PrintString(s: seq<char>, width: Byte, precision: Byte, hasPrecision: bool, left: bool)
    : (e: Emission)
    ensures e.counted == |e.text|
  {
    var scanned := StrnLen(s, if precision != 0 then precision else SizeMax);
    var l := if hasPrecision then Min(scanned, precision) else scanned;
    var pad := Sat(width, l);
    var body := CopyOut(s, hasPrecision, precision);
    var text := if left then body + Spaces(pad) else Spaces(pad) + body;
    Emission(text, |text|)
  }

  /** The characters `%s` writes from a string: all of it, or at most
      `precision` of it under an explicit precision. */
  function Shown(s: seq<char>, precision: nat, hasPrecision: bool): nat {
    if hasPrecision then Min(CLen(s), precision) else CLen(s)
  }

  /** A `%s` field is exactly as wide as the larger of the width and the
      characters shown; the string's characters come first when
      left-justified and last otherwise, and the rest are spaces. The length
      measured before padding agrees with the number of characters copied,
      for any string that fits the 32-bit address space. */
  lemma StringField(s: seq<char>, width: Byte, precision: Byte, hasPrecision: bool, left: bool)
    requires CLen(s) <= SizeMax
    requires !hasPrecision ==> precision == 0
    ensures var e := PrintString(s, width, precision, hasPrecision, left);
      var n := Shown(s, precision, hasPrecision);
      && |e.text| == Max(width, n)
      && (left ==> e.text[..n] == s[..n]
                   && forall i :: n <= i < |e.text| ==> e.text[i] == ' ')
      && (!left ==> e.text[|e.text| - n..] == s[..n]
                    && forall i :: 0 <= i < |e.text| - n ==> e.text[i] == ' ')
  {
    var n := Shown(s, precision, hasPrecision);
    var body := CopyOut(s, hasPrecision, precision);
    assert |body| == n;
    var pad := Sat(width, n);
    if left {
      assert (body + Spaces(pad))[..n] == body;
    } else {
      assert (Spaces(pad) + body)[pad..] == body;
    }
  }

  /** `%.0s` and `%.s` write no character of the string at all. */
  lemma ZeroPrecisionString(s: seq<char>, width: Byte, left: bool)
    ensures PrintString(s, width, 0, true, left).text == Spaces(width)
  {
  }

  /** The `%c` arm: the character and a pad of width less one space, before
      it or after it. The field is the width wide, or one character when the
      width is smaller; the character stands at its left or right end and
      every other position is a space. */
  function CharField(c: char, width: Byte, left: bool): (e: Emission)
    ensures e.counted == |e.text| == Max(width, 1)
    ensures e.text[if left then 0 else |e.text| - 1] == c
    ensures forall i :: 0 <= i < |e.text| && i != (if left then 0 else |e.text| - 1) ==> e.text[i] == ' '
  {
    var pad := Sat(width, 1);
    var text := if left then [c] + Spaces(pad) else Spaces(pad) + [c];
    Emission(text, |text|)
  }
}
