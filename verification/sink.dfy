/** The bounded-buffer sink: out_sprintf stores each character while the
    remaining capacity lasts, and snprintf_ / vsnprintf_ then write the
    terminator at the cursor, or over the last stored character when the
    buffer is full, and not at all when the capacity is 0. */
module Sink {
  import opened Arith
  import opened Machine
  import opened Format

  /** The caller's buffer: a NULL pointer, or the cells it points to. */
  datatype Buffer = Null | Cells(cells: seq<char>)

  /** sprintf_data_t: the buffer, how far its pointer has advanced, and
      the capacity left (maxlen). */
  datatype Cursor = Cursor(buffer: Buffer, at: nat, maxlen: nat)

  /** A cursor started with capacity `count` on a buffer of at least
      `count` cells: what it has stored and what it has left add up to
      `count`. */
  predicate Fits(s: Cursor, count: nat) {
    s.buffer.Cells? ==> s.at + s.maxlen == count <= |s.buffer.cells|
  }

  /** out_sprintf: store the character and advance while capacity is left;
      otherwise, and always for a NULL buffer, do nothing. */
  function OutSprintf(c: char, s: Cursor): (r: Cursor)
    requires s.buffer.Cells? ==> s.at + s.maxlen <= |s.buffer.cells|
    ensures r.buffer.Cells? <==> s.buffer.Cells?
    ensures r.buffer.Cells? ==> |r.buffer.cells| == |s.buffer.cells| && r.at + r.maxlen == s.at + s.maxlen
    ensures s.maxlen == 0 || s.buffer.Null? ==> r == s
    ensures s.maxlen > 0 && s.buffer.Cells? ==>
      && r.at == s.at + 1 && r.maxlen == s.maxlen - 1 && r.buffer.cells[s.at] == c
      && forall i :: 0 <= i < |s.buffer.cells| && i != s.at ==> r.buffer.cells[i] == s.buffer.cells[i]
  {
    if s.maxlen > 0 && s.buffer.Cells? then
      Cursor(Cells(s.buffer.cells[s.at := c]), s.at + 1, s.maxlen - 1)
    else s
  }

  /** The characters format_out hands to out_sprintf, one after another. */
  function Drain(text: seq<char>, s: Cursor): (r: Cursor)
    requires s.buffer.Cells? ==> s.at + s.maxlen <= |s.buffer.cells|
    ensures s.buffer.Null? ==> r == s
    ensures s.buffer.Cells? ==> var k := Min(|text|, s.maxlen);
      && r.buffer.Cells? && |r.buffer.cells| == |s.buffer.cells|
      && r.at == s.at + k && r.maxlen == s.maxlen - k
      && forall i :: 0 <= i < |r.buffer.cells| ==>
           r.buffer.cells[i] == if s.at <= i < s.at + k then text[i - s.at] else s.buffer.cells[i]
    decreases |text|
  {
    if |text| == 0 then s else Drain(text[1..], OutSprintf(text[0], s))
  }

  /** The terminator write of snprintf_ / vsnprintf_. */
  function Terminate(s: Cursor, count: nat): (b: Buffer)
    requires Fits(s, count)
  {
    if s.buffer.Null? || count == 0 then s.buffer
    else Cells(s.buffer.cells[(if s.maxlen != 0 then s.at else s.at - 1) := '\0'])
  }

  /** What snprintf_ leaves: the buffer and the value it returns. */
  datatype Written = Written(buffer: Buffer, count: Byte)

  /** snprintf_ and vsnprintf_: format into at most `count` cells of the
      buffer, terminate, and return format_out's count. */
  function Snprintf(buffer: Buffer, count: nat, format: seq<char>, args: seq<Arg>)
    : (r: Result<Written>)
    requires count <= SizeMax
    requires buffer.Cells? ==> count <= |buffer.cells|
    ensures r.Ok? <==> FormatOut(format, args).Ok?
    ensures r.Ok? ==> r.value.count == FormatOut(format, args).value.count
    ensures r.Ok? && buffer.Null? ==> r.value.buffer == Null
  {
    match FormatOut(format, args)
    case Err(e) => Err(e)
    case Ok(out) =>
      var s := Drain(out.text, Cursor(buffer, 0, count));
      Ok(Written(Terminate(s, count), out.count))
  }

  /** With capacity 0 the buffer is not touched at all. */
  lemma ZeroCapacity(buffer: Buffer, format: seq<char>, args: seq<Arg>)
    requires FormatOut(format, args).Ok?
    ensures Snprintf(buffer, 0, format, args).value.buffer == buffer
  {
  }

  /** With capacity `count` > 0 the buffer holds the first `count - 1`
      characters of the output (or all of them, when fewer), the terminator
      right after them, and its old contents beyond. */
  lemma Stored(cells: seq<char>, count: nat, format: seq<char>, args: seq<Arg>)
    requires 0 < count <= SizeMax && count <= |cells|
    requires FormatOut(format, args).Ok?
    ensures var text := FormatOut(format, args).value.text;
      var m := Min(|text|, count - 1);
      var b := Snprintf(Cells(cells), count, format, args).value.buffer;
      && b.Cells? && |b.cells| == |cells|
      && (forall i :: 0 <= i < m ==> b.cells[i] == text[i])
      && b.cells[m] == '\0'
      && (forall i :: m < i < |cells| ==> b.cells[i] == cells[i])
  {
    var out := FormatOut(format, args).value;
    var text := out.text;
    var s := Drain(text, Cursor(Cells(cells), 0, count));
    assert Snprintf(Cells(cells), count, format, args) == Ok(Written(Terminate(s, count), out.count));
    var k := Min(|text|, count);
    var m := Min(|text|, count - 1);
    assert s.at == k && s.maxlen == count - k;
    assert Terminate(s, count) == Cells(s.buffer.cells[m := '\0']);
    Overwritten(cells, s.buffer.cells, text, k, m);
  }

  /** The cells after the copy, with the terminator written at m, where m is
      the end of the copy or its last cell. */
  lemma Overwritten(cells: seq<char>, stored: seq<char>, text: seq<char>, k: nat, m: nat)
    requires |stored| == |cells| && k <= |text| && m <= k && m < |cells|
    requires k == m || k == m + 1
    requires forall i :: 0 <= i < |stored| ==> stored[i] == if 0 <= i < k then text[i] else cells[i]
    ensures var b := stored[m := '\0'];
      && (forall i :: 0 <= i < m ==> b[i] == text[i])
      && b[m] == '\0'
      && (forall i :: m < i < |cells| ==> b[i] == cells[i])
  {
  }

  /** The value returned does not depend on the buffer or its capacity. */
  lemma ReturnIgnoresCapacity(b1: Buffer, c1: nat, b2: Buffer, c2: nat, format: seq<char>, args: seq<Arg>)
    requires c1 <= SizeMax && (b1.Cells? ==> c1 <= |b1.cells|)
    requires c2 <= SizeMax && (b2.Cells? ==> c2 <= |b2.cells|)
    requires FormatOut(format, args).Ok?
    ensures Snprintf(b1, c1, format, args).value.count == Snprintf(b2, c2, format, args).value.count
  {
  }

  /** Capacity 3 and "abcdef": "ab" and the terminator are stored, and 6
      is returned. */
  lemma ShortBuffer(cells: seq<char>)
    requires |cells| == 3
    ensures Snprintf(Cells(cells), 3, "abcdef", []) == Ok(Written(Cells("ab\0"), 6))
  {
    var format := "abcdef";
    SixLetters(format);
    Stored(cells, 3, format, []);
    var b := Snprintf(Cells(cells), 3, format, []).value.buffer;
    assert b.cells[0] == 'a' && b.cells[1] == 'b' && b.cells[2] == '\0';
    assert b.cells == "ab\0";
  }

  lemma SixLetters(format: seq<char>)
    requires format == "abcdef"
    ensures FormatOut(format, []) == Ok(Output(format, 6))
  {
    assert 6 % 256 == 6;
    assert forall i :: 0 <= i < |format| ==> Literal(format[i]);
    LiteralsOnly(format, []);
  }
}
