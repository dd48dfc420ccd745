/** format_out: the loop that copies literal characters and, for each
    directive, takes its arguments in order (a `*` width, a `*` precision,
    then the value), sets up the flags the conversion needs and hands the
    value to the number, string or character emitter. The characters all
    directives hand to the sink are concatenated; the running index is an
    8-bit counter, so the returned count is their number modulo 256. */
module Format {
  import opened Arith
  import opened Machine
  import opened Magnitude
  import opened Field
  import opened Text
  import opened Directive

  /** A variadic argument as the caller passed it. Integers (and characters,
      which C promotes to `int`) carry their mathematical value; reading one
      at a C integer type converts it to that type's width. */
  datatype Arg =
    | Int(v: int)
    | UInt(u: nat)
    | Char(c: char)
    | Ptr(address: nat)
    | Str(chars: seq<char>)

  /** What C leaves undefined and the model reports instead: `va_arg` past
      the last argument, `va_arg` at a type the argument does not have, and
      a directive cut off by the terminator, after which the loop reads
      past the end of the format. */
  datatype Fault = MissingArgument | WrongArgument | PastTerminator

  datatype Result<T> = Ok(value: T) | Err(fault: Fault)

  /** What one read from the argument list produced, and the arguments
      after it. */
  datatype Taken<T> = Taken(got: T, rest: seq<Arg>)

  /** An argument passed as an integer, and its value. */
  predicate IsInteger(a: Arg) {
    a.Int? || a.UInt? || a.Char?
  }

  function IntegerValue(a: Arg): int
    requires IsInteger(a)
  {
    match a
    case Int(v) => v
    case UInt(u) => u
    case Char(c) => c as int
  }

  /** `va_arg(va, int)`, and any other integer type, by its bit count. */
  function ReadSigned(args: seq<Arg>, bits: nat): (r: Result<Taken<int>>)
    requires bits > 0
    ensures |args| == 0 <==> r == Err(MissingArgument)
    ensures r.Ok? <==> |args| > 0 && IsInteger(args[0])
    ensures r.Ok? ==> (&& r.value.rest == args[1..]
                       && 0 <= r.value.got + Pow(2, bits - 1) && r.value.got < Pow(2, bits - 1)
                       && Truncate(r.value.got, bits) == Truncate(IntegerValue(args[0]), bits))
  {
    if |args| == 0 then Err(MissingArgument)
    else if !IsInteger(args[0]) then Err(WrongArgument)
    else Ok(Taken(ToSigned(IntegerValue(args[0]), bits), args[1..]))
  }

  /** `va_arg` at an unsigned integer type of `bits` bits. */
  function ReadUnsigned(args: seq<Arg>, bits: nat): (r: Result<Taken<nat>>)
    ensures |args| == 0 <==> r == Err(MissingArgument)
    ensures r.Ok? <==> |args| > 0 && IsInteger(args[0])
    ensures r.Ok? ==> (&& r.value.rest == args[1..]
                       && r.value.got < Pow(2, bits)
                       && r.value.got == Truncate(IntegerValue(args[0]), bits))
  {
    if |args| == 0 then Err(MissingArgument)
    else if !IsInteger(args[0]) then Err(WrongArgument)
    else Ok(Taken(Truncate(IntegerValue(args[0]), bits), args[1..]))
  }

  // ---------------------------------------------------------------------
  // From directive to settings

  /** What a directive leaves in data.flags, data.width and data.precision
      before the conversion character is looked at. */
  datatype Setting = Setting(flags: Flags, width: Byte, precision: Byte)

  /** The flag bits for a `long`-class or `long long`-class length: `j`, `z`
      and `t` pick by comparing their type's size with `long`'s. */
  function SizedLong(f: Flags, bytes: nat): Flags {
    if bytes == LongBytes then f.(longSize := true) else f.(longLongSize := true)
  }

  /** The length modifier's flag bits. */
  function LengthFlags(f: Flags, l: Length): Flags {
    match l
    case LenNone => f
    case LenL => f.(longSize := true)
    case LenLL => f.(longSize := true, longLongSize := true)
    case LenH => f.(shortSize := true)
    case LenHH => f.(shortSize := true, charSize := true)
    case LenJ => SizedLong(f, IntmaxBytes)
    case LenZ => SizedLong(f, SizeBytes)
    case LenT => SizedLong(f, PtrdiffBytes)
  }

  /** What the width or the precision field leaves: the flags, with any
      change it made, and its 8-bit number. */
  datatype Part = Part(flags: Flags, n: Byte)

  /** The width field: a literal is atoi's value cut to the 8-bit width; a
      `*` takes an `int`, and a negative one turns on left-justification
      and gives its magnitude. */
  function TakeWidth(w: WidthSpec, f: Flags, args: seq<Arg>): (r: Result<Taken<Part>>)
    ensures r.Ok? && !w.WidthStar? ==> r.value == Taken(Part(f, if w.WidthLit? then w.n % 256 else 0), args)
    ensures w.WidthStar? ==> (r.Ok? <==> |args| > 0 && IsInteger(args[0]))
  {
    match w
    case NoWidth => Ok(Taken(Part(f, 0), args))
    case WidthLit(n) => Ok(Taken(Part(f, n % 256), args))
    case WidthStar =>
      match ReadSigned(args, 32)
      case Err(e) => Err(e)
      case Ok(Taken(v, rest)) =>
        if v < 0 then Ok(Taken(Part(f.(left := true), (-v) % 256), rest))
        else Ok(Taken(Part(f, v % 256), rest))
  }

  /** The precision field: `.` with digits is atoi's value cut to 8 bits,
      `.` alone is 0, and `.*` takes an `int`, a negative one counting as 0.
      Any `.` sets the precision flag. */
  function TakePrecision(p: PrecSpec, f: Flags, args: seq<Arg>): (r: Result<Taken<Part>>)
    ensures r.Ok? ==> r.value.got.flags == f.(hasPrecision := f.hasPrecision || !p.NoPrec?)
    ensures r.Ok? && !p.PrecStar? ==> (&& r.value.got.n == (if p.PrecLit? then p.n % 256 else 0)
                                       && r.value.rest == args)
    ensures p.PrecStar? ==> (r.Ok? <==> |args| > 0 && IsInteger(args[0]))
  {
    match p
    case NoPrec => Ok(Taken(Part(f, 0), args))
    case PrecLit(n) => Ok(Taken(Part(f.(hasPrecision := true), n % 256), args))
    case PrecStar =>
      match ReadSigned(args, 32)
      case Err(e) => Err(e)
      case Ok(Taken(v, rest)) => Ok(Taken(Part(f.(hasPrecision := true), (if v > 0 then v else 0) % 256), rest))
  }

  /** The number of `*` in a directive: the arguments its head takes. */
  function Stars(spec: Spec): nat {
    (if spec.width.WidthStar? then 1 else 0) + (if spec.precision.PrecStar? then 1 else 0)
  }

  /** The head of a directive's evaluation: flags, then width, precision and
      length, taking the `*` arguments in that order. */
  function Configure(spec: Spec, args: seq<Arg>): (r: Result<Taken<Setting>>)
    ensures r.Ok? ==> Stars(spec) <= |args| && r.value.rest == args[Stars(spec)..]
  {
    match TakeWidth(spec.width, spec.flags, args)
    case Err(e) => Err(e)
    case Ok(Taken(Part(f1, width), rest1)) =>
      match TakePrecision(spec.precision, f1, rest1)
      case Err(e) => Err(e)
      case Ok(Taken(Part(f2, precision), rest2)) =>
        Ok(Taken(Setting(LengthFlags(f2, spec.length), width, precision), rest2))
  }

  // ---------------------------------------------------------------------
  // Conversions

  predicate IsIntegerConversion(c: char) {
    c == 'd' || c == 'i' || c == 'u' || c == 'x' || c == 'X' || c == 'o' || c == 'b'
  }

  predicate IsSignedConversion(c: char) {
    c == 'd' || c == 'i'
  }

  function ConversionBase(c: char): Base {
    if c == 'x' || c == 'X' then Hex
    else if c == 'o' then Octal
    else if c == 'b' then Binary
    else Decimal
  }

  /** The flags an integer conversion adjusts before reading its value. */
  function ConversionFlags(f: Flags, c: char): Flags {
    f.(hash := f.hash && ConversionBase(c) != Decimal, upper := f.upper || c == 'X',
       plus := f.plus && IsSignedConversion(c), space := f.space && IsSignedConversion(c),
       zeroPad := f.zeroPad && !f.hasPrecision)
  }

  /** `#` is dropped for decimal, `X` selects upper case, only `d` and `i`
      keep `+` and space, an explicit precision turns zero padding off, and
      no other flag changes. */
  lemma ConversionFlagsSpec(f: Flags, c: char)
    ensures var g := ConversionFlags(f, c);
      && (g.hash <==> f.hash && ConversionBase(c) != Decimal)
      && (g.upper <==> f.upper || c == 'X')
      && (g.plus <==> f.plus && IsSignedConversion(c))
      && (g.space <==> f.space && IsSignedConversion(c))
      && (g.zeroPad <==> f.zeroPad && !f.hasPrecision)
      && g.left == f.left && g.hasPrecision == f.hasPrecision && g.negative == f.negative
      && g.charSize == f.charSize && g.shortSize == f.shortSize
      && g.longSize == f.longSize && g.longLongSize == f.longLongSize
  {
  }

  function Abs(v: int): nat {
    if v < 0 then -v else v
  }

  /** A value read for a number field: its magnitude, its sign and the
      magnitude representation (unsigned long or unsigned long long). */
  datatype Reading = Reading(value: nat, negative: bool, w: Width)

  /** The signed value a reading stands for. */
  function SignedOf(m: Reading): int {
    if m.negative then -(m.value as int) else m.value
  }

  /** The bit count of the C type an integer conversion reads under the
      length flags: `long long` under `ll` and `j`, `long` under `l`, `z`
      and `t`, `char` under `hh`, `short` under `h`, else `int`. */
  function TypeBits(f: Flags): nat {
    if f.longLongSize then 8 * LongLongBytes
    else if f.longSize then 8 * LongBytes
    else if f.charSize then 8
    else if f.shortSize then 16
    else 32
  }

  /** `hh` on a signed conversion reads a plain `char`, which is unsigned on
      this target. */
  predicate CharRead(f: Flags) {
    f.charSize && !f.longSize && !f.longLongSize
  }

  /** The range of the type a signed conversion reads: [0, 256) for the
      unsigned plain `char`, else the two's complement range of its bits. */
  predicate InSignedRange(f: Flags, v: int) {
    if CharRead(f) then 0 <= v < Pow(2, 8)
    else TypeBits(f) > 0 && 0 <= v + Pow(2, TypeBits(f) - 1) && v < Pow(2, TypeBits(f) - 1)
  }

  /** The integer arm's `va_arg`: the signed conversions read long long,
      long, or an `int` cut to `char` (unsigned on this target) or `short`;
      the unsigned ones the matching unsigned types. */
  function ReadInteger(f: Flags, c: char, args: seq<Arg>): (r: Result<Taken<Reading>>)
    requires IsIntegerConversion(c)
    ensures r.Ok? <==> |args| > 0 && IsInteger(args[0])
    ensures r.Ok? ==> r.value.got.value < Limit(r.value.got.w) && r.value.rest == args[1..]
    ensures r.Ok? ==> (r.value.got.w == Wide <==> f.longLongSize)
    ensures r.Ok? && !IsSignedConversion(c) ==> !r.value.got.negative
    ensures r.Ok? ==> (r.value.got.negative ==> r.value.got.value > 0)
    ensures r.Ok? && IsSignedConversion(c) ==>
      var v := SignedOf(r.value.got);
      InSignedRange(f, v) && Truncate(v, TypeBits(f)) == Truncate(IntegerValue(args[0]), TypeBits(f))
    ensures r.Ok? && !IsSignedConversion(c) ==>
      var u := r.value.got.value;
      u < Pow(2, TypeBits(f)) && Truncate(u, TypeBits(f)) == Truncate(IntegerValue(args[0]), TypeBits(f))
  {
    if |args| == 0 then Err(MissingArgument)
    else if !IsInteger(args[0]) then Err(WrongArgument)
    else if IsSignedConversion(c) then
      Ok(Taken(SignedReading(f, IntegerValue(args[0])), args[1..]))
    else
      Ok(Taken(Reading(UnsignedValue(f, IntegerValue(args[0])), false, WidthOf(f)), args[1..]))
  }

  /** `unsigned long long` under `ll` (and `j`), otherwise `unsigned long`. */
  function WidthOf(f: Flags): Width {
    if f.longLongSize then Wide else Narrow
  }

  /** The signed arm's value, its magnitude and its sign. The magnitude is
      the mathematical one, which is also what the C gives for the most
      negative value once converted to the unsigned magnitude type. */
  function SignedReading(f: Flags, x: int): (m: Reading)
    ensures m.value < Limit(m.w) && m.w == WidthOf(f)
    ensures SignedOf(m) == SignedValue(f, x)
    ensures m.negative ==> m.value > 0
  {
    var v := SignedValue(f, x);
    Reading(Abs(v), v < 0, WidthOf(f))
  }

  /** `va_arg` at long long, long, or `int` then cut to `char` (unsigned on this
      target) or `short`. */
  function SignedValue(f: Flags, x: int): (v: int)
    ensures 0 <= v + Limit(WidthOf(f)) / 2 && v < Limit(WidthOf(f)) / 2
    ensures InSignedRange(f, v)
    ensures Truncate(v, TypeBits(f)) == Truncate(x, TypeBits(f))
  {
    TwoPowers();
    if f.longLongSize then ToSigned(x, 8 * LongLongBytes)
    else if f.longSize then ToSigned(x, 8 * LongBytes)
    else if f.charSize then Truncate(x, 8)
    else if f.shortSize then ToSigned(x, 16)
    else ToSigned(x, 32)
  }

  /** `va_arg` at the unsigned types. */
  function UnsignedValue(f: Flags, x: int): (u: nat)
    ensures u < Limit(WidthOf(f))
    ensures u < Pow(2, TypeBits(f)) && Truncate(u, TypeBits(f)) == Truncate(x, TypeBits(f))
  {
    TwoPowers();
    if f.longLongSize then Truncate(x, 8 * LongLongBytes)
    else if f.longSize then Truncate(x, 8 * LongBytes)
    else if f.charSize then Truncate(x, 8)
    else if f.shortSize then Truncate(x, 16)
    else Truncate(x, 32)
  }

  /** `%p`: a fixed width of two hex digits per pointer byte, zero padding
      and upper case forced on, the address read as `unsigned long`. The
      directive's other flags and precision stay in force. */
  function PointerField(s: Setting, address: nat): (e: Emission)
    ensures e.counted <= |e.text|
    ensures !s.flags.left ==> e.counted == |e.text|
  {
    NumberField(s.flags.(zeroPad := true, upper := true), Hex, 2 * PointerBytes, s.precision,
                Truncate(address, 8 * LongBytes), false, Narrow)
  }

  /** The arguments a conversion takes: one value for an integer, `c`, `s`
      or `p`, none for `%` or a character the switch does not know. */
  function ValueArgs(c: char): nat {
    if IsIntegerConversion(c) || c == 'c' || c == 's' || c == 'p' then 1 else 0
  }

  /** The switch on the conversion character, with the directive's
      settings: the characters it writes and the arguments left. */
  function Convert(s: Setting, c: char, args: seq<Arg>): (r: Result<Taken<Emission>>)
    ensures r.Ok? ==> |r.value.rest| <= |args| && r.value.got.counted <= |r.value.got.text|
    ensures r.Ok? ==> ValueArgs(c) <= |args| && r.value.rest == args[ValueArgs(c)..]
    ensures ValueArgs(c) == 1 && |args| == 0 ==> r == Err(MissingArgument)
    ensures c == '%' ==> r == Ok(Taken(Emission("%", 1), args))
    ensures !IsIntegerConversion(c) && c !in {'c', 's', 'p', '%'} ==> r == Ok(Taken(Emission([c], 1), args))
  {
    if IsIntegerConversion(c) then
      var g := ConversionFlags(s.flags, c);
      match ReadInteger(g, c, args)
      case Err(e) => Err(e)
      case Ok(Taken(m, rest)) =>
        Ok(Taken(NumberField(g, ConversionBase(c), s.width, s.precision, m.value, m.negative, m.w), rest))
    else if c == 'c' then
      match ReadSigned(args, 32)
      case Err(e) => Err(e)
      case Ok(Taken(v, rest)) => Ok(Taken(CharField(CharOf(v), s.width, s.flags.left), rest))
    else if c == 's' then
      if |args| == 0 then Err(MissingArgument)
      else if !args[0].Str? then Err(WrongArgument)
      else Ok(Taken(PrintString(args[0].chars, s.width, s.precision, s.flags.hasPrecision, s.flags.left), args[1..]))
    else if c == 'p' then
      if |args| == 0 then Err(MissingArgument)
      else if !args[0].Ptr? then Err(WrongArgument)
      else Ok(Taken(PointerField(s, args[0].address), args[1..]))
    else Ok(Taken(Emission([c], 1), args))
  }

  // ---------------------------------------------------------------------
  // The loop

  /** One directive: its settings, then its conversion. */
  function Evaluate(spec: Spec, c: char, args: seq<Arg>): (r: Result<Taken<Emission>>)
    ensures r.Ok? ==> r.value.got.counted <= |r.value.got.text|
    ensures r.Ok? ==> (&& Stars(spec) + ValueArgs(c) <= |args|
                       && r.value.rest == args[Stars(spec) + ValueArgs(c)..])
  {
    match Configure(spec, args)
    case Err(e) => Err(e)
    case Ok(Taken(s, rest)) => Convert(s, c, rest)
  }

  function Then(e: Emission, r: Result<Emission>): (q: Result<Emission>)
    ensures r.Err? <==> q.Err?
    ensures r.Ok? ==> (q.value.text == e.text + r.value.text
                       && q.value.counted == e.counted + r.value.counted)
  {
    match r
    case Err(f) => Err(f)
    case Ok(t) => Ok(Emission(e.text + t.text, e.counted + t.counted))
  }

  /** One turn of the loop on a format that has not reached its
      terminator: a character that is not `%` is copied, and a directive is
      evaluated; a directive with no conversion character before the
      terminator is a fault. Returns what was written, the format after it
      and the arguments left. */
  function Step(format: seq<char>, args: seq<Arg>): (r: Result<Turn>)
    requires At(format, 0) != '\0'
    ensures r.Ok? ==> (&& |r.value.format| < |format|
                       && r.value.emitted.counted <= |r.value.emitted.text|)
  {
    if format[0] != '%' then Ok(Turn(Emission([format[0]], 1), format[1..], args))
    else
      var p := ParseSpec(format[1..]);
      if At(p.rest, 0) == '\0' then Err(PastTerminator)
      else
        match Evaluate(p.spec, p.rest[0], args)
        case Err(e) => Err(e)
        case Ok(Taken(e, rest)) => Ok(Turn(e, p.rest[1..], rest))
  }

  /** One turn of the loop: what it wrote, the format after it and the
      arguments left. */
  datatype Turn = Turn(emitted: Emission, format: seq<char>, args: seq<Arg>)

  /** The loop from `format` on, up to the terminator. */
  function FormatFrom(format: seq<char>, args: seq<Arg>): (r: Result<Emission>)
    ensures r.Ok? ==> r.value.counted <= |r.value.text|
    decreases |format|
  {
    if At(format, 0) == '\0' then Ok(Emission([], 0))
    else
      match Step(format, args)
      case Err(e) => Err(e)
      case Ok(Turn(e, rest, args')) => Then(e, FormatFrom(rest, args'))
  }

  /** What format_out hands to the sink, and what it returns. */
  datatype Output = Output(text: seq<char>, count: Byte)

  function FormatOut(format: seq<char>, args: seq<Arg>): (r: Result<Output>)
    ensures FormatFrom(format, args).Ok? <==> r.Ok?
    ensures r.Ok? ==> (r.value.text == FormatFrom(format, args).value.text
                       && r.value.count == FormatFrom(format, args).value.counted % 256)
  {
    match FormatFrom(format, args)
    case Err(e) => Err(e)
    case Ok(e) => Ok(Output(e.text, e.counted % 256))
  }

  // ---------------------------------------------------------------------
  // Properties of the loop

  lemma ThenThen(a: Emission, b: Emission, r: Result<Emission>)
    ensures Then(a, Then(b, r)) == Then(Emission(a.text + b.text, a.counted + b.counted), r)
  {
    if r.Ok? {
      assert a.text + (b.text + r.value.text) == (a.text + b.text) + r.value.text;
    }
  }

  /** A character that the loop copies: neither `%` nor the terminator. */
  predicate Literal(c: char) {
    c != '%' && c != '\0'
  }

  /** A run of literal characters is copied verbatim and counted, one by
      one, whatever follows it. */
  lemma {:induction false} LiteralRun(lit: seq<char>, rest: seq<char>, args: seq<Arg>)
    requires forall i :: 0 <= i < |lit| ==> Literal(lit[i])
    ensures FormatFrom(lit + rest, args) == Then(Emission(lit, |lit|), FormatFrom(rest, args))
    decreases |lit|
  {
    if |lit| == 0 {
      assert lit + rest == rest;
      NothingThen(FormatFrom(rest, args));
    } else {
      var tail := lit[1..] + rest;
      assert lit + rest == [lit[0]] + tail;
      LiteralStep(lit[0], tail, args);
      LiteralRun(lit[1..], rest, args);
      ThenThen(Emission([lit[0]], 1), Emission(lit[1..], |lit| - 1), FormatFrom(rest, args));
      assert [lit[0]] + lit[1..] == lit;
    }
  }

  /** An empty emission in front changes nothing. */
  lemma NothingThen(r: Result<Emission>)
    ensures Then(Emission([], 0), r) == r
  {
    if r.Ok? {
      assert [] + r.value.text == r.value.text;
    }
  }

  /** One literal character is copied and counted. */
  lemma LiteralStep(c: char, s: seq<char>, args: seq<Arg>)
    requires Literal(c)
    ensures FormatFrom([c] + s, args) == Then(Emission([c], 1), FormatFrom(s, args))
  {
    var f := [c] + s;
    assert At(f, 0) == c && f[0] == c;
    assert f[1..] == s;
  }

  /** A format without directives comes out as it is, and format_out
      returns its length modulo 256. */
  lemma LiteralsOnly(format: seq<char>, args: seq<Arg>)
    requires forall i :: 0 <= i < |format| ==> Literal(format[i])
    ensures FormatOut(format, args) == Ok(Output(format, |format| % 256))
  {
    LiteralRun(format, [], args);
    assert format + [] == format;
  }

  /** A directive that reads no argument, written back by Render. */
  predicate Starless(spec: Spec) {
    Writable(spec) && !spec.width.WidthStar? && !spec.precision.PrecStar?
  }

  /** The width a directive without `*` sets: its literal cut to 8 bits. */
  function LiteralWidth(spec: Spec): Byte {
    if spec.width.WidthLit? then spec.width.n % 256 else 0
  }

  /** The precision a directive without `*` sets. */
  function LiteralPrecision(spec: Spec): Byte {
    if spec.precision.PrecLit? then spec.precision.n % 256 else 0
  }

  /** A directive without `*` reads no argument before its conversion; it
      sets the literal width and precision, and keeps its justification. A
      precision is in force exactly when the directive has a `.`. */
  lemma StarlessConfigure(spec: Spec, args: seq<Arg>)
    requires Starless(spec)
    ensures var r := Configure(spec, args);
      && r.Ok? && r.value.rest == args
      && r.value.got.width == LiteralWidth(spec) && r.value.got.precision == LiteralPrecision(spec)
      && r.value.got.flags.left == spec.flags.left
      && (r.value.got.flags.hasPrecision <==> !spec.precision.NoPrec?)
  {
    var Taken(Part(f1, width), rest1) := TakeWidth(spec.width, spec.flags, args).value;
    var Taken(Part(f2, precision), rest2) := TakePrecision(spec.precision, f1, rest1).value;
    LengthFlagsKeeps(f2, spec.length);
  }

  /** The length modifier touches only the size bits. */
  lemma LengthFlagsKeeps(f: Flags, l: Length)
    ensures LengthFlags(f, l).left == f.left && LengthFlags(f, l).hasPrecision == f.hasPrecision
  {
    match l
    case LenJ => SizedLongKeeps(f, IntmaxBytes);
    case LenZ => SizedLongKeeps(f, SizeBytes);
    case LenT => SizedLongKeeps(f, PtrdiffBytes);
    case _ =>
  }

  lemma SizedLongKeeps(f: Flags, bytes: nat)
    ensures SizedLong(f, bytes).left == f.left && SizedLong(f, bytes).hasPrecision == f.hasPrecision
  {
    var g := SizedLong(f, bytes);
    if bytes == LongBytes {
      assert g == f.(longSize := true);
    } else {
      assert g == f.(longLongSize := true);
    }
  }

  /** A written directive and its conversion character are one turn of
      the loop: the directive is evaluated on the arguments, and the loop
      goes on right after the conversion character. */
  lemma DirectiveStep(spec: Spec, c: char, rest: seq<char>, args: seq<Arg>)
    requires Writable(spec)
    requires EndsDirective(c) && c != '\0'
    ensures var r := Evaluate(spec, c, args);
      Step(['%'] + Render(spec) + ([c] + rest), args)
        == if r.Ok? then Ok(Turn(r.value.got, rest, r.value.rest)) else Err(r.fault)
  {
    var s := ['%'] + Render(spec) + ([c] + rest);
    assert s[0] == '%';
    assert s[1..] == Render(spec) + ([c] + rest);
    assert At([c] + rest, 0) == c;
    ParseRender(spec, [c] + rest);
    assert ([c] + rest)[1..] == rest;
  }

  /** `%%`, and `%` followed by a character that is no conversion, write
      that one character, whatever flags, width, precision and length stand
      between; the `%` itself is dropped. A `*` width or precision still
      takes its argument first (and faults as it would before any
      conversion); without `*` no argument is read. */
  lemma PassThrough(spec: Spec, c: char, rest: seq<char>, args: seq<Arg>)
    requires Writable(spec)
    requires EndsDirective(c) && c != '\0'
    requires c == '%' || (!IsIntegerConversion(c) && c != 'c' && c != 's' && c != 'p')
    ensures var r := Configure(spec, args);
      FormatFrom(['%'] + Render(spec) + ([c] + rest), args)
        == if r.Ok? then Then(Emission([c], 1), FormatFrom(rest, args[Stars(spec)..])) else Err(r.fault)
    ensures Starless(spec) ==>
      FormatFrom(['%'] + Render(spec) + ([c] + rest), args) == Then(Emission([c], 1), FormatFrom(rest, args))
  {
    var s := ['%'] + Render(spec) + ([c] + rest);
    DirectiveStep(spec, c, rest, args);
    PassThroughEvaluate(spec, c, args);
    assert At(s, 0) == '%';
    if Starless(spec) {
      StarlessConfigure(spec, args);
      assert args[Stars(spec)..] == args;
    }
  }

  /** The evaluation behind PassThrough: the `*` arguments, then the one
      character. */
  lemma PassThroughEvaluate(spec: Spec, c: char, args: seq<Arg>)
    requires c == '%' || (!IsIntegerConversion(c) && c != 'c' && c != 's' && c != 'p')
    ensures var r := Configure(spec, args);
      Evaluate(spec, c, args)
        == if r.Ok? then Ok(Taken(Emission([c], 1), args[Stars(spec)..])) else Err(r.fault)
  {
    var r := Configure(spec, args);
    if r.Ok? {
      assert Convert(r.value.got, c, r.value.rest) == Ok(Taken(Emission([c], 1), r.value.rest));
    }
  }

  /** `%*y` takes the width argument and writes only the `y`. */
  lemma StarredPassThrough()
    ensures FormatFrom("%*y", [Int(3), Int(7)]) == Ok(Emission("y", 1))
  {
    var spec := Spec(NoFlags, WidthStar, NoPrec, LenNone);
    assert FlagText(NoFlags) == "";
    assert Render(spec) == "*";
    assert "%*y" == ['%'] + Render(spec) + (['y'] + "");
    var r := Configure(spec, [Int(3), Int(7)]);
    assert r.Ok? && r.value.rest == [Int(7)];
    assert Stars(spec) == 1 && [Int(3), Int(7)][1..] == [Int(7)];
    var tail := FormatFrom("", [Int(7)]);
    assert tail == Ok(Emission([], 0));
    var e := Emission("y", 1);
    assert e.text + tail.value.text == "y";
    PassThrough(spec, 'y', "", [Int(3), Int(7)]);
  }

  // ---------------------------------------------------------------------
  // Dynamic width and precision

  /** The directive a `*` width argument `v` stands for: its magnitude as
      the literal width (no width for 0), left-justified when `v` is
      negative. */
  function StarredWidth(spec: Spec, v: int): Spec {
    spec.(flags := spec.flags.(left := spec.flags.left || v < 0),
          width := if v == 0 then NoWidth else WidthLit(Abs(v)))
  }

  /** The directive a `.*` argument `v` stands for: `.v`, or `.0` when `v`
      is not positive. */
  function StarredPrecision(spec: Spec, v: int): Spec {
    spec.(precision := PrecLit(if v > 0 then v else 0))
  }

  /** `*` takes the width from the next `int` argument. */
  lemma ConfigureStarWidth(spec: Spec, v: int, args: seq<Arg>)
    requires spec.width.WidthStar? && IsInt(v)
    ensures Configure(spec, [Int(v)] + args) == Configure(StarredWidth(spec, v), args)
  {
    var s' := StarredWidth(spec, v);
    StarWidthTake(spec.flags, v, args);
    assert TakeWidth(s'.width, s'.flags, args)
        == Ok(Taken(Part(spec.flags.(left := spec.flags.left || v < 0), if v == 0 then 0 else Abs(v) % 256), args));
  }

  /** The `*` arm of the width field on an `int` argument. */
  lemma StarWidthTake(f: Flags, v: int, args: seq<Arg>)
    requires IsInt(v)
    ensures TakeWidth(WidthStar, f, [Int(v)] + args)
         == Ok(Taken(Part(f.(left := f.left || v < 0), if v == 0 then 0 else Abs(v) % 256), args))
  {
    TwoPowers();
    ToSignedKeeps(v, 32);
    assert ([Int(v)] + args)[1..] == args;
    assert ReadSigned([Int(v)] + args, 32) == Ok(Taken(v, args));
    if v >= 0 {
      assert f.(left := f.left || v < 0) == f;
    }
  }

  /** `.*` takes the precision from the next `int` argument. */
  lemma ConfigureStarPrecision(spec: Spec, v: int, args: seq<Arg>)
    requires spec.precision.PrecStar? && !spec.width.WidthStar? && IsInt(v)
    ensures Configure(spec, [Int(v)] + args) == Configure(StarredPrecision(spec, v), args)
  {
    TwoPowers();
    ToSignedKeeps(v, 32);
    assert ([Int(v)] + args)[1..] == args;
    assert ReadSigned([Int(v)] + args, 32) == Ok(Taken(v, args));
  }

  /** With both `*` and `.*`, the width argument comes first. */
  lemma ConfigureStars(spec: Spec, w: int, p: int, args: seq<Arg>)
    requires spec.width.WidthStar? && spec.precision.PrecStar? && IsInt(w) && IsInt(p)
    ensures Configure(spec, [Int(w), Int(p)] + args)
         == Configure(StarredPrecision(StarredWidth(spec, w), p), args)
  {
    assert [Int(w), Int(p)] + args == [Int(w)] + ([Int(p)] + args);
    ConfigureStarWidth(spec, w, [Int(p)] + args);
    ConfigureStarPrecision(StarredWidth(spec, w), p, args);
  }

  /** Two directives that configure alike are evaluated alike by the loop. */
  lemma SameSettings(spec: Spec, spec': Spec, c: char, rest: seq<char>,
                     args: seq<Arg>, args': seq<Arg>)
    requires Writable(spec) && Writable(spec')
    requires EndsDirective(c) && c != '\0'
    requires Configure(spec, args) == Configure(spec', args')
    ensures FormatFrom(['%'] + Render(spec) + ([c] + rest), args)
         == FormatFrom(['%'] + Render(spec') + ([c] + rest), args')
  {
    SameEvaluation(spec, spec', c, args, args');
    DirectiveStep(spec, c, rest, args);
    DirectiveStep(spec', c, rest, args');
    SameStep(['%'] + Render(spec) + ([c] + rest), args, ['%'] + Render(spec') + ([c] + rest), args');
  }

  lemma SameEvaluation(spec: Spec, spec': Spec, c: char, args: seq<Arg>, args': seq<Arg>)
    requires Configure(spec, args) == Configure(spec', args')
    ensures Evaluate(spec, c, args) == Evaluate(spec', c, args')
  {
  }

  /** The loop goes on from what its first turn leaves. */
  lemma SameStep(f1: seq<char>, a1: seq<Arg>, f2: seq<char>, a2: seq<Arg>)
    requires At(f1, 0) != '\0' && At(f2, 0) != '\0'
    requires Step(f1, a1) == Step(f2, a2)
    ensures FormatFrom(f1, a1) == FormatFrom(f2, a2)
  {
  }

  /** `%*d` with the argument `v` is `%vd` (`%-vd` for a negative `v`)
      without it. */
  lemma DynamicWidth(spec: Spec, c: char, rest: seq<char>, v: int, args: seq<Arg>)
    requires Writable(spec) && spec.width.WidthStar? && IsInt(v)
    requires EndsDirective(c) && c != '\0'
    ensures Writable(StarredWidth(spec, v))
    ensures FormatFrom(['%'] + Render(spec) + ([c] + rest), [Int(v)] + args)
         == FormatFrom(['%'] + Render(StarredWidth(spec, v)) + ([c] + rest), args)
  {
    ConfigureStarWidth(spec, v, args);
    SameSettings(spec, StarredWidth(spec, v), c, rest, [Int(v)] + args, args);
  }

  /** `%.*d` with the argument `v` is `%.vd` (`%.0d` for `v <= 0`) without
      it. */
  lemma DynamicPrecision(spec: Spec, c: char, rest: seq<char>, v: int, args: seq<Arg>)
    requires Writable(spec) && spec.precision.PrecStar? && !spec.width.WidthStar? && IsInt(v)
    requires EndsDirective(c) && c != '\0'
    ensures Writable(StarredPrecision(spec, v))
    ensures FormatFrom(['%'] + Render(spec) + ([c] + rest), [Int(v)] + args)
         == FormatFrom(['%'] + Render(StarredPrecision(spec, v)) + ([c] + rest), args)
  {
    ConfigureStarPrecision(spec, v, args);
    SameSettings(spec, StarredPrecision(spec, v), c, rest, [Int(v)] + args, args);
  }

  /** `%*.*d` takes the width argument, then the precision argument. */
  lemma DynamicBoth(spec: Spec, c: char, rest: seq<char>, w: int, p: int, args: seq<Arg>)
    requires Writable(spec) && spec.width.WidthStar? && spec.precision.PrecStar?
    requires IsInt(w) && IsInt(p)
    requires EndsDirective(c) && c != '\0'
    ensures Writable(StarredPrecision(StarredWidth(spec, w), p))
    ensures FormatFrom(['%'] + Render(spec) + ([c] + rest), [Int(w), Int(p)] + args)
         == FormatFrom(['%'] + Render(StarredPrecision(StarredWidth(spec, w), p)) + ([c] + rest), args)
  {
    ConfigureStars(spec, w, p, args);
    SameSettings(spec, StarredPrecision(StarredWidth(spec, w), p), c, rest, [Int(w), Int(p)] + args, args);
  }

  // ---------------------------------------------------------------------
  // Conversions

  /** `+` and space have no effect on the unsigned conversions. */
  lemma UnsignedIgnoresSign(s: Setting, c: char, args: seq<Arg>, plus: bool, space: bool)
    requires IsIntegerConversion(c) && !IsSignedConversion(c)
    ensures Convert(s.(flags := s.flags.(plus := plus, space := space)), c, args) == Convert(s, c, args)
  {
    var f := s.flags.(plus := plus, space := space);
    ConversionFlagsSpec(f, c);
    ConversionFlagsSpec(s.flags, c);
    assert ConversionFlags(f, c) == ConversionFlags(s.flags, c);
  }

  /** `#` has no effect on the decimal conversions. */
  lemma DecimalIgnoresHash(s: Setting, c: char, args: seq<Arg>, hash: bool)
    requires c == 'd' || c == 'i' || c == 'u'
    ensures Convert(s.(flags := s.flags.(hash := hash)), c, args) == Convert(s, c, args)
  {
    assert ConversionBase(c) == Decimal;
    var f := s.flags.(hash := hash);
    ConversionFlagsSpec(f, c);
    ConversionFlagsSpec(s.flags, c);
    assert ConversionFlags(f, c) == ConversionFlags(s.flags, c);
  }

  /** Under an explicit precision the `0` flag has no effect on an integer
      conversion. */
  lemma PrecisionIgnoresZeroPad(s: Setting, c: char, args: seq<Arg>, zeroPad: bool)
    requires IsIntegerConversion(c) && s.flags.hasPrecision
    ensures Convert(s.(flags := s.flags.(zeroPad := zeroPad)), c, args) == Convert(s, c, args)
  {
    var f := s.flags.(zeroPad := zeroPad);
    ConversionFlagsSpec(f, c);
    ConversionFlagsSpec(s.flags, c);
    assert ConversionFlags(f, c) == ConversionFlags(s.flags, c);
  }

  /** Without a length modifier an integer conversion reads an `int` or an
      `unsigned int`: the signed ones split it into magnitude and sign, the
      unsigned ones take it as it is. */
  lemma IntReading(f: Flags, c: char, v: int, args: seq<Arg>)
    requires IsIntegerConversion(c)
    requires !f.charSize && !f.shortSize && !f.longSize && !f.longLongSize
    requires if IsSignedConversion(c) then IsInt(v) else 0 <= v < 0x1_0000_0000
    ensures ReadInteger(f, c, [Int(v)] + args)
         == Ok(Taken(if IsSignedConversion(c) then Reading(Abs(v), v < 0, Narrow) else Reading(v, false, Narrow), args))
  {
    TwoPowers();
    assert ([Int(v)] + args)[1..] == args;
    if IsSignedConversion(c) {
      ToSignedKeeps(v, 32);
    } else {
      DivModUnique(v, Pow(2, 32), 0, v);
    }
  }

  /** Under every length modifier, an integer argument already in the range
      of the type read is read as it is: its magnitude and sign for `d`
      and `i`, itself for the unsigned conversions. */
  lemma ReadInRange(f: Flags, c: char, v: int, args: seq<Arg>)
    requires IsIntegerConversion(c)
    requires if IsSignedConversion(c) then InSignedRange(f, v) else 0 <= v < Pow(2, TypeBits(f))
    ensures ReadInteger(f, c, [Int(v)] + args) == Ok(Taken(Reading(Abs(v), v < 0, WidthOf(f)), args))
  {
    TwoPowers();
    assert ([Int(v)] + args)[1..] == args;
    if IsSignedConversion(c) {
      if CharRead(f) {
        DivModUnique(v, Pow(2, 8), 0, v);
      } else {
        ToSignedKeeps(v, TypeBits(f));
      }
    } else {
      DivModUnique(v, Pow(2, TypeBits(f)), 0, v);
    }
  }

  /** `%hd` of 40000 reads -25536: the `int` is cut to 16 bits and read
      back as a `short`. */
  lemma ShortLengthWraps()
    ensures ReadInteger(NoFlags.(shortSize := true), 'd', [Int(40000)])
         == Ok(Taken(Reading(25536, true, Narrow), []))
  {
    TwoPowers();
    DivModUnique(40000, Pow(2, 16), 0, 40000);
  }

  /** `%llu` of -1 reads 2^64 - 1 as an `unsigned long long`. */
  lemma LongLongLengthUnsigned()
    ensures ReadInteger(NoFlags.(longSize := true, longLongSize := true), 'u', [Int(-1)])
         == Ok(Taken(Reading(0xFFFF_FFFF_FFFF_FFFF, false, Wide), []))
  {
    TwoPowers();
    DivModUnique(-1, Pow(2, 64), -1, 0xFFFF_FFFF_FFFF_FFFF);
  }

  /** `%hhd` of -1 reads 255: `char` is unsigned on this target. */
  lemma CharLengthUnsigned()
    ensures ReadInteger(NoFlags.(shortSize := true, charSize := true), 'd', [Int(-1)])
         == Ok(Taken(Reading(255, false, Narrow), []))
  {
    TwoPowers();
    DivModUnique(-1, Pow(2, 8), -1, 255);
  }

  /** A directive without a length modifier on an `int` argument: the
      conversion's flags, base, the literal width and precision, and the
      value as IntReading splits it. */
  lemma IntDirective(spec: Spec, c: char, v: int, args: seq<Arg>)
    requires Starless(spec) && spec.length == LenNone && IsIntegerConversion(c)
    requires if IsSignedConversion(c) then IsInt(v) else 0 <= v < 0x1_0000_0000
    ensures var f := ConversionFlags(spec.flags.(hasPrecision := !spec.precision.NoPrec?), c);
      var m := if IsSignedConversion(c) then Reading(Abs(v), v < 0, Narrow) else Reading(v, false, Narrow);
      Evaluate(spec, c, [Int(v)] + args)
        == Ok(Taken(NumberField(f, ConversionBase(c), LiteralWidth(spec), LiteralPrecision(spec),
                           m.value, m.negative, Narrow), args))
  {
    var a := [Int(v)] + args;
    var f := spec.flags.(hasPrecision := !spec.precision.NoPrec?);
    StarlessConfigure(spec, a);
    assert Configure(spec, a) == Ok(Taken(Setting(f, LiteralWidth(spec), LiteralPrecision(spec)), a));
    ConversionFlagsSpec(f, c);
    IntReading(ConversionFlags(f, c), c, v, args);
  }

  /** Every conversion that takes a value reports a missing argument. */
  lemma MissingValue(spec: Spec, c: char)
    requires Starless(spec)
    requires IsIntegerConversion(c) || c == 'c' || c == 's' || c == 'p'
    ensures Evaluate(spec, c, []) == Err(MissingArgument)
  {
    StarlessConfigure(spec, []);
  }

  /** `%c` writes the character argument in a field of the width, at its
      left end when left-justified and at its right end otherwise; the other
      positions are spaces, and all are counted. */
  lemma CharDirective(spec: Spec, ch: char, args: seq<Arg>)
    requires Starless(spec) && ch as int < 256
    ensures var r := Evaluate(spec, 'c', [Char(ch)] + args);
      && r.Ok? && r.value.rest == args
      && var e := r.value.got;
      var at := if spec.flags.left then 0 else |e.text| - 1;
      && e.counted == |e.text| == Max(LiteralWidth(spec), 1)
      && e.text[at] == ch
      && forall i :: 0 <= i < |e.text| && i != at ==> e.text[i] == ' '
  {
    StarlessConfigure(spec, [Char(ch)] + args);
    TwoPowers();
    ToSignedKeeps(ch as int, 32);
    assert ([Char(ch)] + args)[1..] == args;
    assert CharOf(ch as int) == ch;
  }

  /** `%s` writes the string argument up to its terminator, or no more than
      the precision when there is one, in a field of the width: the
      characters first when left-justified and last otherwise, the rest
      spaces, all counted. */
  lemma StringDirective(spec: Spec, x: seq<char>, args: seq<Arg>)
    requires Starless(spec) && CLen(x) <= SizeMax
    ensures var r := Evaluate(spec, 's', [Str(x)] + args);
      var n := Shown(x, LiteralPrecision(spec), !spec.precision.NoPrec?);
      && r.Ok? && r.value.rest == args
      && var e := r.value.got;
      && e.counted == |e.text| == Max(LiteralWidth(spec), n)
      && (spec.flags.left ==> e.text[..n] == x[..n]
                              && forall i :: n <= i < |e.text| ==> e.text[i] == ' ')
      && (!spec.flags.left ==> e.text[|e.text| - n..] == x[..n]
                               && forall i :: 0 <= i < |e.text| - n ==> e.text[i] == ' ')
  {
    var a := [Str(x)] + args;
    StarlessConfigure(spec, a);
    assert a[0] == Str(x) && a[1..] == args;
    var st := Configure(spec, a).value.got;
    var hasPrecision := !spec.precision.NoPrec?;
    assert st.width == LiteralWidth(spec) && st.precision == LiteralPrecision(spec);
    assert st.flags.left == spec.flags.left && st.flags.hasPrecision == hasPrecision;
    var e := PrintString(x, LiteralWidth(spec), LiteralPrecision(spec), hasPrecision, spec.flags.left);
    assert Evaluate(spec, 's', a) == Ok(Taken(e, args));
    StringField(x, LiteralWidth(spec), LiteralPrecision(spec), hasPrecision, spec.flags.left);
  }

  // ---------------------------------------------------------------------
  // Whole calls

  /** The loop is its first turn followed by the rest of the loop. */
  lemma OneStep(format: seq<char>, args: seq<Arg>)
    requires At(format, 0) != '\0' && Step(format, args).Ok?
    ensures var Turn(e, rest, args') := Step(format, args).value;
      FormatFrom(format, args) == Then(e, FormatFrom(rest, args'))
  {
  }

  /** A format that is one directive returns what the directive writes. */
  lemma SingleDirective(spec: Spec, c: char, args: seq<Arg>, e: Emission, args': seq<Arg>)
    requires Writable(spec) && EndsDirective(c) && c != '\0'
    requires Evaluate(spec, c, args) == Ok(Taken(e, args'))
    ensures FormatOut(['%'] + Render(spec) + [c], args) == Ok(Output(e.text, e.counted % 256))
  {
    SingleTurn(spec, c, args, e, args');
  }

  /** The loop over a one-directive format is that directive's one turn. */
  lemma SingleTurn(spec: Spec, c: char, args: seq<Arg>, e: Emission, args': seq<Arg>)
    requires Writable(spec) && EndsDirective(c) && c != '\0'
    requires Evaluate(spec, c, args) == Ok(Taken(e, args'))
    ensures FormatFrom(['%'] + Render(spec) + [c], args) == Ok(e)
  {
    var format := ['%'] + Render(spec) + [c];
    assert format == ['%'] + Render(spec) + ([c] + []);
    DirectiveStep(spec, c, [], args);
    OneStep(format, args);
    assert FormatFrom([], args') == Ok(Emission([], 0));
    assert e.text + [] == e.text;
  }

  /** SingleDirective for a given format text and a count below 256. */
  lemma SingleCall(format: seq<char>, spec: Spec, c: char, args: seq<Arg>, e: Emission)
    requires Writable(spec) && EndsDirective(c) && c != '\0'
    requires format == ['%'] + Render(spec) + [c]
    requires Evaluate(spec, c, args) == Ok(Taken(e, [])) && e.counted < 256
    ensures FormatOut(format, args) == Ok(Output(e.text, e.counted))
  {
    DivModUnique(e.counted, 256, 0, e.counted);
    SingleDirective(spec, c, args, e, []);
  }

  /** `%05d` of -42: the sign, then the zeros of the pad, then the digits. */
  lemma ZeroPaddedNegativeCall()
    ensures FormatOut("%05d", [Int(-42)]) == Ok(Output("-0042", 5))
  {
    var spec := Spec(NoFlags.(zeroPad := true), WidthLit(5), NoPrec, LenNone);
    ZeroPadFiveText(spec);
    ZeroPaddedNegativeEvaluates(spec);
    SingleCall("%05d", spec, 'd', [Int(-42)], Emission("-0042", 5));
  }

  lemma ZeroPaddedNegativeEvaluates(spec: Spec)
    requires spec == Spec(NoFlags.(zeroPad := true), WidthLit(5), NoPrec, LenNone)
    ensures Evaluate(spec, 'd', [Int(-42)]) == Ok(Taken(Emission("-0042", 5), []))
  {
    var g := NoFlags.(zeroPad := true);
    var f := ConversionFlags(spec.flags.(hasPrecision := false), 'd');
    assert f == g;
    assert LiteralWidth(spec) == 5 && LiteralPrecision(spec) == 0;
    ZeroPaddedNegative();
    var e := NumberField(f, ConversionBase('d'), LiteralWidth(spec), LiteralPrecision(spec), Abs(-42), -42 < 0, Narrow);
    assert e == NumberField(g, Decimal, 5, 0, 42, true, Narrow);
    assert e == Emission("-0042", 5);
    assert [Int(-42)] + [] == [Int(-42)];
    IntDirective(spec, 'd', -42, []);
  }

  lemma ZeroPadFiveText(spec: Spec)
    requires spec == Spec(NoFlags.(zeroPad := true), WidthLit(5), NoPrec, LenNone)
    ensures Writable(spec) && ['%'] + Render(spec) + ['d'] == "%05d"
  {
    assert GetDigits(5, Decimal, Narrow) == 1;
    assert Numeral(5) == "5";
    assert FlagText(spec.flags) == "0";
  }

  /** `%-4d` of 5 writes "5   " and returns 1. */
  lemma LeftPadUncountedCall()
    ensures FormatOut("%-4d", [Int(5)]) == Ok(Output("5   ", 1))
  {
    var spec := Spec(NoFlags.(left := true), WidthLit(4), NoPrec, LenNone);
    LeftFourText(spec);
    LeftFourEvaluates(spec);
    SingleCall("%-4d", spec, 'd', [Int(5)], Emission("5   ", 1));
  }

  lemma LeftFourText(spec: Spec)
    requires spec == Spec(NoFlags.(left := true), WidthLit(4), NoPrec, LenNone)
    ensures Writable(spec) && ['%'] + Render(spec) + ['d'] == "%-4d"
  {
    assert GetDigits(4, Decimal, Narrow) == 1;
    assert Numeral(4) == "4";
    assert FlagText(spec.flags) == "-";
  }

  lemma LeftFourEvaluates(spec: Spec)
    requires spec == Spec(NoFlags.(left := true), WidthLit(4), NoPrec, LenNone)
    ensures Evaluate(spec, 'd', [Int(5)]) == Ok(Taken(Emission("5   ", 1), []))
  {
    var g := NoFlags.(left := true);
    var f := ConversionFlags(spec.flags.(hasPrecision := false), 'd');
    assert f == g;
    assert LiteralWidth(spec) == 4 && LiteralPrecision(spec) == 0;
    LeftPadUncounted();
    var e := NumberField(f, ConversionBase('d'), LiteralWidth(spec), LiteralPrecision(spec), Abs(5), 5 < 0, Narrow);
    assert e == NumberField(g, Decimal, 4, 0, 5, false, Narrow);
    assert [Int(5)] + [] == [Int(5)];
    IntDirective(spec, 'd', 5, []);
  }

  /** `%p` of a null pointer writes nine zeros: the eight-column field of
      a 32-bit pointer, zero padded, and the '0' of the value zero. */
  lemma NullPointerCall()
    ensures FormatOut("%p", [Ptr(0)]) == Ok(Output("000000000", 9))
  {
    var spec := Spec(NoFlags, NoWidth, NoPrec, LenNone);
    PlainText(spec);
    NullPointerEvaluates(spec);
    SingleCall("%p", spec, 'p', [Ptr(0)], Emission("000000000", 9));
  }

  lemma PlainText(spec: Spec)
    requires spec == Spec(NoFlags, NoWidth, NoPrec, LenNone)
    ensures Writable(spec) && ['%'] + Render(spec) + ['p'] == "%p"
  {
    assert FlagText(spec.flags) == [];
  }

  lemma NullPointerEvaluates(spec: Spec)
    requires spec == Spec(NoFlags, NoWidth, NoPrec, LenNone)
    ensures Evaluate(spec, 'p', [Ptr(0)]) == Ok(Taken(Emission("000000000", 9), []))
  {
    var st := Setting(NoFlags, 0, 0);
    assert Truncate(0, 8 * LongBytes) == 0;
    NullPointerField();
    assert PointerField(st, 0) == Emission("000000000", 9);
    assert ([Ptr(0)] + [])[1..] == [];
    StarlessConfigure(spec, [Ptr(0)]);
    assert Configure(spec, [Ptr(0)]) == Ok(Taken(st, [Ptr(0)]));
  }

  /** `%p` of a nonzero address writes its 32 bits as eight upper-case hex
      digits, zero padded on the left, and returns 8. */
  lemma PointerDirective(a: nat)
    requires Truncate(a, 32) != 0
    ensures var r := FormatOut("%p", [Ptr(a)]);
      && r.Ok? && r.value.count == 8 && |r.value.text| == 8
      && (forall i :: 0 <= i < 8 ==> IsDigitOf(r.value.text[i], Hex, true))
      && ReadBack(r.value.text, 16) == Truncate(a, 32)
  {
    var spec := Spec(NoFlags, NoWidth, NoPrec, LenNone);
    var e := PointerField(Setting(NoFlags, 0, 0), a);
    PlainText(spec);
    PointerEvaluates(spec, a);
    TwoPowers();
    PointerDigits(Truncate(a, 32));
    assert e == NumberField(NoFlags.(zeroPad := true, upper := true), Hex, 8, 0, Truncate(a, 32), false, Narrow);
    SingleCall("%p", spec, 'p', [Ptr(a)], e);
  }

  /** `%p` with no flags, width or precision reads the pointer and writes
      its field. */
  lemma PointerEvaluates(spec: Spec, a: nat)
    requires spec == Spec(NoFlags, NoWidth, NoPrec, LenNone)
    ensures Evaluate(spec, 'p', [Ptr(a)]) == Ok(Taken(PointerField(Setting(NoFlags, 0, 0), a), []))
  {
    assert ([Ptr(a)] + [])[1..] == [];
    StarlessConfigure(spec, [Ptr(a)]);
    assert Configure(spec, [Ptr(a)]) == Ok(Taken(Setting(NoFlags, 0, 0), [Ptr(a)]));
  }

  /** A directive the terminator cuts off before its conversion character
      is a fault: the source would read past the end of the format. */
  lemma CutOff(spec: Spec, args: seq<Arg>)
    requires Writable(spec)
    ensures FormatOut(['%'] + Render(spec), args) == Err(PastTerminator)
  {
    var format := ['%'] + Render(spec);
    assert format[1..] == Render(spec) + [];
    ParseRender(spec, []);
  }
}
