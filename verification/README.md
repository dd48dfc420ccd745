# printf.c in Dafny

A model of the formatting core of a small embedded `printf`. The core is
`format_out`: a loop over a format string that copies literal characters and,
for each `%[flags][width][.precision][length]type` directive, takes the
directive's arguments in order (a `*` width, a `*` precision, then the value).
It then hands the value to one of three emitters: the integer field
formatter, `print_string` or the `%c` arm. The model also covers the
bounded-buffer sink (`out_sprintf`) and the terminator rule of `snprintf_` and
`vsnprintf_`.

Everything is pure: a format is a `seq<char>`, the variadic arguments are a
`seq<Arg>` of tagged values, and every emitter returns an `Emission`. An
`Emission` holds the characters handed to the sink and how many of them the
running index counted.

The target is the one the source is written for: a 32-bit ARM. There, `long`,
pointers, `size_t` and `ptrdiff_t` are 4 bytes, `long long` and `intmax_t` are
8 bytes, and plain `char` is unsigned. The source's 8-bit counters are modelled
as they are:
- the returned count is the number of counted characters modulo 256;
- the width and precision are cut to 8 bits;
- a left-justified number's trailing pad is written but not counted;
- the value 0 has digit count 0 but still writes one `'0'`, so `%5d` of 0 is
  six characters wide and `%p` of a null pointer writes nine zeros.

Modules, in dependency order:

- `Arith`: powers, `Min`/`Max` and the division facts the proofs need.
- `Machine`: the target's type sizes, 8-bit `Byte`, truncation to a C integer
  type, and the reading of a C string out of a sequence. `At` reads the
  implicit NUL past the end, and `CLen` is the string's length.
- `Magnitude`: `get_digits_long(_long)` and the digit loops of
  `ntoa_long(_long)`. Both widths share one definition, parameterised by
  `Width`.
- `Field`: the flag set, `ntoa_format`'s saturating width and precision
  arithmetic, the sign, the `#` prefix, the padding, and `pre_format_long(_long)`.
- `Text`: `strnlen_s`, `print_string` and the `%c` arm.
- `Directive`: the directive parser, `is_digit` and `atoi`, plus a renderer
  whose round trip with the parser is proved.
- `Format`: argument reading, the conversion switch, and the `format_out` loop.
- `Sink`: `out_sprintf`, and `snprintf_` / `vsnprintf_` over a caller buffer.

Where C leaves behaviour undefined, the model returns a `Fault`:
- `va_arg` past the last argument is `MissingArgument`;
- `va_arg` at a type the argument does not have is `WrongArgument`. This
  includes a string argument given to `%p`, which C would accept as a
  pointer;
- a directive cut off by the format's terminator is `PastTerminator`. The C
  steps past the NUL and reads beyond the format.

An integer argument read at a narrower or unsigned C type is converted to that
type's width, as the C conversion does. For example, `%hhd` of -1 reads 255,
because `char` is unsigned on this target.

Three behaviours of `printf.c` that a reader might not expect:
- `snprintf_` and `vsnprintf_` return `format_out`'s 8-bit index, not the
  length that would have been written. That index wraps at 256 and leaves
  out the trailing pad of left-justified numbers.
- An oversized width literal wraps rather than saturates: `atoi` works modulo
  2^32, and the result is then cut to the 8-bit width.
- An exhausted argument list is the fault `MissingArgument`, where C would
  read an undefined value.

## Model

| member | source | states |
|---|---|---|
| Machine.ToSigned | printf.c:681 | the value an `int` becomes at a signed C type: it lies in the type's range and agrees with the input modulo 2^bits |
| Machine.ToSignedKeeps | printf.c:539 | a value already in the signed type's range is passed through unchanged |
| Machine.CLen | printf.c:171 | the C string length: no NUL before it, and a NUL (or the end) at it |
| Directive.Atoi | printf.c:188-196 | atoi's value fits in `unsigned int`, and the text it leaves is a suffix of its input |
| Directive.AtoiFrom | printf.c:188-196 | atoi consumes exactly the maximal run of leading digits, leaves the rest as a suffix, stops at a non-digit, and its value fits in `unsigned int` |
| Directive.AccumulateValue | printf.c:190-194 | the accumulator after a run of digits is acc·10^k plus the digits' positional value, modulo 2^32 |
| Directive.AtoiStops | printf.c:188-196 | atoi of digits followed by a non-digit returns their decimal value modulo 2^32 and the text after them |
| Directive.NumeralRoundTrip | printf.c:188-196 | atoi reads back the decimal numeral of every n in [1, 2^32) and stops right after it |
| Directive.ParseFlags | printf.c:516-529 | the flag loop consumes a prefix of the format made only of `0 - + space #`, and stops at the first character that is not one of them |
| Directive.ParseFlagsReads | printf.c:516-529 | flag characters in any order and number, repeats included, turn on exactly the flags they name, and the loop leaves the first other character next |
| Directive.FlagsRoundTrip | printf.c:516-529 | parsing the written-out flag characters of any flag set yields that flag set and the text after them |
| Directive.ParseWidth | printf.c:531-550 | the width field leaves a suffix of its input, and a literal width fits in `unsigned int` |
| Directive.WidthRoundTrip | printf.c:531-550 | a literal width, `*` or no width, written out and parsed back, is recovered with the text after it |
| Directive.ParsePrecision | printf.c:552-568 | the precision field leaves a suffix of its input, and a literal precision fits in `unsigned int` |
| Directive.PrecisionRoundTrip | printf.c:552-568 | `.n`, `.*`, a lone `.` (precision 0) or no precision, written out and parsed back, is recovered |
| Directive.PrecDotRoundTrip | printf.c:554-561 | a `.` followed by no digit and no `*` is precision 0 |
| Directive.ParseLength | printf.c:570-611 | the length field consumes a prefix, and nothing exactly when no modifier is present |
| Directive.LengthRoundTrip | printf.c:570-611 | each of `hh h l ll j z t` and no modifier, parsed back, is recovered with the text after it |
| Directive.ParseSpec | printf.c:516-611 | the text the directive parser leaves is no longer than its input |
| Directive.ParseSpecSuffix | printf.c:516-611 | the directive parser consumes a prefix of the text after `%` and leaves the rest as it was |
| Directive.ParseSpecWellFormed | printf.c:516-611 | the parser sets only the five flag-character bits and literal numbers fit in `unsigned int` |
| Directive.ParseRender | printf.c:516-611 | parsing any writable directive followed by a conversion character gives back that directive and leaves the conversion character next |
| Magnitude.TableIsPowers | printf.c:139-141 | entry i of both divisor tables is 10^i, and each table covers every value of its width |
| Magnitude.CountTableBounds | printf.c:295-299 | the decimal count stops at k with 10^(k-1) <= value < 10^k |
| Magnitude.CountShiftsBounds | printf.c:300-307 | counting shifts by `bits` gives k > 0 with r^(k-1) <= value < r^k for nonzero values, r = 2^bits |
| Magnitude.RadixIsPowerOfTwo | printf.c:143-144 | for binary, octal and hex, 2^base_bits is the radix and base_mask is the radix less one |
| Magnitude.GetDigits | printf.c:292-309 | a decimal digit count never runs past the divisor table |
| Magnitude.DigitCountBounds | printf.c:292-309 | get_digits returns 0 exactly for the value 0, and otherwise k with base^(k-1) <= value < base^k |
| Magnitude.DecimalDigits | printf.c:329-340 | the decimal loop writes exactly `count` characters |
| Magnitude.ShiftDigits | printf.c:341-349 | the shift-and-mask loop writes exactly `count` characters, each a digit of the base in the selected letter case |
| Magnitude.DigitText | printf.c:319-349 | a nonzero value gets exactly `count` digits, and the value 0 at most one |
| Magnitude.DecimalRoundTrip | printf.c:329-340 | the decimal loop writes `count` decimal digits whose positional value is the value |
| Magnitude.ShiftRoundTrip | printf.c:341-349 | the shift-and-mask loop writes `count` digits of the base, in the selected letter case, whose value is the value modulo base^count |
| Magnitude.DigitsRoundTrip | printf.c:319-349 | for a nonzero value, the get_digits count of digits is written, each a digit of the base in the selected case, reading back to the value, the first not '0' |
| Field.ReservedColumnsAreWritten | printf.c:203-272 | the sign and prefix written take exactly the columns ntoa_format reserved for them |
| Field.Reserve | printf.c:199-223 | the width and precision left after the reductions never exceed their inputs; the precision left is precision less digits, and the width left is width less digits, sign, precision zeros and prefix, each saturating at 0 |
| Field.NtoaFormat | printf.c:199-290 | a left-justified head is the sign then the prefix; a right-justified head uses up the whole width, so no trailing pad follows |
| Field.NtoaLong | printf.c:319-361 | the digits are counted; a left-justified field's trailing pad is written and not counted |
| Field.EffectiveKeeps | printf.c:478-490 | pre_format changes no other flag |
| Field.Ntoa | printf.c:319-361 | the count never exceeds the characters written, and a right-justified field counts all of them |
| Field.NumberField | printf.c:478-490 | a numeric conversion (pre_format, then ntoa_format and ntoa_long) never counts more than it writes, and counts everything in a right-justified field |
| Field.LayoutLeft | printf.c:226-289 | a left-justified field is sign, prefix, digits, then the pad in spaces, with no precision zeros; the pad is not counted |
| Field.LayoutSpaced | printf.c:226-289 | a right-justified field without `0` is the pad in spaces, sign, prefix, precision zeros, digits |
| Field.LayoutZeroPadded | printf.c:274-289 | a right-justified zero-padded field is sign, prefix, precision zeros, the pad in zeros, digits |
| Field.RightLength | printf.c:199-290 | a right-justified field's length is pad + sign + prefix + precision zeros + digits |
| Field.DigitTextLength | printf.c:319-349 | the digits written number exactly the get_digits count, except for the value zero without a precision |
| Field.RightWidth | printf.c:199-290 | a right-justified field is max(width, sign + prefix + max(precision, digits)) wide |
| Field.FieldWidth | printf.c:199-290 | for a right-justified number (a value other than the lone zero), that width is also the count added to the running index |
| Field.ZeroDigits | printf.c:322-328 | the value 0 has digit count 0, and writes "0" without a precision and nothing with one |
| Field.ZeroValueWiderThanWidth | printf.c:322-328 | right-justified and without a precision, the value 0 takes max(width, sign) + 1 columns, all counted, ending in '0' |
| Field.ZeroValueNoDigits | printf.c:321-328 | with precision 0 and no `0` flag, the value 0 writes only its sign and the pad in spaces, the pad after the sign when left-justified and before it otherwise |
| Field.NoPrefixForZero | printf.c:481-485 | `#` has no effect on the field of the value 0 |
| Field.SignPriority | printf.c:236-250 | the sign position holds '-' for a negative value, else '+' under `+`, else a space under space, else nothing; it is first, or just after the pad of a space-padded right-justified field |
| Field.ZeroPaddedNegative | printf.c:199-290 | `%05d` of -42 is "-0042" |
| Field.LeftPadUncounted | printf.c:352-360 | `%-4d` of 5 writes "5   " and counts 1 |
| Field.ZeroValueOverflowsWidth | printf.c:322-328 | `%5d` of 0 writes six characters |
| Field.PointerDigits | printf.c:747-767 | the `%p` field of a nonzero 32-bit address is exactly eight upper-case hex digits, all counted, reading back to the address |
| Field.NullPointerField | printf.c:747-767 | the `%p` field of address 0 is nine zeros, all counted |
| Text.StrnLen | printf.c:168-177 | strnlen_s is the smaller of the C string's length and the limit |
| Text.CopyOut | printf.c:462-466 | the output loop copies the string up to its NUL, and under a precision at most that many characters |
| Text.PrintString | printf.c:445-476 | every character print_string writes is counted |
| Text.StringField | printf.c:445-476 | a `%s` field is max(width, characters shown) wide; the characters shown are the string's first, up to the NUL and the precision; they come first when left-justified and last otherwise, and the rest are spaces |
| Text.ZeroPrecisionString | printf.c:447-451 | `%.0s` writes only the pad |
| Text.CharField | printf.c:717-740 | a `%c` field is max(width, 1) wide, all counted, with the character at its left end when left-justified and at its right end otherwise, and spaces elsewhere |
| Format.ReadSigned | printf.c:539 | `va_arg` at a signed type fails exactly on a missing or non-integer argument, else consumes one argument and gives a value in the type's range equal to the argument modulo 2^bits |
| Format.ReadUnsigned | printf.c:708 | `va_arg` at an unsigned type fails exactly on a missing or non-integer argument, else consumes one argument and gives it modulo 2^bits |
| Format.TakeWidth | printf.c:531-550 | a literal width is taken modulo 256 and reads no argument; `*` succeeds exactly when an integer argument is next |
| Format.TakePrecision | printf.c:552-568 | any `.` sets the precision flag; a literal precision is taken modulo 256 and reads no argument; `.*` succeeds exactly when an integer argument is next |
| Format.Configure | printf.c:531-611 | a directive's head takes exactly one argument per `*`, from the front of the list |
| Format.StarlessConfigure | printf.c:531-611 | a directive without `*` reads no argument, sets the literal width and precision, keeps its justification, and has a precision exactly when it has a `.` |
| Format.LengthFlagsKeeps | printf.c:570-611 | the length modifier changes neither justification nor the precision flag |
| Format.ReadInteger | printf.c:659-713 | the integer arm fails exactly on a missing or non-integer argument, consumes one, and reads wide exactly under `ll` or `j`. A signed conversion reads the value in the range of the type the length selects (`long long`, `long`, unsigned `char`, `short` or `int`) that agrees with the argument modulo 2^bits; an unsigned one reads the argument modulo 2^bits; no reading is a negative zero |
| Format.SignedReading | printf.c:660-686 | the magnitude and sign stand for exactly the signed value read, and the magnitude fits the selected width |
| Format.SignedValue | printf.c:663-681 | the value read lies in the range of the selected type (`[0, 256)` under `hh`, since `char` is unsigned here, and the two's complement range of 64, 32 or 16 bits otherwise) and agrees with the argument modulo 2^bits |
| Format.UnsignedValue | printf.c:690-712 | the value read lies below 2^bits of the selected type (64 under `ll`/`j`, 32 under `l`/`z`/`t` or none, 16 under `h`, 8 under `hh`) and agrees with the argument modulo 2^bits |
| Format.PointerField | printf.c:747-767 | the `%p` field never counts more than it writes, and counts everything when right-justified |
| Format.Convert | printf.c:613-784 | `%%` writes one '%', an unknown conversion character is written alone and reads nothing, an integer, `c`, `s` or `p` conversion takes exactly the next argument and faults when there is none, and a conversion never counts more characters than it writes |
| Format.Evaluate | printf.c:531-784 | a directive takes one argument per `*` and then one for a value conversion, from the front of the list, and never counts more than it writes |
| Format.Step | printf.c:501-784 | each turn of the loop strictly shortens the format and never counts more than it writes |
| Format.FormatFrom | printf.c:501-786 | the loop never counts more characters than it writes |
| Format.LiteralRun | printf.c:501-509 | a run of literal characters is copied verbatim and counted one by one, whatever follows |
| Format.LiteralsOnly | printf.c:501-509 | a format without `%` comes out as it is, with its length modulo 256 returned |
| Format.DirectiveStep | printf.c:510-784 | one turn of the loop over a written-out directive evaluates it and continues after its conversion character |
| Format.PassThrough | printf.c:775-783 | `%%`, or `%` with any flags, width, precision and length before an unknown conversion character, writes that one character and continues; a `*` width or precision still takes its `int` argument first (printf.c:539, :564), faulting as Configure does, and a directive without `*` reads no argument |
| Format.StarredPassThrough | printf.c:536-545 | `%*y` with arguments 3 and 7 consumes the 3 and writes only `y`, counting 1 |
| Format.StarWidthTake | printf.c:537-550 | a `*` width of v sets left-justification when v < 0, gives |v| cut to 8 bits, and consumes one argument |
| Format.ConfigureStarWidth | printf.c:537-550 | a `*` width of v configures the directive as if `|v|` were written, with `-` added when v is negative |
| Format.ConfigureStarPrecision | printf.c:562-567 | a `.*` precision of v configures the directive as if `.v` were written, and `.0` when v is not positive |
| Format.ConfigureStars | printf.c:531-568 | with both `*`, the width argument is taken before the precision argument |
| Format.DynamicWidth | printf.c:537-550 | the whole loop treats a `*` width with argument v as the literal directive it stands for |
| Format.DynamicPrecision | printf.c:562-567 | the whole loop treats a `.*` precision with argument v as the literal directive it stands for |
| Format.DynamicBoth | printf.c:531-568 | the whole loop treats `*` and `.*` with arguments w then p as the literal directive they stand for |
| Format.UnsignedIgnoresSign | printf.c:647-651 | `+` and space do not change `u x X o b` |
| Format.DecimalIgnoresHash | printf.c:636-640 | `#` does not change `d i u` |
| Format.PrecisionIgnoresZeroPad | printf.c:653-657 | under a precision, `0` does not change an integer conversion |
| Format.IntReading | printf.c:679-685 | without a length modifier, `d`/`i` read an `int` as its magnitude and sign and the others an `unsigned int`, both narrow |
| Format.ReadInRange | printf.c:659-713 | under every length modifier, an argument already in the range of the type read is read as itself: its magnitude and sign for `d`/`i`, its value for the unsigned conversions |
| Format.ShortLengthWraps | printf.c:681 | `%hd` of 40000 reads -25536 |
| Format.LongLongLengthUnsigned | printf.c:690-697 | `%llu` of -1 reads 2^64 - 1 in the wide representation |
| Format.CharLengthUnsigned | printf.c:681 | `%hhd` of -1 reads 255, because `char` is unsigned on this target |
| Format.IntDirective | printf.c:616-715 | an integer directive without `*` or length writes the number field of its argument with the conversion's flags, base, literal width and precision |
| Format.MissingValue | printf.c:659-773 | an integer, `c`, `s` or `p` directive with no argument left is a fault |
| Format.CharDirective | printf.c:717-740 | a `%c` directive consumes its argument and writes the character field of the literal width |
| Format.StringDirective | printf.c:742-745 | a `%s` directive consumes its argument and writes the string field of the literal width and precision |
| Format.SingleDirective | printf.c:492-789 | a format that is one directive returns what that directive writes, counted modulo 256 |
| Format.ZeroPaddedNegativeCall | printf.c:492-789 | format_out of "%05d" with -42 gives "-0042" and 5 |
| Format.LeftPadUncountedCall | printf.c:352-360 | format_out of "%-4d" with 5 gives "5   " and 1 |
| Format.PointerDirective | printf.c:747-773 | format_out of "%p" with a nonzero address writes eight upper-case hex digits that read back to the address cut to 32 bits, and returns 8 |
| Format.NullPointerCall | printf.c:747-773 | format_out of "%p" with a null pointer gives nine zeros and 9 |
| Format.CutOff | printf.c:780-783 | a directive cut off by the terminator before its conversion character is a fault |
| Sink.OutSprintf | printf.c:146-154 | with capacity left and a buffer, the character is stored at the cursor, the cursor advances by one, the capacity drops by one and every other cell is unchanged; with no capacity or a NULL buffer nothing changes |
| Sink.Drain | printf.c:146-154 | after a text, the first min(length, capacity) characters sit at the cursor, the capacity is down by as many, and every other cell is unchanged |
| Sink.Snprintf | printf.c:835-842 | snprintf fails exactly when format_out does, returns format_out's count, and leaves a NULL buffer NULL |
| Sink.ZeroCapacity | printf.c:839-840 | with capacity 0 the buffer is not touched, not even for the terminator |
| Sink.Stored | printf.c:835-842 | with capacity n > 0 the buffer holds the first min(length, n-1) characters of the output, a terminator right after them, and its old contents beyond |
| Sink.ReturnIgnoresCapacity | printf.c:835-842 | the value returned depends on neither the buffer nor its capacity |
| Sink.ShortBuffer | printf.c:816-826 | capacity 3 and "abcdef" store "ab" and the terminator and return 6 |

## Left out

- `out_char` and `_putchar` (printf.c:157-164): device output is foreign I/O. The sink is modelled as the emitted sequence, plus the buffer cursor of `Sink`.
- `printf_` and `vprintf_` (printf.c:794-801, 829-832): thin wrappers that pass `format_out` the device sink.
- `sprintf_` (printf.c:804-813): it writes to a buffer the caller guarantees is large enough. It is the bounded sink with capacity `(size_t)-1`, followed by an unconditional terminator.
- `va_list` and `va_arg`: replaced by an explicit argument sequence. The C's undefined cases (no argument, wrong type) become faults.
- The `sizeof` comparisons for `t`, `j`, `z` and `%p` (printf.c:595, 600, 605, 749-753) are fixed as constants of the 32-bit ARM target.
- Pointer-to-integer casts: a pointer argument is its address, cut to `unsigned long`.
- `ABS` of the most negative value (printf.c:99): signed overflow in C. The model takes the mathematical magnitude, which is what the conversion to the unsigned magnitude type yields.
- A NULL pointer passed to `%s`: `print_string` dereferences it. A string argument always carries a character sequence.
- `FLAGS_ADAPT_EXP` (printf.c:116) is never set by this source.
- Characters stand for bytes. A `char` above 255 is one unit of the model's text but would be several bytes in C. The `%c` argument is cut to 8 bits by `CharOf`, so it wraps at 256.
- A string argument to `%p` is `WrongArgument`. C would read the string's address as the pointer.
- Text.StringField: stated for strings whose C length is below 2^32, the bound of `strnlen_s`'s `size_t` limit; longer strings do not fit the target's address space.
- Format.DynamicWidth, Format.DynamicPrecision, Format.DynamicBoth, Format.ConfigureStarWidth, Format.ConfigureStarPrecision, Format.ConfigureStars: stated for `*` arguments already in the range of `int`. Other integer arguments are first converted to `int` by `ReadSigned`.
- Format.IntReading and Format.IntDirective: stated for directives without a length modifier. The value read under each modifier is stated by `ReadInteger`, `SignedValue`, `UnsignedValue` and `ReadInRange`, and exhibited by `CharLengthUnsigned`, `ShortLengthWraps` and `LongLongLengthUnsigned`.
