# printf.c, modelled and verified in Dafny

This project models the formatting core of a small embedded `printf`. The core is `printf_inner`, a single-pass scanner over a NUL-terminated format string. It emits literal runs and, for each `%` directive, renders an integer, a string or a character through a caller-supplied `emit(pointer, length)` sink. The directive may carry an optional `#` and the length modifiers `l`, `ll`, `h` and `hh`. Its helpers `plain_length`, `place_int_dec` and `place_int_hex`, the digit table `g_hex_table` and the scratch buffer of `AUX_BUFFER_SIZE` bytes are modelled too.

The model is organised as follows:

- **`CInts`** (cints.dfy): powers of two and ten, the ranges of two's-complement integers, and the C conversions the source relies on. These are `ToSigned` (an `unsigned int` stored into a signed `LONGEST_INT`), `ToUnsigned` (a signed value passed as `unsigned LONGEST_INT`) and `CRem` (C's `%`, which truncates toward zero).
- **`Digits`** (digits.dfy): the reference definitions of numerals. `Numeral` is the shortest numeral in base 2, 10 or 16, `Padded` the fixed-width numeral, and `Value` reads a digit string back. `HexTable` is `g_hex_table`.
- **`Configuration`** (config.dfy): the build flags as a record. FEATURE_32BIT is always on, so `long` and the `l` modifier exist. FEATURE_64BIT, FEATURE_SHORT, FEATURE_CHAR, the width of `long` and MAX_DIVIDER are parameters. `AuxBufferSize` is 1 + 20.
- **`Render`** (render.dfy): `place_int_dec` and `place_int_hex` as methods writing into an `array<char>`, and the mask loops of the `b` conversion as a method. Each is proved against a specification function (`DecText`, `HexText` and `BinBits`), and the function is related to `Numeral` by lemmas.
- **`Scanner`** (scanner.dfy): the pass as the mutually recursive specification functions `Scan`, `ScanDirective` and `ScanConversion`, whose result is `Run`. The outcome is either the list of sink calls or `Undefined(fault)` when the C code would have undefined behaviour. `PrintfInner` is the cursor loop of the source, with its scratch buffer, and is proved to make exactly the calls of `Run`.
- **`PassProperties`** (pass_properties.dfy): what the pass promises for all inputs. This covers literal runs, argument consumption, `%%`, unknown codes, the `#` prefixes, the decimal, hex and binary text of each conversion, and the bound on `aux_buffer`.
- **`Scenarios`** (scenarios.dfy): whole passes over short format strings.
- **`Findings`** (findings.dfy): three defects of the source, each shown as written and then corrected.

The source behaves in ways that may surprise a reader of the format language, and the model keeps them all:

- **`%%`.** It moves the cursor on before the default branch. It therefore emits the second `%` together with the character after it, and then skips that character. `"%%x"` writes `"%x"`. A `%%` at the very end of the format moves the cursor past the terminator, so the pass is undefined.
- **A lone `%` at the end of the format.** It emits `%` and the NUL, and then also moves past the terminator.
- **An unknown code.** It is written together with the character in front of it: `%` for `%q`, and `#` for `%#q`.
- **`#` on `u`.** It writes `"0x"` in front of the decimal digits.
- **`#` elsewhere.** It is ignored on `d`, `i`, `s` and `c`.
- **Hex of 0.** It has no digits at all.
- **Binary.** `b` emits the prefix (possibly an empty call) and then one call per bit.
- **`%u` with a 32-bit `LONGEST_INT`.** The `unsigned int` is stored into a signed `long` (printf.c:219). C leaves the result implementation-defined when the value does not fit; the model takes the two's-complement wrap that common compilers choose. Under it, `%u` of 0xFFFFFFFF writes `-1`, and `%u` of 0x80000000 negates the minimum, which is undefined.
- **A modifier the build does not recognise.** It becomes the conversion code. Without FEATURE_64BIT, `"%lld"` with 5 writes `"ll"` and then the leftover `d` as a literal run (`Scenarios.LongLongDisabled`). An unknown code after a modifier is written with that modifier: `"%lq"` writes `"lq"`.

Two consequences of the above are easy to miss. `"Value: %d%%"` with 7 does not end cleanly: the final `%%` moves the cursor past the terminator (`Scenarios.TrailingPercentPercent`). A `%` that ends the format emits the `%` and the NUL, then reads past the terminator.

Arguments are a sequence of `Arg` (`Int(value)` or `Str(text)`). A `va_arg` at a type the argument does not have is reported as `Undefined(ArgumentMismatch)`, and one with no argument left as `Undefined(MissingArgument)`. The C type of an argument is not tracked. As a convention of the model, a `va_arg` at integer type T is well defined when the value lies in T's range. The integer widths are fixed as follows:

| type | width |
|---|---|
| `int` | 32 bits |
| `short` | 16 bits |
| `char` | 8 bits |
| `long` | 32 or 64 bits |
| `long long` | 64 bits |

## Model

| member | source | states |
|---|---|---|
| CInts.ToSigned | printf.c:219 | the result is a value of the signed type, and a value already in range is unchanged |
| CInts.ToSignedOfUnsigned | printf.c:219 | an unsigned value below 2^(bits-1) is kept; any other is reduced by 2^bits (two's-complement wrap) |
| CInts.ToSignedCongruent | printf.c:219 | the stored value is congruent to the original modulo 2^bits |
| CInts.ToUnsigned | printf.c:237 | the result is a value of the unsigned type, and a value already in range is unchanged |
| CInts.ToUnsignedOfSigned | printf.c:219-237 | storing an unsigned value as signed and passing it back as unsigned gives the value back |
| CInts.CRem | printf.c:158-162 | C's `%`: the remainder takes the sign of the dividend and is smaller than the divisor in magnitude |
| CInts.CRemCongruent | printf.c:158-162 | C's remainder is congruent to the dividend |
| Digits.HexTableDigit | printf.c:48 | the table holds the character of digit d at index d, upper-case for 10-15 |
| Configuration.Build32 | printf.c:40-42 | the FEATURE_32BIT build is valid, has no `long long`, and has MAX_DIVIDER 10^9 |
| Configuration.Build64 | printf.c:37-39 | the FEATURE_64BIT build is valid, has a 64-bit LONGEST_INT, and has MAX_DIVIDER 10^9, the value written at line 28 |
| Render.DecText | printf.c:306-339 | the text place_int_dec writes: '-' and the text of the magnitude for a negative value, "0" for zero, and otherwise the digits from MAX_DIVIDER's position down to the units, with the leading zeros dropped, so higher digits are never written. Its partners are Render.DecTextExact and Render.DecTextRoundTrip |
| Render.SigBytes | printf.c:343-349 | the number of bytes the probe loop shifts out before the value is 0. Bounded in Render.SigBytesBounds |
| Render.SigBytesBounds | printf.c:343-349 | the value is below 16^(2·SigBytes), and at least 16^(2·SigBytes-2) when it is nonzero |
| Render.HexText | printf.c:341-361 | the text place_int_hex writes: the value in upper-case hexadecimal, two digits per significant byte, so zero is written as nothing. Its partner is Render.HexTextRoundTrip |
| Render.BinBits | printf.c:248-257 | the bits the mask loops emit for n: the CeilLog2(n) lowest bits, most significant first. Its partners are Render.BinBitsExact and Render.BinBitsOfPowerOfTwo |
| Render.DecTextOfZero | printf.c:314-318 | zero is written as the single digit "0", which reads back as 0 |
| Render.DecTextRoundTrip | printf.c:320-338 | a positive value below 10^(e+1) is written as its shortest decimal numeral: it reads back as the value and has no leading zero |
| Render.DecTextTruncates | printf.c:320-337 | the divider loop writes only the value modulo 10*MAX_DIVIDER, and writes nothing when that is 0 |
| Render.DecTextNegative | printf.c:308-312 | a negative value is '-' followed by the text of its magnitude |
| Render.DecTextLength | printf.c:306-339 | the text has at most e+1 digits, plus one for a sign |
| Render.DecTextExact | printf.c:306-339 | for a value within the divider's reach the text is "0", the numeral, or '-' and the numeral of the magnitude |
| Render.PrintedIsStripped | printf.c:320-337 | the digits printed from divider 10^j down are the (e+1-j)-digit numeral of the value above position j, without its leading zeros |
| Render.PlaceDigits | printf.c:320-338 | the divider loop writes the decimal text at the offset, changes no other cell, and returns its length |
| Render.PlaceIntDec | printf.c:306-339 | writes the decimal text (sign, zero and digit cases) at the offset, changes no other cell, and returns its length; the minimum is excluded because negating it overflows |
| Render.HexTextRoundTrip | printf.c:341-361 | the hex text has two digits per significant byte, reads back as the value, and is empty exactly for 0 |
| Render.HexTextLeadingByte | printf.c:343-349 | a nonzero value never starts with a zero byte "00" |
| Render.HexTextLength | printf.c:341-361 | a value of a bits-wide unsigned type has at most bits/4 hex digits |
| Render.HexWrittenIsPadded | printf.c:350-359 | the digits the writing loop leaves are the fixed-width hex numeral |
| Render.HexLength | printf.c:343-349 | the probe loop computes two digits per significant byte, which is the length of the hex text |
| Render.PlaceNibble | printf.c:352-358 | one step of the writing loop puts the next digit one cell further left and shifts the value by four bits |
| Render.PlaceHexDigits | printf.c:350-359 | the writing loop fills hexlen cells with the fixed-width hex numeral, right to left, and changes nothing else |
| Render.PlaceIntHex | printf.c:341-361 | writes the hex text at the offset, changes no other cell, and returns its length |
| Render.CeilLog2 | printf.c:248-252 | the first mask loop stops at the least power of two that is at least the number |
| Render.BinBitsOfSmall | printf.c:248-257 | 0, 1 and negative numbers emit no bits |
| Render.BinBitsOfPowerOfTwo | printf.c:248-257 | 2^k emits k zeros: the top bit is lost |
| Render.BinBitsExact | printf.c:248-257 | a number that is not a power of two emits its binary numeral, which reads back as the number and starts with '1' |
| Render.BitCallsArePadded | printf.c:253-257 | the second loop emits the k lowest bits of the number, most significant first, one call each |
| Render.StreamBits | printf.c:244-258 | both mask loops together emit one call per character of BinBits(number) |
| Scanner.PlainLen | printf.c:293-304 | the run ends at or before the terminator, on a `%` or the NUL |
| Scanner.PlainLenPlain | printf.c:298 | no character inside a literal run is `%` or NUL |
| Scanner.PlainLength | printf.c:293-304 | the loop returns the length of the literal run |
| Scanner.CString | printf.c:265-266 | the string emitted for `%s` holds no NUL |
| Scanner.ParseDirective | printf.c:93-137 | the code index lies between the `%` and the terminator; the prefix offset is 0 or 2; longness is between -2 and 2. What each flag and modifier means is stated by PassProperties.DirectiveModifiers |
| Scanner.ReadDirective | printf.c:93-137 | the parsing steps leave the prefix offset, the longness and the cursor of ParseDirective, and so those that PassProperties.DirectiveModifiers gives for `#`, `l`, `ll`, `h` and `hh` |
| Scanner.NulFromSkip | printf.c:298 | the search for the terminator passes over any stretch without NUL |
| Scanner.Run | printf.c:71-291 | the pass over the whole format from cursor 0 with no argument used: the sink calls, or the undefined behaviour it runs into. PrintfInner is proved to make exactly these calls, and PassProperties states what they are |
| Scanner.Scan | printf.c:76-91 | one round of the loop from a cursor: the literal run, then a stop at the NUL or the directive after the `%`. Its partner is PassProperties.ScanRound, stated for both readings of the literal run |
| Scanner.ScanDirective | printf.c:91-137 | the directive after a `%`, parsed by ParseDirective and then converted. Its partners are PassProperties.PercentPercent, UnknownDirective and PlainConversion |
| Scanner.ScanConversion | printf.c:143-289 | the conversion of a parsed directive, followed by the rest of the pass from where the switch and the final `cursor++` leave the cursor; a fault ends the pass as undefined |
| Scanner.LiteralRun | printf.c:79-83 | the call for a literal run: none when it is empty, else the run's length of characters from the start of the format (as written) or from the cursor (corrected). Stated in PassProperties.ScanRound |
| Scanner.SignedArg | printf.c:150-178 | the number `d` and `i` read for each longness: a narrowed `int` for `hh` and `h`, else an `int`, `long` or `long long`; a non-integer or out-of-range argument is a mismatch. Its partners are Scanner.SignedArgFits and PassProperties.SignedNarrowing |
| Scanner.UnsignedArg | printf.c:203-231 | the number `u`, `x`, `X` and `b` read: a masked `unsigned int` for `hh` and `h`, an `unsigned int` stored into LONGEST_INT, or a `long` or `long long`. Its partners are Scanner.UnsignedArgFits, PassProperties.UnsignedNarrowing and PassProperties.UIntWraps |
| Scanner.PrefixText | printf.c:197-201 | "0b" for `b` and "0x" for every other code when `#` was given, and nothing otherwise. Stated in PassProperties.HexPrefix and PassProperties.BinaryPrefix |
| Scanner.AuxCall | printf.c:243 | one emit of aux_buffer, prefix then rendering, or an overflow fault when they exceed AUX_BUFFER_SIZE. PassProperties.AuxFits shows the fault never arises |
| Scanner.ConvertSigned | printf.c:146-184 | the calls of `d` and `i`: one call with the decimal text; negating the LONGEST_INT minimum is undefined. Stated exactly in PassProperties.IntDecimal |
| Scanner.ConvertUnsigned | printf.c:186-259 | the calls of `u`, `x`, `X` and `b`: prefix and text in one call, or for `b` the prefix call and then one call per bit. Stated in PassProperties.UIntHex, UIntDecimal, BinaryExact and BinaryOfPowerOfTwo |
| Scanner.ConvertArg | printf.c:145-277 | the calls of a conversion that reads an argument, including `s` (the string up to its NUL) and `c` (the value modulo 256). Stated in PassProperties.StringAndChar and HashIgnored |
| Scanner.TakesArgument | printf.c:145-277 | the codes with a `va_arg`: `d i u x X b s`, and `c` when FEATURE_CHAR is set. Stated in PassProperties.ConvertConsumes |
| Scanner.WidthsFit | printf.c:37-46 | every `int`, `long` and 16-bit value is a LONGEST_INT |
| Scanner.SignedArgFits | printf.c:152-178 | the number `d` and `i` read is a LONGEST_INT |
| Scanner.UnsignedArgFits | printf.c:204-231 | the number `u`, `x`, `X` and `b` read is a LONGEST_INT |
| Scanner.Convert | printf.c:143-289 | a successful conversion moves the cursor forward, to at most one past the terminator |
| Scanner.EmitSigned | printf.c:148-184 | the `d`/`i` branch emits exactly the calls of the conversion |
| Scanner.EmitUnsigned | printf.c:189-259 | the `u`/`x`/`X`/`b` branch emits exactly the calls of the conversion: prefix and text in one call, and the bits for `b` |
| Scanner.Dispatch | printf.c:145-288 | the switch emits the calls of Convert and leaves the cursor and argument index where Convert says |
| Scanner.Conversion | printf.c:93-289 | a directive emits its calls, and the rest of the pass continues from the cursor and argument it returns |
| Scanner.PrintfInner | printf.c:71-291 | for every format and argument list whose pass is defined, the sink calls are exactly those of Run |
| PassProperties.PlainLenToTerminator | printf.c:293-304 | without a `%`, the literal run reaches the terminator |
| PassProperties.LiteralOnly | printf.c:76-90 | a format without `%` is emitted in one call up to its NUL (none for an empty format), whatever the arguments |
| PassProperties.ScanRound | printf.c:78-91 | a round emits the literal run, taken from the start of the format as written or from the cursor under the corrected reading; it then stops at the NUL or parses the directive after the `%` |
| PassProperties.DirectiveTextEnds | printf.c:76-91 | a directive written as `%`, `#`, modifier and code ends after the code, or at the code when it is the NUL |
| PassProperties.DirectiveModifiers | printf.c:94-137 | the prefix offset is 2 exactly when `#` follows the `%`; `l`, `ll`, `h` and `hh` give longness 1, 2, -1 and -2 when the build recognises them and fall back otherwise; the code index is just past what was recognised, so an unrecognised modifier character becomes the code |
| PassProperties.UnknownDirective | printf.c:283-289 | an unknown code after any flag and modifiers is emitted with the character in front of it (the `%`, the `#` or a modifier), and the pass resumes after it with no argument used |
| PassProperties.ConvertConsumes | printf.c:145-289 | `d i u x X b s` (and `c` when built in) take exactly one argument and fail when none is left; every other code takes none and never fails |
| PassProperties.PercentPercent | printf.c:281-289 | `%%` emits `%` and the character after it, and resumes two characters on; at the end of the format it is undefined |
| PassProperties.UnknownCode | printf.c:283-287 | an unknown code right after `%` is emitted together with that `%`, and the pass resumes after it with no argument used |
| PassProperties.UnknownCodeAfterHash | printf.c:283-287 | after `#`, an unknown code is emitted together with the `#` instead |
| PassProperties.PlainConversion | printf.c:145-289 | a bare argument-taking code emits its conversion and resumes after it with the next argument |
| PassProperties.OneDirective | printf.c:93-137 | `%c` and `%#c` parse to prefix 0 or 2, no modifier, and the code as the last character |
| PassProperties.OnlyConversion | printf.c:71-291 | a format of one directive emits exactly its conversion |
| PassProperties.SignedNarrowing | printf.c:157-163 | `hh` and `h` on `d`/`i` keep the remainder modulo 256 and 65536, with the sign of the argument |
| PassProperties.UnsignedNarrowing | printf.c:209-216 | `hh` and `h` on unsigned codes keep the low 8 and 16 bits, and leave small values unchanged |
| PassProperties.StringAndChar | printf.c:263-277 | `%s` emits the string and `%c` emits the character of the value modulo 256, whatever the prefix and modifiers |
| PassProperties.IntCall | printf.c:148-182 | `%d` of an `int` is one emit of its decimal text, except the minimum of LONGEST_INT |
| PassProperties.UIntCall | printf.c:204-243 | `%u`, `%x` and `%X` of an `unsigned int` store it into LONGEST_INT first, then emit prefix and text in one call |
| PassProperties.IntDecimal | printf.c:148-184 | `%d` writes "0", the decimal numeral, or '-' and the numeral of the magnitude; the LONGEST_INT minimum is undefined |
| PassProperties.UIntHex | printf.c:189-243 | `%x` of an `unsigned int` writes the prefix and the hex text, which reads back as the value with two digits per byte |
| PassProperties.UIntDecimal | printf.c:194-243 | `%u` of an `unsigned int` that LONGEST_INT holds writes its decimal numeral, with "0x" in front when `#` is given |
| PassProperties.UIntWraps | printf.c:218-220 | with a 32-bit LONGEST_INT, `%u` of a value from 2^31 on behaves as `%d` of the value minus 2^32, and 2^31 itself is undefined |
| PassProperties.BinaryCall | printf.c:243-258 | `b` emits the prefix call, then one call per bit; a number above 2^(width-2) overflows the mask |
| PassProperties.BinaryExact | printf.c:244-258 | `b` of a number that is not a power of two emits its binary numeral, one digit per call |
| PassProperties.BinaryOfPowerOfTwo | printf.c:248-257 | `b` of 2^k emits k zeros after the prefix, without the leading '1' |
| PassProperties.SmallBinaryArg | printf.c:218-220 | an `unsigned int` up to 2^30 is read unchanged and does not overflow the mask |
| PassProperties.BinaryRun | printf.c:189-258 | `%b` and `%#b` of an `unsigned int` up to 2^30 emit the prefix and then the bits |
| PassProperties.BinaryOfSmall | printf.c:248-257 | `b` of 0 or 1 emits only the prefix call |
| PassProperties.HashIgnored | printf.c:145-184 | `#` changes nothing for `d`, `i`, `s` and `c` |
| PassProperties.HexPrefix | printf.c:197-201 | `#` puts "0x" in front of the single call of `u`, `x` and `X` |
| PassProperties.BinaryPrefix | printf.c:197-201 | `#` turns the empty first call of `b` into "0b" and leaves the bit calls alone |
| PassProperties.DecimalFits | printf.c:31 | a prefix and any decimal text fit in AUX_BUFFER_SIZE bytes when MAX_DIVIDER is at most 10^17 |
| PassProperties.HexFits | printf.c:31 | a prefix and the hex text of any LONGEST_INT fit in AUX_BUFFER_SIZE bytes |
| PassProperties.SignedFits | printf.c:181 | `d` and `i` never overflow aux_buffer |
| PassProperties.UnsignedFits | printf.c:237-243 | `u`, `x`, `X` and `b` never overflow aux_buffer |
| PassProperties.AuxFits | printf.c:73 | no conversion overflows aux_buffer |
| Scenarios.AboveMinimum | printf.c:306-312 | every `int` other than -2^31 can be negated in LONGEST_INT |
| Scenarios.NegativeDecimal | printf.c:306-312 | `%d` of -5 emits "-5" |
| Scenarios.HexOf255 | printf.c:341-361 | 255 is written in hex as "FF" |
| Scenarios.PrefixedHex | printf.c:189-243 | `%#x` of 255 emits "0xFF" in one call |
| Scenarios.BinaryFive | printf.c:244-258 | `%b` of 5 emits an empty call, then "1", "0", "1" |
| Scenarios.BinaryFour | printf.c:248-257 | `%b` of 4 emits an empty call, then "0", "0" |
| Scenarios.UnsignedMaxWraps | printf.c:218-220 | with a 32-bit LONGEST_INT, `%u` of 0xFFFFFFFF emits "-1" |
| Scenarios.TrailingPercentPercent | printf.c:281-289 | a format ending in `%%` runs past its terminator |
| Scenarios.PercentPercentTakesNext | printf.c:281-289 | `%%x` emits "%x" in one call |
| Scenarios.UnknownCodeWritten | printf.c:283-287 | `%q` emits "%q" |
| Scenarios.ModifierThenUnknown | printf.c:110-114 | `%lq` emits "lq": the unknown code goes out with the modifier |
| Scenarios.LongLongDirective | printf.c:115-121 | without FEATURE_64BIT, the second `l` of "%lld" is the code and is emitted as "ll" |
| Scenarios.LongLongTail | printf.c:79-83 | the `d` left after "%ll" is a literal run, emitted from the start of the format as "%" |
| Scenarios.LongLongDisabled | printf.c:115-121 | without FEATURE_64BIT, "%lld" with 5 emits "ll" and then "%", and reads no argument |
| Findings.LongLongTruncated | printf.c:28 | with FEATURE_64BIT, `%lld` of 10^10 emits an empty call: MAX_DIVIDER 10^9 drops the upper digits |
| Findings.LongTruncated | printf.c:41-42 | with FEATURE_32BIT alone and a 64-bit `long`, `%ld` of 10^10 also emits an empty call |
| Findings.Build64Intended | printf.c:27 | the FEATURE_64BIT build with MAX_DIVIDER 10^18, the largest power of ten below 2^63, is valid and has a 64-bit LONGEST_INT |
| Findings.LongLongExact | printf.c:319-337 | with MAX_DIVIDER 10^18, `%lld` of every `long long` except the minimum writes its exact decimal numeral |
| Findings.IntendedBitsExact | printf.c:244-258 | the corrected bits of every positive number are its binary numeral: they read back as the number and start with '1' |
| Findings.MaskAbove | printf.c:248-252 | the corrected first loop (`<=`) stops at the least power of two above the number |
| Findings.StreamBitsIntended | printf.c:244-258 | the corrected loops emit one call per bit of the binary numeral, powers of two included |
| Findings.LiteralScan | printf.c:79-83 | the pass over "a%db" emits "a", "7", then "a" as written, or "b" when runs are taken from the cursor |
| Findings.LiteralFromStart | printf.c:82 | as written, "a%db" with 7 emits "a", "7", "a": the trailing run is taken from the start of the format |
| Findings.LiteralFromCursor | printf.c:79-83 | taking runs from the cursor, "a%db" with 7 emits "a", "7", "b" |

## Left out

- The public `printf` and `printf_claim_stdio`/`printf_release_stdio` (printf.c:55-69) are left out. They acquire and release the sink, which is I/O. The model starts at `printf_inner`.
- The `emit` callback is not called. Each call is recorded as the string of bytes it is handed. Whatever the sink does with them is outside the model.
- `va_list` is a sequence of `Arg` with an index. The calling convention is not modelled, so a type mismatch or a missing argument is a fault and not a read of garbage.
- A NULL or unterminated `%s` argument is not modelled. A `Str` argument is a finite sequence, read up to its first NUL.
- Builds without FEATURE_32BIT (LONGEST_INT is `int` and MAX_DIVIDER is 10^4) are not modelled. In those builds `longness` is not declared (it is declared at printf.c:109, under FEATURE_32BIT), so the `switch (longness)` statements at printf.c:153 and printf.c:205 do not compile.
- `aux_buffer` and `&aux_buffer[prefix_offset]` are modelled as one array and an offset into it. No other pointer aliasing occurs.
- The C type of each variadic argument is not tracked. C requires the type read by `va_arg` to be compatible with the type passed, apart from signed and unsigned variants of the same type. The model accepts any integer whose value lies in the range of the type read, so `%ld` of an `int` is defined here but undefined in C.
- CInts.ToSigned fixes the implementation-defined conversion of an out-of-range `unsigned int` to `long` (printf.c:219) as the two's-complement wrap. A compiler may choose otherwise, or raise a signal.
- Scanner.PrintfInner models the literal runs as written, taken from the start of the format. The corrected reading exists only in the specification function `Scan` (its `fromCursor` flag) and in the Findings lemmas.
- Render.PlaceIntDec requires a value other than the LONGEST_INT minimum. The pass reports that value as `Undefined(NegatedMinimum)` instead of negating it.
- PassProperties.AuxFits (and likewise DecimalFits, SignedFits and UnsignedFits) is stated for MAX_DIVIDER up to 10^17. This covers both builds of the source (10^9). Under the corrected divider 10^18, `%#llu` of a negative `long long` near the minimum would need 22 bytes.
- PassProperties.BinaryRun is stated for `unsigned int` values up to 2^30, the range in which the mask loops cannot overflow in every build. Larger values are covered by `PassProperties.BinaryCall`.

## Findings

| source | as written | input that shows it | evidently intended | confidence | as-written member | corrected member |
|---|---|---|---|---|---|---|
| printf.c:28 | MAX_DIVIDER_UINT64 is 10^9, the same as the 32-bit divider, so place_int_dec only writes the value modulo 10^10 | `%lld` of 10000000000 with FEATURE_64BIT emits an empty fragment | 10^18, the largest power of ten that fits the signed LONGEST_INT, so that all 19 digits of a `long long` are written (MAX_N_DIGITS_UINT64 at line 27 allows 20 digits, but 10^19 does not fit). The same truncation hits `%ld` of 10^10 in the FEATURE_32BIT build with a 64-bit `long` (printf.c:41-42, MAX_DIVIDER_UINT32 = 10^9), shown by Findings.LongTruncated | high, not executed | Findings.LongLongTruncated | Findings.LongLongExact |
| printf.c:249 | the first mask loop stops when `mask` reaches the number, so for a power of two the second loop never emits the top bit | `%b` of 4 emits "0", "0" | `mask <= number`, so that 2^k emits "1" followed by k zeros | high, not executed | PassProperties.BinaryOfPowerOfTwo | Findings.StreamBitsIntended |
| printf.c:82 | every literal run is emitted from `format`, the start of the string, not from `cursor` | "a%db" with 7 emits "a", "7", "a" | `emit(cursor, len)`, giving "a", "7", "b" | high, not executed | Findings.LiteralFromStart | Findings.LiteralFromCursor |
