/** What the pass of printf_inner promises, stated over the specification
    functions of the Scanner module: literal runs, argument consumption,
    `%%` and unknown codes, the `#` prefixes, the numbers each conversion
    writes, and the bound on aux_buffer. */
module PassProperties {
  import opened CInts
  import opened Digits
  import opened Configuration
  import opened Render
  import opened Scanner

  // ----------------------------------------------------------- literal runs

  /** Without a `%`, plain_length runs all the way to the terminator. */
  lemma {:induction false} PlainLenToTerminator(format: string, c: nat)
    requires c <= Terminator(format)
    requires forall i | c <= i < Terminator(format) :: format[i] != '%'
    ensures PlainLen(format, c) == Terminator(format) - c
    decreases Terminator(format) - c
  {
    AtTerminator(format, c);
    if c < Terminator(format) {
      PlainLenToTerminator(format, c + 1);
    }
  }

  /** A format without a `%` is emitted as one literal run, the whole C
      string, or not at all when it is empty; then the pass returns. */
  lemma LiteralOnly(cfg: Config, format: string, args: seq<Arg>)
    requires cfg.Valid()
    requires forall i | 0 <= i < Terminator(format) :: format[i] != '%'
    ensures Run(cfg, format, args) == Emitted(if Terminator(format) == 0 then [] else [CString(format)])
  {
    PlainLenToTerminator(format, 0);
    AtTerminator(format, Terminator(format));
  }

  /** The pass returns at the first terminator without a further call when
      no `%` follows the literal run; otherwise it goes on with the
      directive after the `%`. The run is emitted from the start of the
      format as written, or from the cursor under the corrected reading. */
  lemma ScanRound(cfg: Config, format: string, args: seq<Arg>, cursor: nat, argi: nat, fromCursor: bool)
    requires cfg.Valid() && cursor <= Terminator(format)
    ensures var len := PlainLen(format, cursor);
      var run := if len == 0 then [] else [if fromCursor then format[cursor..cursor + len] else format[..len]];
      && (At(format, cursor + len) != '%' ==> At(format, cursor + len) == '\0' && cursor + len == Terminator(format))
      && Scan(cfg, format, args, cursor, argi, fromCursor)
         == if At(format, cursor + len) != '%' then Emitted(run)
            else Prepend(run, ScanDirective(cfg, format, args, cursor + len + 1, argi, fromCursor))
  {
    AtTerminator(format, cursor + PlainLen(format, cursor));
  }

  // -------------------------------------------------------------- arguments

  /** Each of `d i u x X b s` (and `c` when it is built in) consumes exactly
      one argument and fails when none is left; every other code consumes
      none and always succeeds. */
  lemma ConvertConsumes(cfg: Config, format: string, args: seq<Arg>, d: Directive, argi: nat)
    requires cfg.Valid() && 1 <= d.code <= Terminator(format)
    ensures var code := At(format, d.code);
      var r := Convert(cfg, format, args, d, argi);
      && (TakesArgument(cfg, code) && argi >= |args| ==> r == Fail(MissingArgument))
      && (!TakesArgument(cfg, code) ==> r.Ok? && r.value.argi == argi)
      && (TakesArgument(cfg, code) && r.Ok? ==> r.value.argi == argi + 1 && r.value.next == d.code + 1)
  {
  }

  /** `%%` moves the cursor on first, so it emits the second `%` and the
      character after it, and the final `cursor++` skips that character;
      a `%%` at the end of the format so runs past the terminator. */
  lemma PercentPercent(cfg: Config, format: string, args: seq<Arg>, start: nat, argi: nat, fromCursor: bool)
    requires cfg.Valid() && 1 <= start <= Terminator(format) && At(format, start) == '%'
    ensures start + 2 <= Terminator(format) + 1
    ensures ScanDirective(cfg, format, args, start, argi, fromCursor)
      == Prepend([['%', At(format, start + 1)]], Scan(cfg, format, args, start + 2, argi, fromCursor))
    ensures start + 1 == Terminator(format) ==> ScanDirective(cfg, format, args, start, argi, fromCursor) == Undefined(PastTerminator)
  {
    AtTerminator(format, start);
    var d := ParseDirective(cfg, format, start);
    assert d.code == start;
    assert ScanDirective(cfg, format, args, start, argi, fromCursor) == ScanConversion(cfg, format, args, d, argi, fromCursor);
  }

  /** A code printf_inner does not know, right after the `%`, is emitted
      together with the `%` as a two-character call. */
  lemma UnknownCode(cfg: Config, format: string, args: seq<Arg>, start: nat, argi: nat, fromCursor: bool)
    requires cfg.Valid() && 1 <= start <= Terminator(format) && At(format, start - 1) == '%'
    requires var c := At(format, start); c != '#' && c != 'l' && c != 'h' && c != '%' && !TakesArgument(cfg, c)
    ensures ScanDirective(cfg, format, args, start, argi, fromCursor)
      == Prepend([['%', At(format, start)]], Scan(cfg, format, args, start + 1, argi, fromCursor))
  {
    var d := ParseDirective(cfg, format, start);
    assert d.code == start;
    assert ScanDirective(cfg, format, args, start, argi, fromCursor) == ScanConversion(cfg, format, args, d, argi, fromCursor);
  }

  /** A conversion with no flag and no length modifier whose code reads an
      argument makes the calls of that argument's conversion, and the pass
      goes on after the code with the next argument. */
  lemma PlainConversion(cfg: Config, format: string, args: seq<Arg>, start: nat, argi: nat, fromCursor: bool)
    requires cfg.Valid() && 1 <= start <= Terminator(format) && TakesArgument(cfg, At(format, start)) && argi < |args|
    requires ConvertArg(cfg, 0, 0, At(format, start), args[argi]).Ok?
    ensures ScanDirective(cfg, format, args, start, argi, fromCursor)
      == Prepend(ConvertArg(cfg, 0, 0, At(format, start), args[argi]).value, Scan(cfg, format, args, start + 1, argi + 1, fromCursor))
  {
    var d := ParseDirective(cfg, format, start);
    assert d == Directive(0, 0, start);
    assert ScanDirective(cfg, format, args, start, argi, fromCursor) == ScanConversion(cfg, format, args, d, argi, fromCursor);
  }

  /** The format of one conversion: it ends after the code, and its
      directive is the `#` flag or nothing, then the code. */
  lemma OneDirective(cfg: Config, hash: bool, c: char)
    requires cfg.Valid() && TakesArgument(cfg, c)
    ensures var f := ['%'] + (if hash then ['#'] else []) + [c];
      Terminator(f) == |f| && ParseDirective(cfg, f, 1) == Directive(if hash then 2 else 0, 0, |f| - 1)
  {
    var f := ['%'] + (if hash then ['#'] else []) + [c];
    assert c != '\0' && c != '#' && c != 'l' && c != 'h';
    assert At(f, |f| - 1) == c;
    if hash {
      assert f == ['%', '#', c];
      assert NulFrom(f, 2) == 3;
      assert NulFrom(f, 1) == 3;
    } else {
      assert f == ['%', c];
      assert NulFrom(f, 1) == 2;
    }
  }

  /** A directive written out: `%`, `#` when hash is set, the length
      modifier m, then the character c. */
  function DirectiveText(hash: bool, m: string, c: char): (f: string)
    ensures |f| == (if hash then 3 else 2) + |m|
  {
    ['%'] + (if hash then ['#'] else []) + m + [c]
  }

  /** A directive text ends at c, or just before it when c is the NUL. */
  lemma DirectiveTextEnds(hash: bool, m: string, c: char)
    requires '\0' !in m
    ensures var f := DirectiveText(hash, m, c);
      Terminator(f) == if c == '\0' then |f| - 1 else |f|
  {
    var f := DirectiveText(hash, m, c);
    assert forall k | 0 <= k < |f| - 1 :: f[k] != '\0';
    NulFromSkip(f, 0, |f| - 1);
  }

  /** What the flag and the length modifiers mean (printf.c:94-137): `#`
      sets the prefix offset to 2; `l`, `ll`, `h` and `hh` give longness
      1, 2, -1 and -2 when the build recognises them; the code is the first
      character after what was recognised, so a modifier character the
      build does not know becomes the code itself. */
  lemma DirectiveModifiers(cfg: Config, hash: bool, m: string, c: char)
    requires cfg.Valid() && m in ["", "l", "ll", "h", "hh"] && c != '#' && c != 'l' && c != 'h'
    ensures var f := DirectiveText(hash, m, c);
      var h := if hash then 1 else 0;
      1 <= Terminator(f) &&
      (var d := ParseDirective(cfg, f, 1);
       && d.prefix == (if hash then 2 else 0)
       && (m == "" ==> d.longness == 0 && d.code == 1 + h)
       && (m == "l" ==> d.longness == 1 && d.code == 2 + h)
       && (m == "ll" ==>
            if cfg.withLongLong then d.longness == 2 && d.code == 3 + h
            else d.longness == 1 && d.code == 2 + h)
       && (m == "h" ==>
            if cfg.withShort then d.longness == -1 && d.code == 2 + h
            else d.longness == 0 && d.code == 1 + h)
       && (m == "hh" ==>
            if cfg.withShort && cfg.withChar then d.longness == -2 && d.code == 3 + h
            else if cfg.withShort then d.longness == -1 && d.code == 2 + h
            else d.longness == 0 && d.code == 1 + h)
       && (At(f, d.code) == c <==> d.code == |f| - 1))
  {
    var f := DirectiveText(hash, m, c);
    var h := if hash then 1 else 0;
    DirectiveTextEnds(hash, m, c);
    assert f[0] == '%' && f[|f| - 1] == c;
    assert hash ==> f[1] == '#';
    assert forall j | 0 <= j < |m| :: f[1 + h + j] == m[j];
  }

  /** A code printf_inner does not know, wherever the flag and modifiers
      leave it, is emitted together with the character in front of it (the
      `%`, the `#` or the last modifier), and the pass resumes after it
      with no argument used (printf.c:283-289). */
  lemma UnknownDirective(cfg: Config, format: string, args: seq<Arg>, start: nat, argi: nat, fromCursor: bool)
    requires cfg.Valid() && 1 <= start <= Terminator(format)
    requires var c := At(format, ParseDirective(cfg, format, start).code); c != '%' && !TakesArgument(cfg, c)
    ensures var d := ParseDirective(cfg, format, start);
      ScanDirective(cfg, format, args, start, argi, fromCursor)
      == Prepend([[At(format, d.code - 1), At(format, d.code)]], Scan(cfg, format, args, d.code + 1, argi, fromCursor))
    ensures At(format, start - 1) == '%' ==> At(format, ParseDirective(cfg, format, start).code - 1) in "%#lh"
  {
    var d := ParseDirective(cfg, format, start);
    assert ScanDirective(cfg, format, args, start, argi, fromCursor) == ScanConversion(cfg, format, args, d, argi, fromCursor);
  }

  /** A format that is one conversion of an argument, with `#` or without
      it, makes exactly that conversion's calls. */
  lemma OnlyConversion(cfg: Config, hash: bool, c: char, a: Arg)
    requires cfg.Valid() && TakesArgument(cfg, c) && ConvertArg(cfg, if hash then 2 else 0, 0, c, a).Ok?
    ensures Run(cfg, ['%'] + (if hash then ['#'] else []) + [c], [a]) == Emitted(ConvertArg(cfg, if hash then 2 else 0, 0, c, a).value)
  {
    var f, args := ['%'] + (if hash then ['#'] else []) + [c], [a];
    var code := |f| - 1;
    OneDirective(cfg, hash, c);
    var d := ParseDirective(cfg, f, 1);
    var calls := ConvertArg(cfg, d.prefix, 0, c, a).value;
    var rest := Scan(cfg, f, args, code + 1, 1, false);
    ScanRound(cfg, f, args, code + 1, 1, false);
    assert rest == Emitted([]);
    assert ScanDirective(cfg, f, args, 1, 0, false) == ScanConversion(cfg, f, args, d, 0, false);
    assert ScanDirective(cfg, f, args, 1, 0, false) == Prepend(calls, rest);
    ScanRound(cfg, f, args, 0, 0, false);
    assert PlainLen(f, 0) == 0;
  }

  /** After a `#`, an unknown code is emitted together with the `#`, not
      with the `%`. */
  lemma UnknownCodeAfterHash(cfg: Config, format: string, args: seq<Arg>, start: nat, argi: nat, fromCursor: bool)
    requires cfg.Valid() && 1 <= start <= Terminator(format) && At(format, start) == '#'
    requires var c := At(format, start + 1); c != 'l' && c != 'h' && c != '%' && !TakesArgument(cfg, c)
    ensures start + 1 <= Terminator(format)
    ensures ScanDirective(cfg, format, args, start, argi, fromCursor)
      == Prepend([['#', At(format, start + 1)]], Scan(cfg, format, args, start + 2, argi, fromCursor))
  {
    AtTerminator(format, start);
    var d := ParseDirective(cfg, format, start);
    assert d.code == start + 1;
    assert ScanDirective(cfg, format, args, start, argi, fromCursor) == ScanConversion(cfg, format, args, d, argi, fromCursor);
  }

  /** `hh` and `h` narrow the `int` argument of `d` and `i` with C's
      remainder: the sign is kept and the magnitude stays below the
      modulus. */
  lemma SignedNarrowing(cfg: Config, longness: int, v: int)
    requires cfg.Valid() && (longness == -2 || longness == -1) && InInt(v)
    ensures var m := if longness == -2 then 0x100 else 0x1_0000;
      var r := SignedArg(cfg, longness, Int(v));
      && r.Ok?
      && -m < r.value < m
      && (v >= 0 ==> r.value >= 0) && (v < 0 ==> r.value <= 0)
      && (v - r.value) % m == 0
  {
    CRemCongruent(v, 0x100);
    CRemCongruent(v, 0x1_0000);
  }

  /** `hh` and `h` mask the `unsigned int` argument of `u`, `x`, `X` and
      `b` with `& 0xff` and `& 0xffff`: the low byte or the low two bytes. */
  lemma UnsignedNarrowing(cfg: Config, longness: int, v: int)
    requires cfg.Valid() && (longness == -2 || longness == -1) && InUInt(v)
    ensures var m := if longness == -2 then 0x100 else 0x1_0000;
      var r := UnsignedArg(cfg, longness, Int(v));
      && r.Ok?
      && 0 <= r.value < m
      && (v - r.value) % m == 0
      && (v < m ==> r.value == v)
  {
    MultipleDiff(v, 0x100);
    MultipleDiff(v, 0x1_0000);
  }

  /** A string argument is emitted whole, in one call, when it holds no
      NUL; `c` emits exactly one character. */
  lemma StringAndChar(cfg: Config, prefix: nat, longness: int, t: string, v: int)
    requires cfg.Valid() && '\0' !in t
    ensures ConvertArg(cfg, prefix, longness, 's', Str(t)) == Ok([t])
    ensures cfg.withChar && InInt(v) ==> ConvertArg(cfg, prefix, longness, 'c', Int(v)) == Ok([[(v % 0x100) as char]])
  {
    assert Terminator(t) == |t|;
    assert t[..|t|] == t;
  }

  // ------------------------------------------------------- numbers written

  /** With MAX_DIVIDER at least 10^9, the decimal loop sees every digit of
      a 32-bit value. */
  lemma TenDigits(e: nat)
    requires e >= 9
    ensures 0x1_0000_0000 < Pow(10, e + 1)
  {
    PowValues();
    PowMonotone(10, 10, e + 1);
  }

  /** The `d` and `i` conversions of an `int`, before the rendering. */
  lemma IntCall(cfg: Config, prefix: nat, code: char, v: int)
    requires cfg.Valid() && (code == 'd' || code == 'i') && InInt(v)
    ensures ConvertArg(cfg, prefix, 0, code, Int(v))
      == if v == LongestMin(cfg) then Fail(NegatedMinimum) else AuxCall(0, 'd', DecText(cfg.dividerExp, v))
  {
  }

  /** The `u`, `x` and `X` conversions of an `unsigned int`, before the
      rendering: the value is first converted to LONGEST_INT. */
  lemma UIntCall(cfg: Config, prefix: nat, code: char, v: int)
    requires cfg.Valid() && (code == 'u' || code == 'x' || code == 'X') && InUInt(v)
    ensures var n := ToSigned(cfg.LongestBits(), v);
      ConvertArg(cfg, prefix, 0, code, Int(v))
      == if code != 'u' then AuxCall(prefix, code, HexText(ToUnsigned(cfg.LongestBits(), n)))
         else if n == LongestMin(cfg) then Fail(NegatedMinimum)
         else AuxCall(prefix, code, DecText(cfg.dividerExp, n))
  {
  }

  /** `%d` and `%i` of an `int` emit its exact decimal numeral, with a '-'
      in front when it is negative, whenever MAX_DIVIDER is at least 10^9
      as in the source; only the smallest LONGEST_INT is refused. */
  lemma IntDecimal(cfg: Config, prefix: nat, code: char, v: int)
    requires cfg.Valid() && cfg.dividerExp >= 9 && (code == 'd' || code == 'i') && InInt(v)
    ensures v == LongestMin(cfg) ==> ConvertArg(cfg, prefix, 0, code, Int(v)) == Fail(NegatedMinimum)
    ensures v != LongestMin(cfg) ==>
      ConvertArg(cfg, prefix, 0, code, Int(v)) == Ok([if v < 0 then ['-'] + Numeral(10, -v) else if v == 0 then "0" else Numeral(10, v)])
  {
    var t := DecText(cfg.dividerExp, v);
    IntCall(cfg, prefix, code, v);
    TenDigits(cfg.dividerExp);
    DecTextExact(cfg.dividerExp, v);
    assert PrefixText(0, 'd') + t == t;
  }

  /** `%x` and `%X` of an `unsigned int` emit its hexadecimal digits, two
      per significant byte, which read back as the value; the `#` prefix
      adds "0x". */
  lemma UIntHex(cfg: Config, prefix: nat, code: char, v: int)
    requires cfg.Valid() && (prefix == 0 || prefix == 2) && (code == 'x' || code == 'X') && InUInt(v)
    ensures ConvertArg(cfg, prefix, 0, code, Int(v)) == Ok([PrefixText(prefix, code) + HexText(v)])
    ensures Value(16, HexText(v)) == v && |HexText(v)| == 2 * SigBytes(v)
  {
    var bits := cfg.LongestBits();
    UIntCall(cfg, prefix, code, v);
    PowInt();
    PowMonotone(2, 32, bits);
    ToUnsignedOfSigned(bits, v);
    HexTextLength(32, v);
    HexTextRoundTrip(v);
  }

  /** `%u` of an `unsigned int` emits its decimal numeral when LONGEST_INT
      is 64 bits wide, or when the value is below 2^31. With `#`, the "0x"
      prefix is written in front of the decimal digits (printf.c:197-201). */
  lemma UIntDecimal(cfg: Config, prefix: nat, v: int)
    requires cfg.Valid() && cfg.dividerExp >= 9 && (prefix == 0 || prefix == 2) && InUInt(v)
    requires cfg.LongestBits() == 64 || v < 0x8000_0000
    ensures ConvertArg(cfg, prefix, 0, 'u', Int(v)) == Ok([PrefixText(prefix, 'u') + (if v == 0 then "0" else Numeral(10, v))])
  {
    var e, bits := cfg.dividerExp, cfg.LongestBits();
    UIntCall(cfg, prefix, 'u', v);
    TenDigits(e);
    PowInt();
    PowMonotone(2, 31, bits - 1);
    if bits == 64 {
      PowMonotone(2, 32, 63);
    }
    assert ToSigned(bits, v) == v;
    DecTextExact(e, v);
  }

  /** When LONGEST_INT is 32 bits wide, `%u` converts the `unsigned int` to
      it first (printf.c:219), so a value from 2^31 on is written exactly as
      `%d` writes the negative `int` it wraps to; 2^31 itself is the minimum
      that place_int_dec cannot negate. */
  lemma UIntWraps(cfg: Config, v: int)
    requires cfg.Valid() && cfg.LongestBits() == 32 && 0x8000_0000 <= v < 0x1_0000_0000
    ensures ConvertArg(cfg, 0, 0, 'u', Int(v)) == ConvertArg(cfg, 0, 0, 'd', Int(v - 0x1_0000_0000))
    ensures v == 0x8000_0000 ==> ConvertArg(cfg, 0, 0, 'u', Int(v)) == Fail(NegatedMinimum)
  {
    PowInt();
    UIntCall(cfg, 0, 'u', v);
    IntCall(cfg, 0, 'd', v - 0x1_0000_0000);
    ToSignedOfUnsigned(32, v);
  }

  /** The `b` conversion of a number it has read, before the bits are looked at. */
  lemma BinaryCall(cfg: Config, prefix: nat, longness: int, a: Arg, n: int)
    requires cfg.Valid() && UnsignedArg(cfg, longness, a) == Ok(n)
    ensures ConvertUnsigned(cfg, prefix, longness, 'b', a)
      == if n > Pow(2, cfg.LongestBits() - 2) then Fail(MaskOverflow) else Ok([PrefixText(prefix, 'b')] + Singletons(BinBits(n)))
  {
  }

  /** `%b` of any n from 3 up that is not a power of two streams exactly the
      binary numeral of n, one single-bit call per digit, after the prefix
      call. */
  lemma BinaryExact(cfg: Config, prefix: nat, longness: int, a: Arg, n: int)
    requires cfg.Valid() && UnsignedArg(cfg, longness, a) == Ok(n) && n <= Pow(2, cfg.LongestBits() - 2)
    requires n >= 1 && forall k: nat :: Pow(2, k) != n
    ensures ConvertUnsigned(cfg, prefix, longness, 'b', a) == Ok([PrefixText(prefix, 'b')] + Singletons(Numeral(2, n)))
    ensures Value(2, Numeral(2, n)) == n
  {
    BinaryCall(cfg, prefix, longness, a, n);
    BinBitsExact(n);
  }

  /** `%b` of a power of two 2^k streams k zeros: the mask loop stops at
      2^k, so the top bit is never emitted (printf.c:249). */
  lemma BinaryOfPowerOfTwo(cfg: Config, prefix: nat, longness: int, a: Arg, k: nat)
    requires cfg.Valid() && k >= 1 && UnsignedArg(cfg, longness, a) == Ok(Pow(2, k)) && k <= cfg.LongestBits() - 2
    ensures ConvertUnsigned(cfg, prefix, longness, 'b', a) == Ok([PrefixText(prefix, 'b')] + Singletons(Zeros(k)))
  {
    PowMonotone(2, k, cfg.LongestBits() - 2);
    BinaryCall(cfg, prefix, longness, a, Pow(2, k));
    BinBitsOfPowerOfTwo(k);
  }

  /** An `unsigned int` up to 2^30 is read unchanged and fits the mask loops. */
  lemma SmallBinaryArg(cfg: Config, n: int)
    requires cfg.Valid() && 0 <= n <= 0x4000_0000
    ensures UnsignedArg(cfg, 0, Int(n)) == Ok(n) && n <= Pow(2, cfg.LongestBits() - 2)
  {
    PowInt();
    PowMonotone(2, 31, cfg.LongestBits() - 1);
    PowMonotone(2, 30, cfg.LongestBits() - 2);
    assert Pow(2, 31) == 2 * Pow(2, 30);
  }

  /** A format that is `%b`, with `#` or without it, of an `unsigned int`
      up to 2^30 makes the prefix call and then one call per bit the mask
      loops stream. */
  lemma BinaryRun(cfg: Config, hash: bool, n: int)
    requires cfg.Valid() && 0 <= n <= 0x4000_0000
    ensures Run(cfg, ['%'] + (if hash then ['#'] else []) + ['b'], [Int(n)])
      == Emitted([PrefixText(if hash then 2 else 0, 'b')] + Singletons(BinBits(n)))
  {
    var prefix := if hash then 2 else 0;
    SmallBinaryArg(cfg, n);
    BinaryCall(cfg, prefix, 0, Int(n), n);
    assert ConvertArg(cfg, prefix, 0, 'b', Int(n)) == ConvertUnsigned(cfg, prefix, 0, 'b', Int(n));
    OnlyConversion(cfg, hash, 'b', Int(n));
  }

  /** `%b` of 1, 0 or a negative number streams no bits at all: only the
      prefix call is made. */
  lemma BinaryOfSmall(cfg: Config, prefix: nat, longness: int, a: Arg)
    requires cfg.Valid() && UnsignedArg(cfg, longness, a).Ok? && UnsignedArg(cfg, longness, a).value <= 1
    ensures ConvertUnsigned(cfg, prefix, longness, 'b', a) == Ok([PrefixText(prefix, 'b')])
  {
    var n := UnsignedArg(cfg, longness, a).value;
    PowMonotone(2, 0, cfg.LongestBits() - 2);
    BinaryCall(cfg, prefix, longness, a, n);
    BinBitsOfSmall(n);
    assert [PrefixText(prefix, 'b')] + Singletons(BinBits(n)) == [PrefixText(prefix, 'b')];
  }

  // --------------------------------------------------------------- prefixes

  /** `#` has no effect on `d`, `i`, `s` and `c`. */
  lemma HashIgnored(cfg: Config, longness: int, code: char, a: Arg)
    requires cfg.Valid() && TakesArgument(cfg, code) && code !in "uxXb"
    ensures ConvertArg(cfg, 2, longness, code, a) == ConvertArg(cfg, 0, longness, code, a)
  {
  }

  /** With `#`, `u`, `x` and `X` emit "0x" in front of the same rendering,
      in the same call. */
  lemma HexPrefix(cfg: Config, longness: int, code: char, a: Arg)
    requires cfg.Valid() && code in "uxX" && ConvertUnsigned(cfg, 2, longness, code, a).Ok?
    ensures ConvertUnsigned(cfg, 0, longness, code, a).Ok?
    ensures |ConvertUnsigned(cfg, 0, longness, code, a).value| == 1
    ensures ConvertUnsigned(cfg, 2, longness, code, a).value == [['0', 'x'] + ConvertUnsigned(cfg, 0, longness, code, a).value[0]]
  {
    var n := UnsignedArg(cfg, longness, a).value;
    var text := if code == 'u' then DecText(cfg.dividerExp, n) else HexText(ToUnsigned(cfg.LongestBits(), n));
    assert ConvertUnsigned(cfg, 2, longness, code, a) == AuxCall(2, code, text);
    assert ConvertUnsigned(cfg, 0, longness, code, a) == AuxCall(0, code, text);
    assert PrefixText(0, code) + text == text;
  }

  /** With `#`, `b` first emits "0b" instead of an empty call, and then
      the same bits. */
  lemma BinaryPrefix(cfg: Config, longness: int, a: Arg)
    requires cfg.Valid() && ConvertUnsigned(cfg, 0, longness, 'b', a).Ok?
    ensures ConvertUnsigned(cfg, 2, longness, 'b', a).Ok?
    ensures var plain := ConvertUnsigned(cfg, 0, longness, 'b', a).value;
      && |plain| >= 1 && plain[0] == []
      && ConvertUnsigned(cfg, 2, longness, 'b', a).value == [['0', 'b']] + plain[1..]
  {
  }

  // ----------------------------------------------------------- buffer bound

  /** The decimal text, with or without a prefix, fits in aux_buffer. */
  lemma DecimalFits(cfg: Config, prefix: nat, n: int)
    requires cfg.dividerExp <= 17 && prefix <= 2
    ensures prefix + |DecText(cfg.dividerExp, n)| <= AuxBufferSize
  {
    DecTextLength(cfg.dividerExp, n);
  }

  /** The hexadecimal text of a LONGEST_INT, with or without a prefix, fits
      in aux_buffer. */
  lemma HexFits(cfg: Config, prefix: nat, n: int)
    requires cfg.Valid() && prefix <= 2
    ensures prefix + |HexText(ToUnsigned(cfg.LongestBits(), n))| <= AuxBufferSize
  {
    HexTextLength(cfg.LongestBits(), ToUnsigned(cfg.LongestBits(), n));
  }

  /** `d` and `i` never overrun aux_buffer. */
  lemma SignedFits(cfg: Config, longness: int, a: Arg)
    requires cfg.Valid() && cfg.dividerExp <= 17
    ensures ConvertSigned(cfg, longness, a) != Fail(AuxOverflow)
  {
    var r := SignedArg(cfg, longness, a);
    if r.Ok? {
      DecimalFits(cfg, 0, r.value);
    }
  }

  /** `u`, `x`, `X` and `b` never overrun aux_buffer, prefix included. */
  lemma UnsignedFits(cfg: Config, prefix: nat, longness: int, code: char, a: Arg)
    requires cfg.Valid() && cfg.dividerExp <= 17 && prefix <= 2
    ensures ConvertUnsigned(cfg, prefix, longness, code, a) != Fail(AuxOverflow)
  {
    var r := UnsignedArg(cfg, longness, a);
    if r.Ok? {
      DecimalFits(cfg, prefix, r.value);
      HexFits(cfg, prefix, r.value);
    }
  }

  /** No rendering overruns aux_buffer: with MAX_DIVIDER at most 10^17 (the
      source uses 10^9), the prefix and the decimal or hexadecimal text
      always fit in its AUX_BUFFER_SIZE bytes. */
  lemma AuxFits(cfg: Config, prefix: nat, longness: int, code: char, a: Arg)
    requires cfg.Valid() && cfg.dividerExp <= 17 && (prefix == 0 || prefix == 2) && TakesArgument(cfg, code)
    ensures ConvertArg(cfg, prefix, longness, code, a) != Fail(AuxOverflow)
  {
    SignedFits(cfg, longness, a);
    UnsignedFits(cfg, prefix, longness, code, a);
  }
}
