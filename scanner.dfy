/** The scanner of printf_inner (printf.c:71-291) and plain_length
    (printf.c:293-304). One pass over the format string emits the literal
    runs and, for every `%` directive, the fragments of its conversion, as
    a sequence of sink calls. The pass is specified by the function Run;
    the method PrintfInner computes the same calls with the source's
    cursor loop and scratch buffer. */
module Scanner {
  import opened CInts
  import opened Digits
  import opened Configuration
  import opened Render

  /** A variadic argument: an integer of whatever type the caller passed,
      or a string (a `const char *`). */
  datatype Arg = Int(value: int) | Str(text: string)

  /** The ways a pass can run into undefined behaviour. */
  datatype Fault =
    | NegatedMinimum     // place_int_dec negates the minimum of LONGEST_INT (printf.c:311)
    | MaskOverflow       // the binary mask is shifted out of LONGEST_INT (printf.c:251)
    | PastTerminator     // the cursor has moved past the NUL (printf.c:282, 289)
    | MissingArgument    // va_arg with no argument left
    | ArgumentMismatch   // va_arg at a type the argument does not have
    | AuxOverflow        // a rendering longer than aux_buffer

  datatype Result<T> = Ok(value: T) | Fail(fault: Fault)

  /** What a whole pass does: the sink calls in order, or undefined behaviour. */
  datatype Outcome = Emitted(calls: seq<string>) | Undefined(fault: Fault)

  /** A pass that makes the given calls first and then goes on as o. */
  function Prepend(calls: seq<string>, o: Outcome): (r: Outcome)
    ensures o.Undefined? ==> r == o
    ensures o.Emitted? ==> r == Emitted(calls + o.calls)
  {
    match o
    case Emitted(rest) => Emitted(calls + rest)
    case Undefined(_) => o
  }

  lemma PrependTwice(a: seq<string>, b: seq<string>, o: Outcome)
    ensures Prepend(a, Prepend(b, o)) == Prepend(a + b, o)
  {
    if o.Emitted? {
      assert a + (b + o.calls) == (a + b) + o.calls;
    }
  }

  // ---------------------------------------------------------- format string

  /** The index of the first NUL at or after position i, or the end of s. */
  function NulFrom(s: string, i: nat): (t: nat)
    requires i <= |s|
    ensures i <= t <= |s|
    ensures t < |s| ==> s[t] == '\0'
    decreases |s| - i
  {
    if i == |s| || s[i] == '\0' then i else NulFrom(s, i + 1)
  }

  /** No NUL comes before the one NulFrom finds. */
  lemma {:induction false} NulFromFirst(s: string, i: nat, j: nat)
    requires i <= j < |s| && j < NulFrom(s, i)
    ensures s[j] != '\0'
    decreases j - i
  {
    if i < j {
      assert NulFrom(s, i) == NulFrom(s, i + 1);
      NulFromFirst(s, i + 1, j);
    }
  }

  /** NulFrom passes over a stretch without NUL. */
  lemma {:induction false} NulFromSkip(s: string, i: nat, j: nat)
    requires i <= j <= |s| && forall k | i <= k < j :: s[k] != '\0'
    ensures NulFrom(s, i) == NulFrom(s, j)
    decreases j - i
  {
    if i < j {
      NulFromSkip(s, i + 1, j);
    }
  }

  /** Where the C string s ends: its first NUL, or the end of the sequence. */
  function Terminator(s: string): nat
  {
    NulFrom(s, 0)
  }

  /** The character `*cursor` reads at index i: the terminator stands in
      for everything from the end of the sequence on. */
  function At(s: string, i: nat): char
  {
    if i < |s| then s[i] else '\0'
  }

  /** The only NUL up to the terminator is the terminator itself. */
  lemma AtTerminator(s: string, i: nat)
    requires i <= Terminator(s)
    ensures At(s, i) == '\0' <==> i == Terminator(s)
  {
    if i < Terminator(s) {
      NulFromFirst(s, 0, i);
    }
  }

  /** The text of a string argument, up to its first NUL (what `strlen`
      counts at printf.c:264). */
  function CString(s: string): (r: string)
    ensures '\0' !in r
  {
    var t := Terminator(s);
    assert forall i | 0 <= i < t :: s[..t][i] != '\0' by {
      forall i | 0 <= i < t {
        NulFromFirst(s, 0, i);
      }
    }
    s[..t]
  }

  // ----------------------------------------------------------- literal runs

  /** plain_length (printf.c:293-304) as a function: the number of
      characters from position c up to the first `%` or the terminator. */
  function PlainLen(format: string, c: nat): (len: nat)
    requires c <= Terminator(format)
    ensures c + len <= Terminator(format)
    ensures At(format, c + len) == '%' || At(format, c + len) == '\0'
    decreases Terminator(format) - c
  {
    AtTerminator(format, c);
    if At(format, c) == '\0' || At(format, c) == '%' then 0 else 1 + PlainLen(format, c + 1)
  }

  /** A literal run holds neither `%` nor NUL. */
  lemma {:induction false} PlainLenPlain(format: string, c: nat, i: nat)
    requires c <= Terminator(format) && c <= i < c + PlainLen(format, c)
    ensures At(format, i) != '%' && At(format, i) != '\0'
    decreases i - c
  {
    AtTerminator(format, c);
    if c < i {
      PlainLenPlain(format, c + 1, i);
    }
  }

  /** plain_length (printf.c:293-304): walks from start to the first `%`
      or NUL and returns the distance. */
  method PlainLength(format: string, start: nat) returns (len: nat)
    requires start <= Terminator(format)
    ensures len == PlainLen(format, start)
  {
    var ch := start;
    while true
      invariant start <= ch <= Terminator(format)
      invariant PlainLen(format, start) == (ch - start) + PlainLen(format, ch)
      decreases Terminator(format) - ch
    {
      AtTerminator(format, ch);
      if At(format, ch) == '\0' || At(format, ch) == '%' {
        return ch - start;
      }
      ch := ch + 1;
    }
  }

  /** The sink call for a literal run of len characters found at cursor.
      The source passes `format`, the start of the whole format string,
      rather than `cursor` (printf.c:82); fromCursor selects the evidently
      intended text instead. */
  function LiteralRun(format: string, cursor: nat, len: nat, fromCursor: bool): seq<string>
    requires cursor + len <= |format|
  {
    if len == 0 then [] else if fromCursor then [format[cursor..cursor + len]] else [format[..len]]
  }

  // ------------------------------------------------------------- directives

  /** What printf_inner reads between `%` and the conversion code: `#`
      sets the prefix offset to 2, and the modifiers make up longness
      (printf.c:94-137); code is the index of the conversion character. */
  datatype Directive = Directive(prefix: nat, longness: int, code: nat)

  /** Skips one optional character that the build recognises. */
  function Accept(format: string, i: nat, enabled: bool, c: char): nat
  {
    if enabled && At(format, i) == c then i + 1 else i
  }

  /** Skipping a character other than NUL never passes the terminator. */
  lemma AcceptBound(format: string, i: nat, enabled: bool, c: char)
    requires i <= Terminator(format) && c != '\0'
    ensures i <= Accept(format, i, enabled, c) <= Terminator(format)
  {
    AtTerminator(format, i);
  }

  /** The directive that starts at index start, just after the `%`. */
  function ParseDirective(cfg: Config, format: string, start: nat): (d: Directive)
    requires start <= Terminator(format)
    ensures start <= d.code <= Terminator(format)
    ensures d.prefix == 0 || d.prefix == 2
    ensures -2 <= d.longness <= 2
  {
    var i0 := Accept(format, start, true, '#');
    var i1 := Accept(format, i0, true, 'l');
    var i2 := Accept(format, i1, cfg.withLongLong, 'l');
    var i3 := Accept(format, i2, cfg.withShort, 'h');
    var i4 := Accept(format, i3, cfg.withShort && cfg.withChar, 'h');
    AcceptBound(format, start, true, '#');
    AcceptBound(format, i0, true, 'l');
    AcceptBound(format, i1, cfg.withLongLong, 'l');
    AcceptBound(format, i2, cfg.withShort, 'h');
    AcceptBound(format, i3, cfg.withShort && cfg.withChar, 'h');
    Directive(if i0 > start then 2 else 0, (i2 - i0) - (i4 - i2), i4)
  }

  /** The parsing steps of printf_inner (printf.c:94-137) from the index
      just after the `%`. */
  method ReadDirective(cfg: Config, format: string, start: nat) returns (prefixOffset: nat, longness: int, cursor: nat)
    requires start <= Terminator(format)
    ensures Directive(prefixOffset, longness, cursor) == ParseDirective(cfg, format, start)
  {
    cursor := start;
    prefixOffset := 0;
    if At(format, cursor) == '#' {
      prefixOffset := 2;
      cursor := cursor + 1;
    }
    ghost var i0 := cursor;
    assert i0 == Accept(format, start, true, '#');
    longness := 0;
    if At(format, cursor) == 'l' {
      longness := longness + 1;
      cursor := cursor + 1;
    }
    ghost var i1 := cursor;
    assert i1 == Accept(format, i0, true, 'l');
    if cfg.withLongLong && At(format, cursor) == 'l' {
      longness := longness + 1;
      cursor := cursor + 1;
    }
    ghost var i2 := cursor;
    assert i2 == Accept(format, i1, cfg.withLongLong, 'l') && longness == i2 - i0;
    if cfg.withShort && At(format, cursor) == 'h' {
      longness := longness - 1;
      cursor := cursor + 1;
    }
    ghost var i3 := cursor;
    assert i3 == Accept(format, i2, cfg.withShort, 'h');
    if cfg.withShort && cfg.withChar && At(format, cursor) == 'h' {
      longness := longness - 1;
      cursor := cursor + 1;
    }
    assert cursor == Accept(format, i3, cfg.withShort && cfg.withChar, 'h');
  }

  // -------------------------------------------------------------- arguments

  /** The range of `int`, and of `unsigned int`, both 32 bits wide. */
  predicate InInt(v: int)
  {
    -0x8000_0000 <= v < 0x8000_0000
  }

  predicate InUInt(v: int)
  {
    0 <= v < 0x1_0000_0000
  }

  /** The smallest LONGEST_INT, the one value place_int_dec cannot negate. */
  function LongestMin(cfg: Config): int
    requires cfg.Valid()
  {
    -(Pow(2, cfg.LongestBits() - 1) as int)
  }

  /** Every `int` is a LONGEST_INT, and so is every `long`. */
  lemma WidthsFit(cfg: Config, v: int)
    requires cfg.Valid()
    ensures InInt(v) ==> InSigned(cfg.LongestBits(), v)
    ensures InSigned(cfg.longBits, v) ==> InSigned(cfg.LongestBits(), v)
    ensures 0 <= v < 0x1_0000 ==> InSigned(cfg.LongestBits(), v)
  {
    PowInt();
    PowMonotone(2, 31, cfg.LongestBits() - 1);
    PowMonotone(2, cfg.longBits - 1, cfg.LongestBits() - 1);
  }

  /** The number the `d` and `i` conversions read (printf.c:150-175):
      `int` narrowed with C's `%` for `hh` and `h`, otherwise an `int`, a
      `long` or a `long long` as longness says. */
  function SignedArg(cfg: Config, longness: int, a: Arg): Result<int>
    requires cfg.Valid()
  {
    if !a.Int? then Fail(ArgumentMismatch)
    else
      var v := a.value;
      if longness <= 0 then
        if !InInt(v) then Fail(ArgumentMismatch)
        else if longness == -2 then Ok(CRem(v, 0x100))
        else if longness == -1 then Ok(CRem(v, 0x1_0000))
        else Ok(v)
      else if longness == 1 then
        if InSigned(cfg.longBits, v) then Ok(v) else Fail(ArgumentMismatch)
      else if InSigned(cfg.LongestBits(), v) then Ok(v) else Fail(ArgumentMismatch)
  }

  /** Every number a `d` or `i` conversion reads is a LONGEST_INT. */
  lemma SignedArgFits(cfg: Config, longness: int, a: Arg)
    requires cfg.Valid()
    ensures SignedArg(cfg, longness, a).Ok? ==> InSigned(cfg.LongestBits(), SignedArg(cfg, longness, a).value)
  {
    if a.Int? {
      WidthsFit(cfg, a.value);
      WidthsFit(cfg, CRem(a.value, 0x100));
      WidthsFit(cfg, CRem(a.value, 0x1_0000));
    }
  }

  /** The number the `u`, `x`, `X` and `b` conversions read
      (printf.c:203-229): `unsigned int` masked with `& 0xff` for `hh` and
      `& 0xffff` for `h`, an `unsigned int` converted to LONGEST_INT
      (wrapping when LONGEST_INT is 32 bits wide), or a `long` or `long
      long` as longness says. */
  function UnsignedArg(cfg: Config, longness: int, a: Arg): Result<int>
    requires cfg.Valid()
  {
    if !a.Int? then Fail(ArgumentMismatch)
    else
      var v := a.value;
      if longness <= 0 then
        if !InUInt(v) then Fail(ArgumentMismatch)
        else if longness == -2 then Ok(v % 0x100)
        else if longness == -1 then Ok(v % 0x1_0000)
        else Ok(ToSigned(cfg.LongestBits(), v))
      else if longness == 1 then
        if InSigned(cfg.longBits, v) then Ok(v) else Fail(ArgumentMismatch)
      else if InSigned(cfg.LongestBits(), v) then Ok(v) else Fail(ArgumentMismatch)
  }

  /** Every number a `u`, `x`, `X` or `b` conversion reads is a LONGEST_INT. */
  lemma UnsignedArgFits(cfg: Config, longness: int, a: Arg)
    requires cfg.Valid()
    ensures UnsignedArg(cfg, longness, a).Ok? ==> InSigned(cfg.LongestBits(), UnsignedArg(cfg, longness, a).value)
  {
    if a.Int? {
      WidthsFit(cfg, a.value);
      WidthsFit(cfg, a.value % 0x100);
      WidthsFit(cfg, a.value % 0x1_0000);
    }
  }

  // ------------------------------------------------------------ conversions

  /** The first two characters of aux_buffer when `#` was given: "0b" for
      `b` and "0x" otherwise (printf.c:197-201). */
  function PrefixText(prefix: nat, code: char): string
  {
    if prefix == 0 then [] else ['0', if code == 'b' then 'b' else 'x']
  }

  /** One emit of aux_buffer: the prefix offset plus the rendering must
      fit in its AUX_BUFFER_SIZE bytes. */
  function AuxCall(prefix: nat, code: char, text: string): Result<seq<string>>
  {
    if prefix + |text| <= AuxBufferSize then Ok([PrefixText(prefix, code) + text]) else Fail(AuxOverflow)
  }

  /** The calls of the `d` and `i` conversions (printf.c:146-180): the
      decimal text, never a prefix. */
  function ConvertSigned(cfg: Config, longness: int, a: Arg): Result<seq<string>>
    requires cfg.Valid()
  {
    match SignedArg(cfg, longness, a)
    case Fail(f) => Fail(f)
    case Ok(n) => if n == LongestMin(cfg) then Fail(NegatedMinimum) else AuxCall(0, 'd', DecText(cfg.dividerExp, n))
  }

  /** The calls of the `x`, `X`, `u` and `b` conversions
      (printf.c:186-259): prefix and rendering in one call, and for `b`
      the prefix alone followed by one call per bit. */
  function ConvertUnsigned(cfg: Config, prefix: nat, longness: int, code: char, a: Arg): Result<seq<string>>
    requires cfg.Valid()
  {
    match UnsignedArg(cfg, longness, a)
    case Fail(f) => Fail(f)
    case Ok(n) =>
      if code == 'x' || code == 'X' then AuxCall(prefix, code, HexText(ToUnsigned(cfg.LongestBits(), n)))
      else if code == 'u' then
        if n == LongestMin(cfg) then Fail(NegatedMinimum) else AuxCall(prefix, code, DecText(cfg.dividerExp, n))
      else if n > Pow(2, cfg.LongestBits() - 2) then Fail(MaskOverflow)
      else Ok([PrefixText(prefix, code)] + Singletons(BinBits(n)))
  }

  /** The conversion codes that read an argument. */
  predicate TakesArgument(cfg: Config, code: char)
  {
    code in "diuxXbs" || (code == 'c' && cfg.withChar)
  }

  /** The calls of a conversion that reads the argument a. */
  function ConvertArg(cfg: Config, prefix: nat, longness: int, code: char, a: Arg): Result<seq<string>>
    requires cfg.Valid() && TakesArgument(cfg, code)
  {
    if code == 'd' || code == 'i' then ConvertSigned(cfg, longness, a)
    else if code == 's' then
      if a.Str? then Ok([CString(a.text)]) else Fail(ArgumentMismatch)
    else if code == 'c' then
      if a.Int? && InInt(a.value) then Ok([[(a.value % 0x100) as char]]) else Fail(ArgumentMismatch)
    else ConvertUnsigned(cfg, prefix, longness, code, a)
  }

  /** Where a conversion leaves the pass: its calls, the cursor after the
      final `cursor++` (printf.c:289) and the next argument. */
  datatype Step = Step(calls: seq<string>, next: nat, argi: nat)

  /** The switch of printf_inner (printf.c:143-290) for the directive d.
      `%` first moves the cursor on, so it emits the second `%` and the
      character after it and skips that character; any other code it
      does not know emits the code and the character before it. */
  function Convert(cfg: Config, format: string, args: seq<Arg>, d: Directive, argi: nat): (r: Result<Step>)
    requires cfg.Valid() && 1 <= d.code <= Terminator(format)
    ensures r.Ok? ==> d.code < r.value.next <= Terminator(format) + 1
  {
    var code := At(format, d.code);
    AtTerminator(format, d.code);
    if TakesArgument(cfg, code) then
      if argi >= |args| then Fail(MissingArgument)
      else match ConvertArg(cfg, d.prefix, d.longness, code, args[argi])
        case Fail(f) => Fail(f)
        case Ok(calls) => Ok(Step(calls, d.code + 1, argi + 1))
    else if code == '%' then Ok(Step([[code, At(format, d.code + 1)]], d.code + 2, argi))
    else Ok(Step([[At(format, d.code - 1), code]], d.code + 1, argi))
  }

  // ------------------------------------------------------------------ pass

  /** The rest of the pass from cursor, with argi arguments consumed: the
      literal run, then the return at the terminator, or the directive
      after the `%`. */
  function Scan(cfg: Config, format: string, args: seq<Arg>, cursor: nat, argi: nat, fromCursor: bool): Outcome
    requires cfg.Valid() && cursor <= Terminator(format) + 1
    decreases Terminator(format) + 1 - cursor, 2
  {
    if cursor > Terminator(format) then Undefined(PastTerminator)
    else
      var len := PlainLen(format, cursor);
      var lit := LiteralRun(format, cursor, len, fromCursor);
      if At(format, cursor + len) != '%' then Emitted(lit)
      else
        AtTerminator(format, cursor + len);
        Prepend(lit, ScanDirective(cfg, format, args, cursor + len + 1, argi, fromCursor))
  }

  /** The rest of the pass from start, just after a `%`: the directive
      written there, converted. */
  function ScanDirective(cfg: Config, format: string, args: seq<Arg>, start: nat, argi: nat, fromCursor: bool): Outcome
    requires cfg.Valid() && 1 <= start <= Terminator(format)
    decreases Terminator(format) + 1 - start, 1
  {
    ScanConversion(cfg, format, args, ParseDirective(cfg, format, start), argi, fromCursor)
  }

  /** The rest of the pass from the directive d: its conversion, then the
      pass from where the conversion leaves the cursor. */
  function ScanConversion(cfg: Config, format: string, args: seq<Arg>, d: Directive, argi: nat, fromCursor: bool): Outcome
    requires cfg.Valid() && 1 <= d.code <= Terminator(format)
    decreases Terminator(format) + 1 - d.code, 0
  {
    match Convert(cfg, format, args, d, argi)
    case Fail(f) => Undefined(f)
    case Ok(step) => Prepend(step.calls, Scan(cfg, format, args, step.next, step.argi, fromCursor))
  }

  /** The pass printf_inner makes over format with the arguments args. */
  function Run(cfg: Config, format: string, args: seq<Arg>): Outcome
    requires cfg.Valid()
  {
    Scan(cfg, format, args, 0, 0, false)
  }

  // ------------------------------------------------------------ the method

  /** What aux_buffer holds up to the end of a rendering written at off:
      what was there before off, then the rendering. */
  lemma OverwriteHead(s: seq<char>, off: nat, t: string)
    requires off + |t| <= |s|
    ensures Overwrite(s, off, t)[..off + |t|] == s[..off] + t
  {
  }

  /** The `d` and `i` branch of the switch (printf.c:146-180): the number
      rendered by place_int_dec at the start of aux_buffer, in one call. */
  method EmitSigned(cfg: Config, longness: int, a: Arg, aux: array<char>) returns (calls: seq<string>)
    requires cfg.Valid() && aux.Length == AuxBufferSize
    requires ConvertSigned(cfg, longness, a).Ok?
    modifies aux
    ensures calls == ConvertSigned(cfg, longness, a).value
  {
    SignedArgFits(cfg, longness, a);
    var number := SignedArg(cfg, longness, a).value;
    var size := PlaceIntDec(cfg, number, aux, 0);
    OverwriteHead(old(aux[..]), 0, DecText(cfg.dividerExp, number));
    calls := [aux[..size]];
  }

  /** The `u`, `x`, `X` and `b` branch of the switch (printf.c:186-259):
      the prefix, if any, and the rendering in aux_buffer go out in one
      call; for `b` nothing is rendered, and the mask loops follow. */
  method EmitUnsigned(cfg: Config, prefix: nat, longness: int, code: char, a: Arg, aux: array<char>) returns (calls: seq<string>)
    requires cfg.Valid() && aux.Length == AuxBufferSize
    requires (prefix == 0 || prefix == 2) && code in "xXbu"
    requires ConvertUnsigned(cfg, prefix, longness, code, a).Ok?
    modifies aux
    ensures calls == ConvertUnsigned(cfg, prefix, longness, code, a).value
  {
    if prefix != 0 {
      aux[0] := '0';
      aux[1] := if code == 'b' then 'b' else 'x';
    }
    ghost var head := aux[..prefix];
    assert head == PrefixText(prefix, code);
    UnsignedArgFits(cfg, longness, a);
    var number := UnsignedArg(cfg, longness, a).value;
    var size := 0;
    ghost var text := [];
    if code == 'x' || code == 'X' {
      text := HexText(ToUnsigned(cfg.LongestBits(), number));
      size := PlaceIntHex(cfg, ToUnsigned(cfg.LongestBits(), number), aux, prefix);
    } else if code == 'u' {
      text := DecText(cfg.dividerExp, number);
      size := PlaceIntDec(cfg, number, aux, prefix);
    }
    assert aux[..prefix + size] == head + text;
    calls := [aux[..prefix + size]];
    if code == 'b' {
      var bits := StreamBits(cfg.LongestBits(), number);
      calls := calls + bits;
    }
  }

  /** The switch of printf_inner (printf.c:143-290) on the conversion
      code of d; cursor is where it leaves `cursor` before the final
      `cursor++`. */
  method Dispatch(cfg: Config, format: string, args: seq<Arg>, aux: array<char>, d: Directive, argi: nat)
    returns (calls: seq<string>, cursor: nat, argi': nat)
    requires cfg.Valid() && aux.Length == AuxBufferSize
    requires 1 <= d.code <= Terminator(format) && (d.prefix == 0 || d.prefix == 2)
    requires Convert(cfg, format, args, d, argi).Ok?
    modifies aux
    ensures Convert(cfg, format, args, d, argi).value == Step(calls, cursor + 1, argi')
  {
    var code := At(format, d.code);
    cursor := d.code;
    argi' := argi;
    if code == 'd' || code == 'i' {
      calls := EmitSigned(cfg, d.longness, args[argi], aux);
      argi' := argi + 1;
    } else if code == 'x' || code == 'X' || code == 'b' || code == 'u' {
      calls := EmitUnsigned(cfg, d.prefix, d.longness, code, args[argi], aux);
      argi' := argi + 1;
    } else if code == 's' {
      calls := [CString(args[argi].text)];
      argi' := argi + 1;
    } else if code == 'c' && cfg.withChar {
      calls := [[(args[argi].value % 0x100) as char]];
      argi' := argi + 1;
    } else {
      if code == '%' {
        cursor := cursor + 1;
      }
      calls := [[At(format, cursor - 1), At(format, cursor)]];
    }
  }

  /** The directive after a `%` at start - 1: the parsing steps, then the
      switch, then the final `cursor++` (printf.c:94-289). */
  method Conversion(cfg: Config, format: string, args: seq<Arg>, aux: array<char>, start: nat, argi: nat)
    returns (calls: seq<string>, next: nat, argi': nat)
    requires cfg.Valid() && aux.Length == AuxBufferSize && 1 <= start <= Terminator(format)
    requires ScanDirective(cfg, format, args, start, argi, false).Emitted?
    modifies aux
    ensures start < next <= Terminator(format) + 1
    ensures ScanDirective(cfg, format, args, start, argi, false) == Prepend(calls, Scan(cfg, format, args, next, argi', false))
  {
    var prefixOffset, longness, cursor := ReadDirective(cfg, format, start);
    var d := Directive(prefixOffset, longness, cursor);
    assert ScanDirective(cfg, format, args, start, argi, false) == ScanConversion(cfg, format, args, d, argi, false);
    calls, cursor, argi' := Dispatch(cfg, format, args, aux, d, argi);
    next := cursor + 1;
  }

  /** printf_inner (printf.c:71-291): makes exactly the sink calls of the
      pass Run, for any format and arguments whose pass is defined. */
  method PrintfInner(cfg: Config, format: string, args: seq<Arg>) returns (calls: seq<string>)
    requires cfg.Valid() && Run(cfg, format, args).Emitted?
    ensures calls == Run(cfg, format, args).calls
  {
    var aux := new char[AuxBufferSize](_ => '\0');
    var cursor: nat := 0;
    var argi: nat := 0;
    calls := [];
    while true
      invariant cursor <= Terminator(format) + 1
      invariant Run(cfg, format, args) == Prepend(calls, Scan(cfg, format, args, cursor, argi, false))
      invariant aux.Length == AuxBufferSize
      decreases Terminator(format) + 1 - cursor
    {
      ghost var before := calls;
      var len := PlainLength(format, cursor);
      ghost var lit := LiteralRun(format, cursor, len, false);
      if len > 0 {
        calls := calls + [format[..len]];
      }
      assert calls == before + lit;
      if At(format, cursor + len) != '%' {
        return;
      }
      AtTerminator(format, cursor + len);
      var frags, next, argi' := Conversion(cfg, format, args, aux, cursor + len + 1, argi);
      PrependTwice(before, lit, ScanDirective(cfg, format, args, cursor + len + 1, argi, false));
      PrependTwice(calls, frags, Scan(cfg, format, args, next, argi', false));
      calls := calls + frags;
      cursor, argi := next, argi';
    }
  }
}
