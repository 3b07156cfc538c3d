/** Whole runs of printf_inner on small format strings, as the call
    sequences the emit callback receives. */
module Scenarios {
  import opened CInts
  import opened Digits
  import opened Configuration
  import opened Render
  import opened Scanner
  import opened PassProperties

  /** Every `int` other than -2^31 is above the smallest LONGEST_INT. */
  lemma AboveMinimum(cfg: Config, v: int)
    requires cfg.Valid() && InInt(v) && v > -0x8000_0000
    ensures v != LongestMin(cfg)
  {
    PowInt();
    PowMonotone(2, 31, cfg.LongestBits() - 1);
  }

  /** "%d" of -5 is one call with "-5". */
  lemma NegativeDecimal(cfg: Config)
    requires cfg.Valid() && cfg.dividerExp >= 9
    ensures Run(cfg, "%d", [Int(-5)]) == Emitted(["-5"])
  {
    assert ['%'] + [] + ['d'] == "%d";
    assert ['-'] + Numeral(10, 5) == "-5";
    AboveMinimum(cfg, -5);
    IntDecimal(cfg, 0, 'd', -5);
    OnlyConversion(cfg, false, 'd', Int(-5));
  }

  /** 255 is one byte, written "FF". */
  lemma HexOf255()
    ensures HexText(255) == "FF"
  {
    assert SigBytes(0) == 0;
    assert SigBytes(255) == 1;
    assert Padded(16, 0, 0) == [];
    assert Padded(16, 15, 1) == ['F'];
    assert Padded(16, 255, 2) == ['F', 'F'];
  }

  /** "%#x" of 255 is one call with "0xFF". */
  lemma PrefixedHex(cfg: Config)
    requires cfg.Valid()
    ensures Run(cfg, "%#x", [Int(255)]) == Emitted(["0xFF"])
  {
    UIntHex(cfg, 2, 'x', 255);
    HexOf255();
    assert PrefixText(2, 'x') + HexText(255) == "0xFF";
    OnlyConversion(cfg, true, 'x', Int(255));
    assert ['%'] + ['#'] + ['x'] == "%#x";
  }

  /** 5 is not a power of two. */
  lemma FiveNotPowerOfTwo()
    ensures forall k: nat :: Pow(2, k) != 5
  {
    forall k: nat ensures Pow(2, k) != 5 {
      if k >= 3 {
        PowMonotone(2, 3, k);
      } else {
        assert Pow(2, 2) == 4;
      }
    }
  }

  /** The binary numeral of 5 is "101". */
  lemma NumeralOf5()
    ensures Numeral(2, 5) == "101"
  {
    assert Numeral(2, 1) == "1";
    assert Numeral(2, 2) == "10";
  }

  /** 5 is streamed as "1", "0", "1" after the prefix call. */
  lemma BinaryOf5()
    ensures forall k: nat :: Pow(2, k) != 5
    ensures [PrefixText(0, 'b')] + Singletons(Numeral(2, 5)) == ["", "1", "0", "1"]
  {
    FiveNotPowerOfTwo();
    NumeralOf5();
    assert "101" == "10" + ['1'] && "10" == "1" + ['0'] && "1" == [] + ['1'];
    SingletonsAppend("10", '1');
    SingletonsAppend("1", '0');
    SingletonsAppend([], '1');
  }

  /** "%b" of 5 is an empty call for the missing prefix, then "1", "0", "1". */
  lemma BinaryFive(cfg: Config)
    requires cfg.Valid()
    ensures Run(cfg, "%b", [Int(5)]) == Emitted(["", "1", "0", "1"])
  {
    assert ['%'] + [] + ['b'] == "%b";
    BinaryOf5();
    BinBitsExact(5);
    BinaryRun(cfg, false, 5);
  }

  /** Two zero bits are streamed as two calls with "0". */
  lemma TwoZeros()
    ensures [PrefixText(0, 'b')] + Singletons(Zeros(2)) == ["", "0", "0"]
  {
    assert Zeros(2) == "00";
    assert "00" == "0" + ['0'] && "0" == [] + ['0'];
    SingletonsAppend("0", '0');
    SingletonsAppend([], '0');
  }

  /** "%b" of 4 loses the top bit: after the empty prefix call, only "0", "0". */
  lemma BinaryFour(cfg: Config)
    requires cfg.Valid()
    ensures Run(cfg, "%b", [Int(4)]) == Emitted(["", "0", "0"])
  {
    assert ['%'] + [] + ['b'] == "%b";
    assert Pow(2, 2) == 4;
    BinBitsOfPowerOfTwo(2);
    TwoZeros();
    BinaryRun(cfg, false, 4);
  }

  /** With a 32-bit LONGEST_INT, "%u" of 4294967295 is written "-1". */
  lemma UnsignedMaxWraps(cfg: Config)
    requires cfg.Valid() && cfg.dividerExp >= 9 && cfg.LongestBits() == 32
    ensures Run(cfg, "%u", [Int(0xFFFF_FFFF)]) == Emitted(["-1"])
  {
    assert ['%'] + [] + ['u'] == "%u";
    assert ['-'] + Numeral(10, 1) == "-1";
    UIntWraps(cfg, 0xFFFF_FFFF);
    AboveMinimum(cfg, -1);
    IntDecimal(cfg, 0, 'd', -1);
    assert ConvertArg(cfg, 0, 0, 'u', Int(0xFFFF_FFFF)) == Ok(["-1"]);
    OnlyConversion(cfg, false, 'u', Int(0xFFFF_FFFF));
  }

  /** "%%" at the end of the format: the second `%` is emitted with the
      NUL after it and the cursor steps past the terminator, which the
      model reports as undefined behaviour. */
  lemma TrailingPercentPercent(cfg: Config)
    requires cfg.Valid()
    ensures Run(cfg, "%%", []) == Undefined(PastTerminator)
  {
    var f := "%%";
    assert NulFrom(f, 2) == 2 && NulFrom(f, 1) == 2;
    assert Terminator(f) == 2;
    ScanRound(cfg, f, [], 0, 0, false);
    assert PlainLen(f, 0) == 0;
    PercentPercent(cfg, f, [], 1, 0, false);
  }

  /** "%%x" is one call with "%x": `%%` takes the character after it along. */
  lemma PercentPercentTakesNext(cfg: Config)
    requires cfg.Valid()
    ensures Run(cfg, "%%x", []) == Emitted(["%x"])
  {
    var f := "%%x";
    assert NulFrom(f, 3) == 3 && NulFrom(f, 2) == 3 && NulFrom(f, 1) == 3;
    assert Terminator(f) == 3;
    ScanRound(cfg, f, [], 0, 0, false);
    assert PlainLen(f, 0) == 0;
    PercentPercent(cfg, f, [], 1, 0, false);
    ScanRound(cfg, f, [], 3, 0, false);
    assert PlainLen(f, 3) == 0;
    assert Scan(cfg, f, [], 3, 0, false) == Emitted([]);
  }

  /** `q` is not a conversion code of the formatter. */
  lemma NotACode(cfg: Config)
    ensures !TakesArgument(cfg, 'q') && 'q' !in "#lh%"
  {
  }

  /** "%q" is one call with "%q": an unknown code is written out with its `%`. */
  lemma UnknownCodeWritten(cfg: Config)
    requires cfg.Valid()
    ensures Run(cfg, "%q", []) == Emitted(["%q"])
  {
    var f := "%q";
    assert NulFrom(f, 2) == 2 && NulFrom(f, 1) == 2;
    assert Terminator(f) == 2;
    ScanRound(cfg, f, [], 0, 0, false);
    assert PlainLen(f, 0) == 0;
    assert At(f, 1) == 'q';
    NotACode(cfg);
    UnknownCode(cfg, f, [], 1, 0, false);
    ScanRound(cfg, f, [], 2, 0, false);
    assert PlainLen(f, 2) == 0;
    assert Scan(cfg, f, [], 2, 0, false) == Emitted([]);
    assert ScanDirective(cfg, f, [], 1, 0, false) == Emitted([['%', 'q']]);
  }

  /** "%lq" is one call with "lq": after a modifier, an unknown code is
      written out with the modifier, not with the `%`. */
  lemma ModifierThenUnknown(cfg: Config)
    requires cfg.Valid()
    ensures Run(cfg, "%lq", []) == Emitted(["lq"])
  {
    var f := "%lq";
    assert f == DirectiveText(false, "l", 'q');
    DirectiveModifiers(cfg, false, "l", 'q');
    DirectiveTextEnds(false, "l", 'q');
    assert Terminator(f) == 3 && ParseDirective(cfg, f, 1).code == 2;
    ScanRound(cfg, f, [], 0, 0, false);
    assert PlainLen(f, 0) == 0;
    NotACode(cfg);
    UnknownDirective(cfg, f, [], 1, 0, false);
    ScanRound(cfg, f, [], 3, 0, false);
    assert PlainLen(f, 3) == 0;
    assert Scan(cfg, f, [], 3, 0, false) == Emitted([]);
    assert ScanDirective(cfg, f, [], 1, 0, false) == Emitted([['l', 'q']]);
  }

  /** Without FEATURE_64BIT the second `l` of "%lld" is the code, and is
      written out with the first. */
  lemma LongLongDirective(cfg: Config, args: seq<Arg>)
    requires cfg.Valid() && !cfg.withLongLong
    ensures Terminator("%lld") == 4
    ensures ScanDirective(cfg, "%lld", args, 1, 0, false) == Prepend(["ll"], Scan(cfg, "%lld", args, 3, 0, false))
  {
    var f := "%lld";
    assert f == DirectiveText(false, "ll", 'd');
    DirectiveModifiers(cfg, false, "ll", 'd');
    DirectiveTextEnds(false, "ll", 'd');
    assert ParseDirective(cfg, f, 1).code == 2 && At(f, 1) == 'l' && At(f, 2) == 'l';
    assert !TakesArgument(cfg, 'l');
    UnknownDirective(cfg, f, args, 1, 0, false);
  }

  /** The `d` left over after "%ll" is a literal run, which is emitted
      from the start of the format as "%". */
  lemma LongLongTail(cfg: Config, args: seq<Arg>)
    requires cfg.Valid() && Terminator("%lld") == 4
    ensures Scan(cfg, "%lld", args, 3, 0, false) == Emitted(["%"])
  {
    var f := "%lld";
    assert PlainLen(f, 4) == 0;
    assert PlainLen(f, 3) == 1;
    assert f[..1] == "%";
    ScanRound(cfg, f, args, 3, 0, false);
  }

  /** Without FEATURE_64BIT, "%lld" with 5 writes "ll" and then "%":
      the second `l` is taken as an unknown code and the `d` as literal
      text. */
  lemma LongLongDisabled(cfg: Config)
    requires cfg.Valid() && !cfg.withLongLong
    ensures Run(cfg, "%lld", [Int(5)]) == Emitted(["ll", "%"])
  {
    var f, args := "%lld", [Int(5)];
    LongLongDirective(cfg, args);
    LongLongTail(cfg, args);
    ScanRound(cfg, f, args, 0, 0, false);
    assert PlainLen(f, 0) == 0;
  }
}
