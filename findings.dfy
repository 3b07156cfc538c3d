/** Three places where printf.c does something other than what it evidently
    means to do. For each, the behaviour as written is shown on one input,
    and a corrected definition is given with the intended property proved
    about it. */
module Findings {
  import opened CInts
  import opened Digits
  import opened Configuration
  import opened Render
  import opened Scanner
  import opened PassProperties

  // --------------------------------------------- MAX_DIVIDER_UINT64 is 10^9

  /** The powers of ten and two that bound a `long long`. */
  lemma LongLongPowers()
    ensures Pow(10, 18) == 1_000_000_000_000_000_000 && Pow(10, 19) == 10_000_000_000_000_000_000
    ensures Pow(2, 63) == 9223372036854775808 && Pow(10, 10) == 10_000_000_000
  {
    PowValues();
    PowAdd(10, 9, 9);
    PowAdd(10, 10, 9);
  }

  /** As written (printf.c:28, printf.c:319): with FEATURE_64BIT the decimal
      loop starts at the tenth digit, so `%lld` of 10^10 makes one empty
      call. */
  lemma LongLongTruncated(longBits: nat, withShort: bool, withChar: bool)
    requires longBits == 32 || longBits == 64
    ensures ConvertArg(Build64(longBits, withShort, withChar), 0, 2, 'd', Int(10_000_000_000)) == Ok([""])
  {
    var cfg := Build64(longBits, withShort, withChar);
    LongLongPowers();
    DecTextTruncates(9, 10_000_000_000);
    assert 10_000_000_000 % Pow(10, 10) == 0;
    assert SignedArg(cfg, 2, Int(10_000_000_000)) == Ok(10_000_000_000);
    assert PrefixText(0, 'd') + DecText(9, 10_000_000_000) == "";
  }

  /** The same divider with FEATURE_32BIT alone and a 64-bit `long`
      (printf.c:41-42): `%ld` of 10^10 makes one empty call too. */
  lemma LongTruncated(withShort: bool, withChar: bool)
    ensures ConvertArg(Build32(64, withShort, withChar), 0, 1, 'd', Int(10_000_000_000)) == Ok([""])
  {
    var cfg := Build32(64, withShort, withChar);
    LongLongPowers();
    DecTextTruncates(9, 10_000_000_000);
    assert 10_000_000_000 % Pow(10, 10) == 0;
    assert SignedArg(cfg, 1, Int(10_000_000_000)) == Ok(10_000_000_000);
    assert PrefixText(0, 'd') + DecText(9, 10_000_000_000) == "";
  }

  /** Corrected: MAX_DIVIDER_UINT64 as 10^18. MAX_N_DIGITS_UINT64
      (printf.c:27) allows 20 digits, which would call for 10^19, but 10^19
      does not fit the signed LONGEST_INT; 10^18 is the largest power of ten
      that does, and with it the loop still covers every `long long`. */
  function Build64Intended(longBits: nat, withShort: bool, withChar: bool): (c: Config)
    requires longBits == 32 || longBits == 64
    ensures c.Valid() && c.withLongLong && c.LongestBits() == 64 && c.MaxDivider() == 1_000_000_000_000_000_000
  {
    LongLongPowers();
    Config(longBits, true, withShort, withChar, 18)
  }

  /** With the corrected divider, `%lld` writes every `long long` but the
      minimum as its exact decimal numeral. */
  lemma LongLongExact(longBits: nat, withShort: bool, withChar: bool, v: int)
    requires longBits == 32 || longBits == 64
    requires InSigned(64, v) && v != -9223372036854775808
    ensures ConvertArg(Build64Intended(longBits, withShort, withChar), 0, 2, 'd', Int(v))
      == Ok([if v < 0 then ['-'] + Numeral(10, -v) else if v == 0 then "0" else Numeral(10, v)])
  {
    var cfg := Build64Intended(longBits, withShort, withChar);
    LongLongPowers();
    assert SignedArg(cfg, 2, Int(v)) == Ok(v);
    assert LongestMin(cfg) == -9223372036854775808;
    DecTextExact(18, v);
    assert PrefixText(0, 'd') + DecText(18, v) == DecText(18, v);
  }

  // ------------------------------------------- `%b` of a power of two

  // As written, `%b` of 2^k streams k zeros: PassProperties.BinaryOfPowerOfTwo
  // states it for every k, and Scenarios.BinaryFour shows it on 4.

  /** Corrected: the first mask loop runs while `mask <= number`, so the mask
      ends above the top bit and every bit of n is streamed. */
  function IntendedBits(n: int): string
  {
    if n <= 0 then [] else Padded(2, n, CeilLog2(n + 1))
  }

  /** The corrected bits of any positive n are its binary numeral. */
  lemma IntendedBitsExact(n: int)
    requires n >= 1
    ensures IntendedBits(n) == Numeral(2, n)
    ensures Value(2, IntendedBits(n)) == n && IntendedBits(n)[0] == '1'
  {
    var r := CeilLog2(n + 1);
    assert Pow(2, 0) == 1;
    assert r >= 1;
    PaddedIsNumeral(2, n, r);
    ValueOfNumeral(2, n);
    BinaryNumeralHead(n);
  }

  /** The corrected first mask loop: shift the mask up while it is not above
      number. It ends at the smallest power of two above number, which stays
      below 2^(width-1) when number is below 2^(width-2). */
  method MaskAbove(width: nat, number: int) returns (mask: nat, ghost k: nat)
    requires width >= 2 && number < Pow(2, width - 2)
    ensures mask == Pow(2, k) && k == CeilLog2(number + 1)
    ensures number < mask
  {
    mask, k := 1, 0;
    while mask <= number
      invariant mask == Pow(2, k) && mask <= Pow(2, width - 2)
      invariant k > 0 ==> Pow(2, k - 1) <= number
      decreases number - mask
    {
      MaskUpStep(k, width - 2, number + 1);
      mask := mask * 2;
      k := k + 1;
    }
    CeilLog2Unique(number + 1, k);
  }

  /** The corrected binary path: printf.c:244-258 with `<=` in the first
      loop, so that every bit of number is streamed. */
  method StreamBitsIntended(width: nat, number: int) returns (calls: seq<string>)
    requires width >= 2 && number < Pow(2, width - 2)
    ensures calls == Singletons(IntendedBits(number))
  {
    var mask: nat;
    ghost var k: nat;
    mask, k := MaskAbove(width, number);
    ghost var n: nat := if number > 0 then number else 0;
    calls := [];
    ghost var i: nat := k;
    while mask > 1
      invariant i <= k && mask == Pow(2, i)
      invariant calls == BitCalls(n, k, i)
      decreases mask
    {
      MaskDownStep(n, i);
      mask := mask / 2;
      i := i - 1;
      calls := calls + [if (number / mask) % 2 == 1 then "1" else "0"];
    }
    BitCallsArePadded(n, k, 0);
  }

  // ------------------------------------------- literal runs after a directive

  /** The format "a%db" has no NUL, and its runs are "a" and "b". */
  lemma LiteralFormat()
    ensures Terminator("a%db") == 4
    ensures PlainLen("a%db", 0) == 1 && PlainLen("a%db", 3) == 1 && PlainLen("a%db", 4) == 0
  {
    var f := "a%db";
    assert NulFrom(f, 4) == 4 && NulFrom(f, 3) == 4 && NulFrom(f, 2) == 4;
    assert NulFrom(f, 1) == 4 && NulFrom(f, 0) == 4;
  }

  /** After the directive of "a%db", the pass emits the run "b", or, taken
      from the start of the format, "a". */
  lemma LiteralTail(cfg: Config, fromCursor: bool)
    requires cfg.Valid()
    ensures Scan(cfg, "a%db", [Int(7)], 3, 1, fromCursor) == Emitted([if fromCursor then "b" else "a"])
  {
    var f := "a%db";
    LiteralFormat();
    assert At(f, 4) == '\0';
    assert f[3..4] == "b" && f[..1] == "a";
    assert LiteralRun(f, 3, 1, fromCursor) == [if fromCursor then "b" else "a"];
  }

  /** `%d` of 7 is one call with "7". */
  lemma SevenWritten(cfg: Config)
    requires cfg.Valid() && cfg.dividerExp >= 9
    ensures ConvertArg(cfg, 0, 0, 'd', Int(7)) == Ok(["7"])
  {
    IntDecimal(cfg, 0, 'd', 7);
    assert Numeral(10, 7) == "7";
  }

  /** From the directive of "a%db" on, the pass emits "7" and then the
      second run. */
  lemma LiteralDirective(cfg: Config, fromCursor: bool)
    requires cfg.Valid() && cfg.dividerExp >= 9
    ensures Terminator("a%db") == 4
    ensures ScanDirective(cfg, "a%db", [Int(7)], 2, 0, fromCursor) == Emitted(["7", if fromCursor then "b" else "a"])
  {
    var f, args := "a%db", [Int(7)];
    LiteralFormat();
    assert At(f, 2) == 'd';
    SevenWritten(cfg);
    PlainConversion(cfg, f, args, 2, 0, fromCursor);
    LiteralTail(cfg, fromCursor);
  }

  /** How "a%db" with 7 is scanned, whichever way the runs are taken. */
  lemma LiteralScan(cfg: Config, fromCursor: bool)
    requires cfg.Valid() && cfg.dividerExp >= 9
    ensures Scan(cfg, "a%db", [Int(7)], 0, 0, fromCursor)
      == Emitted(["a", "7", if fromCursor then "b" else "a"])
  {
    var f, args := "a%db", [Int(7)];
    var last := if fromCursor then "b" else "a";
    LiteralFormat();
    assert At(f, 1) == '%';
    assert f[0..1] == "a" && f[..1] == "a";
    assert LiteralRun(f, 0, 1, fromCursor) == ["a"];
    LiteralDirective(cfg, fromCursor);
    assert Scan(cfg, f, args, 0, 0, fromCursor) == Prepend(["a"], ScanDirective(cfg, f, args, 2, 0, fromCursor));
    assert ["a"] + ["7", last] == ["a", "7", last];
  }

  /** As written (printf.c:79): every literal run is emitted from the start
      of the format, so "a%db" with 7 ends in "a" instead of "b". */
  lemma LiteralFromStart(cfg: Config)
    requires cfg.Valid() && cfg.dividerExp >= 9
    ensures Run(cfg, "a%db", [Int(7)]) == Emitted(["a", "7", "a"])
  {
    LiteralScan(cfg, false);
  }

  /** Corrected: each run is emitted from the cursor, and the calls of
      "a%db" with 7 spell "a7b". */
  lemma LiteralFromCursor(cfg: Config)
    requires cfg.Valid() && cfg.dividerExp >= 9
    ensures Scan(cfg, "a%db", [Int(7)], 0, 0, true) == Emitted(["a", "7", "b"])
  {
    LiteralScan(cfg, true);
  }
}
