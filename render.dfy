/** The numeric formatter: `place_int_dec` and `place_int_hex`
    (printf.c:306-361), which render a LONGEST_INT into the scratch buffer
    and return the number of characters written, and the bit sequence the
    `b` conversion streams (printf.c:244-258). Each renderer is specified by
    a function on values (DecText, HexText, BinBits), and the properties
    the formatter promises are lemmas about those functions. */
module Render {
  import opened CInts
  import opened Digits
  import opened Configuration

  // ---------------------------------------------------------------- decimal

  /** The text place_int_dec writes for v when MAX_DIVIDER is 10^e: a minus
      sign and the text of -v for a negative v, "0" for zero, and otherwise
      the digits of v from position e down to 0 with the leading zeros
      dropped (the loop starts at the e-th digit, so higher digits are never
      printed). */
  function DecText(e: nat, v: int): string
    decreases if v < 0 then 1 else 0
  {
    if v < 0 then ['-'] + DecText(e, -v)
    else if v == 0 then "0"
    else StripZeros(Padded(10, v, e + 1))
  }

  /** Zero is written as the single digit "0", never as an empty string. */
  lemma DecTextOfZero(e: nat)
    ensures DecText(e, 0) == "0" && Value(10, DecText(e, 0)) == 0
  {
    assert Value(10, "0") == 10 * Value(10, "") + DigitValue('0');
  }

  /** For 0 < v < 10^(e+1) the text is the shortest decimal numeral of v:
      no leading zero, and it reads back as v. */
  lemma DecTextRoundTrip(e: nat, v: int)
    requires 0 < v < Pow(10, e + 1)
    ensures DecText(e, v) == Numeral(10, v)
    ensures Value(10, DecText(e, v)) == v
    ensures |DecText(e, v)| > 0 && DecText(e, v)[0] != '0'
  {
    StripZerosPadded(10, v, e + 1);
    DivUnique(v, Pow(10, e + 1), 0, v);
    ValueOfNumeral(10, v);
    NumeralNoLeadingZero(10, v);
  }

  /** For any positive v the text reads back as v modulo 10^(e+1), and it is
      empty exactly when that remainder is 0. */
  lemma DecTextTruncates(e: nat, v: int)
    requires v > 0
    ensures Value(10, DecText(e, v)) == v % Pow(10, e + 1)
    ensures DecText(e, v) == [] <==> v % Pow(10, e + 1) == 0
  {
    var m := v % Pow(10, e + 1);
    StripZerosPadded(10, v, e + 1);
    ValueOfNumeral(10, m);
    NumeralEmpty(10, m);
  }

  /** A negative value is written as a minus sign followed by the text of
      its magnitude, which reads back as the magnitude when it fits. */
  lemma DecTextNegative(e: nat, v: int)
    requires v < 0
    ensures DecText(e, v) == ['-'] + DecText(e, -v)
    ensures -v < Pow(10, e + 1) ==> Value(10, DecText(e, -v)) == -v
  {
    if -v < Pow(10, e + 1) {
      DecTextRoundTrip(e, -v);
    }
  }

  /** At most e+1 digits, plus one for the sign. */
  lemma DecTextLength(e: nat, v: int)
    ensures |DecText(e, v)| <= (if v < 0 then 2 else 1) + e
    decreases if v < 0 then 1 else 0
  {
    if v < 0 {
      DecTextLength(e, -v);
    }
  }

    /** Every v whose magnitude has at most e+1 digits is written exactly:
      its shortest numeral, after a '-' when it is negative, and "0" for
      zero. */
  lemma DecTextExact(e: nat, v: int)
    requires -(Pow(10, e + 1) as int) < v < Pow(10, e + 1)
    ensures DecText(e, v) == if v < 0 then ['-'] + Numeral(10, -v) else if v == 0 then "0" else Numeral(10, v)
    ensures |DecText(e, v)| <= (if v < 0 then 2 else 1) + e
  {
    DecTextLength(e, v);
    if v < 0 {
      DecTextNegative(e, v);
      DecTextRoundTrip(e, -v);
    } else if v > 0 {
      DecTextRoundTrip(e, v);
    }
  }

/** The contents of s after t is written over it from position off on. */
  function Overwrite(s: seq<char>, off: nat, t: string): (r: seq<char>)
    requires off + |t| <= |s|
    ensures |r| == |s|
    ensures r[off..off + |t|] == t
    ensures forall i | 0 <= i < |s| && !(off <= i < off + |t|) :: r[i] == s[i]
  {
    s[..off] + t + s[off + |t|..]
  }

  /** Writing nothing changes nothing. */
  lemma OverwriteNothing(s: seq<char>, off: nat)
    requires off <= |s|
    ensures Overwrite(s, off, []) == s
  {
  }

  /** Writing t and then c right after it is writing t + [c]. */
  lemma OverwriteAppend(s: seq<char>, off: nat, t: string, c: char)
    requires off + |t| < |s|
    ensures Overwrite(s, off, t)[off + |t| := c] == Overwrite(s, off, t + [c])
  {
  }

  /** Writing c and then t right after it is writing [c] + t. */
  lemma OverwritePrepend(s: seq<char>, off: nat, c: char, t: string)
    requires off + 1 + |t| <= |s|
    ensures Overwrite(s[off := c], off + 1, t) == Overwrite(s, off, [c] + t)
  {
  }

  /** What the divider loop of place_int_dec has printed once it has looked
      at the digits of value from position e down to position j: those
      digits with the leading zeros dropped. */
  function Printed(e: nat, value: nat, j: nat): string
    requires j <= e + 1
    decreases e + 1 - j
  {
    if j == e + 1 then []
    else
      var prev := Printed(e, value, j + 1);
      var d := Above(10, value, j) % 10;
      if prev == [] && d == 0 then [] else prev + [DigitChar(d)]
  }

  /** The digits printed so far are the digits looked at, leading zeros
      dropped. */
  lemma {:induction false} PrintedIsStripped(e: nat, value: nat, j: nat)
    requires j <= e + 1
    ensures Printed(e, value, j) == StripZeros(Padded(10, Above(10, value, j), e + 1 - j))
    decreases e + 1 - j
  {
    if j <= e {
      PrintedIsStripped(e, value, j + 1);
      AboveStep(10, value, j);
      StripZerosAppend(Padded(10, Above(10, value, j + 1), e - j), DigitChar(Above(10, value, j) % 10));
    }
  }

  /** Once all digits are looked at, the loop has printed the text of value. */
  lemma PrintedAll(e: nat, value: nat)
    requires value > 0
    ensures Printed(e, value, 0) == DecText(e, value)
  {
    PrintedIsStripped(e, value, 0);
  }

  /** The loop never takes back a digit it printed. */
  lemma {:induction false} PrintedGrows(e: nat, value: nat, i: nat, j: nat)
    requires i <= j <= e + 1
    ensures |Printed(e, value, j)| <= |Printed(e, value, i)|
    decreases j - i
  {
    if i < j {
      PrintedGrows(e, value, i + 1, j);
    }
  }

  /** One step of the divider loop, with the divider at 10^(j-1): the digit
      it computes is digit j-1 of value, and the divider then drops to
      10^(j-2), or to 0 after the last digit. */
  lemma DecLoopStep(value: nat, j: nat)
    requires j >= 1
    ensures (value / Pow(10, j - 1)) % 10 == Above(10, value, j - 1) % 10
    ensures Pow(10, j - 1) / 10 == if j > 1 then Pow(10, j - 2) else 0
  {
    AboveIsDiv(10, value, j - 1);
    if j > 1 {
      DivUnique(Pow(10, j - 1), 10, Pow(10, j - 2), 0);
    }
  }

  /** place_int_dec (printf.c:306-339): writes the text of value at
      buffer[off..] and returns its length; nothing else in buffer changes.
      The buffer must hold the text, and value must not be the minimum of
      LONGEST_INT, whose negation at printf.c:311 overflows. */
  method PlaceIntDec(cfg: Config, value: int, buffer: array<char>, off: nat) returns (size: nat)
    requires cfg.Valid()
    requires InSigned(cfg.LongestBits(), value) && value != -(Pow(2, cfg.LongestBits() - 1) as int)
    requires off + |DecText(cfg.dividerExp, value)| <= buffer.Length
    modifies buffer
    ensures size == |DecText(cfg.dividerExp, value)|
    ensures buffer[..] == Overwrite(old(buffer[..]), off, DecText(cfg.dividerExp, value))
    decreases if value < 0 then 1 else 0
  {
    if value < 0 {
      DecTextNegative(cfg.dividerExp, value);
      buffer[off] := '-';
      size := PlaceIntDec(cfg, -value, buffer, off + 1);
      OverwritePrepend(old(buffer[..]), off, '-', DecText(cfg.dividerExp, -value));
      return size + 1;
    }

    if value == 0 {
      buffer[off] := '0';
      return 1;
    }

    size := PlaceDigits(cfg.dividerExp, value, buffer, off);
  }

  /** The divider loop of place_int_dec (printf.c:320-338) with MAX_DIVIDER
      at 10^e, for a positive value: digits from position e down to 0,
      leading zeros skipped. */
  method PlaceDigits(e: nat, value: nat, buffer: array<char>, off: nat) returns (printed: nat)
    requires value > 0
    requires off + |DecText(e, value)| <= buffer.Length
    modifies buffer
    ensures printed == |DecText(e, value)|
    ensures buffer[..] == Overwrite(old(buffer[..]), off, DecText(e, value))
  {
    printed := 0;
    var divider := Pow(10, e);
    var firstZeroEncountered := false;
    ghost var j: nat := e + 1;
    OverwriteNothing(buffer[..], off);
    while divider > 0
      invariant j <= e + 1
      invariant divider == if j > 0 then Pow(10, j - 1) else 0
      invariant printed == |Printed(e, value, j)| && firstZeroEncountered == (printed > 0)
      invariant off + printed <= buffer.Length
      invariant buffer[..] == Overwrite(old(buffer[..]), off, Printed(e, value, j))
      decreases j
    {
      var digit := (value / divider) % 10;
      DecLoopStep(value, j);
      HexTableDigit(digit);
      PrintedGrows(e, value, 0, j - 1);
      PrintedAll(e, value);
      firstZeroEncountered := firstZeroEncountered || digit != 0;
      if firstZeroEncountered {
        OverwriteAppend(old(buffer[..]), off, Printed(e, value, j), HexTable[digit]);
        buffer[off + printed] := HexTable[digit];
        printed := printed + 1;
      }
      divider := divider / 10;
      j := j - 1;
    }
    PrintedAll(e, value);
  }

  // ------------------------------------------------------------ hexadecimal

  /** The number of significant bytes of v: how often the probe loop of
      place_int_hex shifts v right by 8 before it reaches zero. */
  function SigBytes(v: nat): nat
    decreases v
  {
    if v == 0 then 0 else 1 + SigBytes(v / 256)
  }

  /** v has SigBytes(v) significant bytes: it lies below 16^(2r), and at
      or above 16^(2r-2) when it is not zero. */
  lemma {:induction false} SigBytesBounds(v: nat)
    ensures v < Pow(16, 2 * SigBytes(v))
    ensures SigBytes(v) > 0 ==> Pow(16, 2 * SigBytes(v) - 2) <= v
    decreases v
  {
    if v > 0 {
      var r := SigBytes(v / 256);
      SigBytesBounds(v / 256);
      PowByte(2 * r);
      DivBelow(v, 256, Pow(16, 2 * r));
      if r > 0 {
        PowByte(2 * r - 2);
        DivBelow(v, 256, Pow(16, 2 * r - 2));
      }
    }
  }

  /** One more byte is two more hex digits. */
  lemma PowByte(k: nat)
    ensures Pow(16, k + 2) == 256 * Pow(16, k) && Pow(16, 0) == 1
  {
    assert Pow(16, k + 2) == 16 * (16 * Pow(16, k));
  }

  /** The text place_int_hex writes: v in upper-case hexadecimal, two digits
      per significant byte, so zero is written as nothing at all. */
  function HexText(v: nat): string
  {
    Padded(16, v, 2 * SigBytes(v))
  }

  /** Two digits per significant byte, reading back as v; empty for zero. */
  lemma HexTextRoundTrip(v: nat)
    ensures |HexText(v)| == 2 * SigBytes(v) && |HexText(v)| % 2 == 0
    ensures Value(16, HexText(v)) == v
    ensures HexText(v) == [] <==> v == 0
  {
    var w := 2 * SigBytes(v);
    assert HexText(v) == Padded(16, v, w);
    SigBytesBounds(v);
    ValueOfPadded(16, v, w);
    if v > 0 {
      assert w >= 2;
    }
  }

  /** For a non-zero value the leading byte is not "00": the rendering is
      the shortest one with an even number of digits. */
  lemma HexTextLeadingByte(v: nat)
    requires v > 0
    ensures |HexText(v)| >= 2 && (HexText(v)[0] != '0' || HexText(v)[1] != '0')
  {
    var w := 2 * SigBytes(v) - 2;
    var top := Above(16, v, w);
    SigBytesBounds(v);
    AboveIsDiv(16, v, w);
    PowByte(w);
    DivBelow(v, Pow(16, w), 256);
    DivBelow(v, Pow(16, w), 1);
    PaddedSplit(16, v, 2, w);
    ByteNotZeros(top);
  }

  /** The two hex digits of a non-zero byte are not both '0'. */
  lemma ByteNotZeros(top: nat)
    requires 0 < top < 256
    ensures Padded(16, top, 2)[0] != '0' || Padded(16, top, 2)[1] != '0'
  {
    assert Padded(16, top, 2) == [DigitChar(Shift(16, top) % 16), DigitChar(top % 16)];
    DivMod(top, 16);
    DivBelow(top, 16, 16);
  }

  /** A value below 16^(2k), that is of at most k bytes, gets at most 2k
      hex digits. */
  lemma HexTextBound(v: nat, k: nat)
    requires v < Pow(16, 2 * k)
    ensures |HexText(v)| <= 2 * k
  {
    SigBytesBounds(v);
    if SigBytes(v) > k {
      PowMonotone(16, 2 * k, 2 * SigBytes(v) - 2);
    }
  }

  /** A value of an n-bit unsigned type, n a whole number of bytes, needs
      at most n/4 hex digits. */
  lemma HexTextLength(bits: nat, v: nat)
    requires bits % 8 == 0 && InUnsigned(bits, v)
    ensures |HexText(v)| <= bits / 4
  {
    Pow2Is16(bits / 4);
    assert 4 * (bits / 4) == bits && 2 * (bits / 8) == bits / 4;
    HexTextBound(v, bits / 8);
  }

  /** Four bits make a hex digit. */
  lemma {:induction false} Pow2Is16(k: nat)
    ensures Pow(2, 4 * k) == Pow(16, k)
    decreases k
  {
    if k > 0 {
      Pow2Is16(k - 1);
      PowAdd(2, 4 * (k - 1), 4);
      assert Pow(2, 4) == 16;
    }
  }

  /** The m lowest hex digits of v as the writing loop of place_int_hex
      lays them down: each new digit goes in front of the ones before it. */
  function HexWritten(v: nat, m: nat): (s: string)
    ensures |s| == m
    decreases m
  {
    if m == 0 then [] else [DigitChar(Above(16, v, m - 1) % 16)] + HexWritten(v, m - 1)
  }

  /** The digits written so far are the m-digit numeral of v. */
  lemma {:induction false} HexWrittenIsPadded(v: nat, m: nat)
    ensures HexWritten(v, m) == Padded(16, v, m)
    decreases m
  {
    if m > 0 {
      HexWrittenIsPadded(v, m - 1);
      PaddedSplit(16, v, 1, m - 1);
    }
  }

  /** One shift of the writing loop: the low nibble of what is left of v
      after m digits is digit m, and shifting it drops one more digit. */
  lemma HexLoopStep(v: nat, m: nat)
    ensures Above(16, v, m + 1) == Above(16, v, m) / 16
    ensures HexWritten(v, m + 1) == [HexTable[Above(16, v, m) % 16]] + HexWritten(v, m)
  {
    AboveStep(16, v, m);
    HexTableDigit(Above(16, v, m) % 16);
  }

  /** Writing t at off+1 and then c at off is writing [c] + t at off. */
  lemma OverwriteBefore(s: seq<char>, off: nat, c: char, t: string)
    requires off + 1 + |t| <= |s|
    ensures Overwrite(s, off + 1, t)[off := c] == Overwrite(s, off, [c] + t)
  {
  }

  /** A positive count of digits that come in pairs is at least two. */
  lemma PairsLeft(counter: nat, pairs: nat)
    requires counter == 2 * pairs && counter > 0
    ensures counter >= 2 && pairs >= 1
  {
  }

  /** One digit of the writing loop of place_int_hex (printf.c:352-357):
      step back one position, write the low nibble of what is left of the
      value there, and shift that nibble out. With m digits written at
      off+counter, the m+1 lowest digits then stand at off+counter-1. */
  method PlaceNibble(value: nat, buffer: array<char>, off: nat, counter: nat, rest: nat, ghost s: seq<char>, ghost m: nat)
    returns (counter': nat, rest': nat)
    requires counter > 0 && off + counter + m <= buffer.Length == |s|
    requires rest == Above(16, value, m)
    requires buffer[..] == Overwrite(s, off + counter, HexWritten(value, m))
    modifies buffer
    ensures counter' == counter - 1 && rest' == Above(16, value, m + 1)
    ensures buffer[..] == Overwrite(s, off + counter', HexWritten(value, m + 1))
  {
    HexLoopStep(value, m);
    OverwriteBefore(s, off + counter - 1, HexTable[rest % 16], HexWritten(value, m));
    counter' := counter - 1;
    buffer[off + counter'] := HexTable[rest % 16];
    rest' := rest / 16;
  }

  /** place_int_hex (printf.c:341-361): writes the hex text of value at
      buffer[off..] and returns its length; nothing else in buffer changes.
      value is already converted to unsigned LONGEST_INT. */
  method PlaceIntHex(cfg: Config, value: nat, buffer: array<char>, off: nat) returns (size: nat)
    requires cfg.Valid() && InUnsigned(cfg.LongestBits(), value)
    requires off + |HexText(value)| <= buffer.Length
    modifies buffer
    ensures size == |HexText(value)|
    ensures buffer[..] == Overwrite(old(buffer[..]), off, HexText(value))
  {
    var hexlen := HexLength(value);
    PlaceHexDigits(value, hexlen, buffer, off);
    HexWrittenIsPadded(value, hexlen);
    size := hexlen;
  }

  /** The probe loop of place_int_hex (printf.c:343-349): two digits for
      every byte of value up to its highest non-zero one. */
  method HexLength(value: nat) returns (hexlen: nat)
    ensures hexlen == 2 * SigBytes(value) == |HexText(value)|
  {
    hexlen := 0;
    var probe := value;
    while probe > 0
      invariant hexlen + 2 * SigBytes(probe) == 2 * SigBytes(value)
      decreases probe
    {
      probe := probe / 256;
      hexlen := hexlen + 2;
    }
  }

  /** The writing loop of place_int_hex (printf.c:350-359): the hexlen
      lowest digits of value, two per round, from the last position back
      to the first. */
  method PlaceHexDigits(value: nat, hexlen: nat, buffer: array<char>, off: nat)
    requires hexlen == 2 * SigBytes(value) && off + hexlen <= buffer.Length
    modifies buffer
    ensures buffer[..] == Overwrite(old(buffer[..]), off, HexWritten(value, hexlen))
  {
    var counter: nat := hexlen;
    var rest := value;
    ghost var pairs: nat := SigBytes(value);
    ghost var m: nat := 0;
    OverwriteNothing(buffer[..], off + hexlen);
    while counter > 0
      invariant counter == 2 * pairs && m + counter == hexlen
      invariant rest == Above(16, value, m)
      invariant buffer[..] == Overwrite(old(buffer[..]), off + counter, HexWritten(value, m))
      decreases counter
    {
      PairsLeft(counter, pairs);
      counter, rest := PlaceNibble(value, buffer, off, counter, rest, old(buffer[..]), m);
      m := m + 1;
      counter, rest := PlaceNibble(value, buffer, off, counter, rest, old(buffer[..]), m);
      m := m + 1;
      pairs := pairs - 1;
    }
  }

  // ----------------------------------------------------------------- binary

  /** The number of bits the `b` conversion streams for n: the exponent of
      the smallest power of two that is at least n (0 when n <= 1). */
  function CeilLog2(n: int): (r: nat)
    ensures n <= Pow(2, r)
    ensures r > 0 ==> Pow(2, r - 1) < n
    decreases n
  {
    if n <= 1 then 0 else 1 + CeilLog2((n + 1) / 2)
  }

  /** The bits the mask loops of printf.c:248-257 emit for n, most
      significant first: bits CeilLog2(n)-1 down to 0 of n. */
  function BinBits(n: int): string
  {
    if n <= 1 then [] else Padded(2, n, CeilLog2(n))
  }

  /** CeilLog2 is the only exponent with 2^(r-1) < n <= 2^r. */
  lemma CeilLog2Unique(n: int, r: nat)
    requires n <= Pow(2, r) && (r > 0 ==> Pow(2, r - 1) < n)
    ensures CeilLog2(n) == r
  {
    var c := CeilLog2(n);
    if c < r {
      PowMonotone(2, c, r - 1);
    } else if r < c {
      PowMonotone(2, r, c - 1);
    }
  }

  /** No bits at all for n <= 1, negative values included. */
  lemma BinBitsOfSmall(n: int)
    requires n <= 1
    ensures BinBits(n) == []
  {
  }

  /** A power of two 2^k streams k zeros: its top bit is lost. */
  lemma BinBitsOfPowerOfTwo(k: nat)
    requires k >= 1
    ensures BinBits(Pow(2, k)) == Zeros(k)
  {
    PowStrictlyMonotone(2, 0, k);
    PowStrictlyMonotone(2, k - 1, k);
    CeilLog2Unique(Pow(2, k), k);
    PaddedOfPower(2, k);
  }

  /** Any other positive n streams exactly its binary numeral. */
  lemma BinBitsExact(n: int)
    requires n >= 1
    requires forall k: nat :: Pow(2, k) != n
    ensures BinBits(n) == Numeral(2, n)
    ensures Value(2, BinBits(n)) == n && BinBits(n)[0] == '1'
  {
    assert Pow(2, 0) == 1;
    var r := CeilLog2(n);
    assert Pow(2, r) != n;
    PaddedIsNumeral(2, n, r);
    ValueOfNumeral(2, n);
    BinaryNumeralHead(n);
  }

  /** The binary numeral of a positive number starts with '1'. */
  lemma {:induction false} BinaryNumeralHead(n: nat)
    requires n > 0
    ensures |Numeral(2, n)| > 0 && Numeral(2, n)[0] == '1'
    decreases n
  {
    if Shift(2, n) == 0 {
      assert n == 1;
    } else {
      DivShrinks(n, 2);
      BinaryNumeralHead(Shift(2, n));
    }
  }

  /** The sink calls for a bit string: one single-character call per bit. */
  function Singletons(s: string): (r: seq<string>)
    ensures |r| == |s|
    decreases |s|
  {
    if s == [] then [] else Singletons(s[..|s| - 1]) + [[s[|s| - 1]]]
  }

  lemma SingletonsAppend(s: string, c: char)
    ensures Singletons(s + [c]) == Singletons(s) + [[c]]
  {
    assert (s + [c])[..|s|] == s;
  }

  /** The calls the second mask loop has made once the mask is down to
      2^i, out of k bits: bits k-1 down to i of n, one call each. */
  function BitCalls(n: nat, k: nat, i: nat): seq<string>
    requires i <= k
    decreases k - i
  {
    if i == k then [] else BitCalls(n, k, i + 1) + [[DigitChar(Above(2, n, i) % 2)]]
  }

  /** Those calls spell the k-i lowest bits of n above position i. */
  lemma {:induction false} BitCallsArePadded(n: nat, k: nat, i: nat)
    requires i <= k
    ensures BitCalls(n, k, i) == Singletons(Padded(2, Above(2, n, i), k - i))
    decreases k - i
  {
    if i < k {
      BitCallsArePadded(n, k, i + 1);
      AboveStep(2, n, i);
      SingletonsAppend(Padded(2, Above(2, n, i + 1), k - i - 1), DigitChar(Above(2, n, i) % 2));
    }
  }

  /** One shift of the first mask loop stays within 2^(w-2) while the mask
      is below a number that does. */
  lemma MaskUpStep(k: nat, top: nat, number: int)
    requires Pow(2, k) < number <= Pow(2, top)
    ensures 2 * Pow(2, k) <= Pow(2, top)
  {
    if top <= k {
      PowMonotone(2, top, k);
    } else {
      PowMonotone(2, k + 1, top);
    }
  }

  /** One shift of the second mask loop: the mask halves, and `number &
      mask` is bit i-1 of number. */
  lemma MaskDownStep(n: nat, i: nat)
    requires i >= 1
    ensures Pow(2, i) / 2 == Pow(2, i - 1)
    ensures (if (n / Pow(2, i - 1)) % 2 == 1 then "1" else "0") == [DigitChar(Above(2, n, i - 1) % 2)]
  {
    AboveIsDiv(2, n, i - 1);
    DivUnique(Pow(2, i), 2, Pow(2, i - 1), 0);
  }

  /** The binary path of printf_inner (printf.c:244-258): the first loop
      shifts a mask up until it is no longer below number, the second
      shifts it back down and makes one call per step with the bit the
      mask selects. The mask is a LONGEST_INT of the given width, so the
      number must not exceed 2^(width-2): shifting a mask of that size
      overflows (printf.c:251). */
  method StreamBits(width: nat, number: int) returns (calls: seq<string>)
    requires width >= 2 && number <= Pow(2, width - 2)
    ensures calls == Singletons(BinBits(number))
  {
    var mask: nat := 1;
    ghost var k: nat := 0;
    while mask < number
      invariant mask == Pow(2, k) && mask <= Pow(2, width - 2)
      invariant k > 0 ==> Pow(2, k - 1) < number
      decreases number - mask
    {
      MaskUpStep(k, width - 2, number);
      mask := mask * 2;
      k := k + 1;
    }
    CeilLog2Unique(number, k);
    ghost var n: nat := if number > 0 then number else 0;
    calls := [];
    ghost var i: nat := k;
    while mask > 1
      invariant i <= k && mask == Pow(2, i)
      invariant calls == BitCalls(n, k, i)
      decreases mask
    {
      MaskDownStep(n, i);
      mask := mask / 2;
      i := i - 1;
      calls := calls + [if (number / mask) % 2 == 1 then "1" else "0"];
    }
    BitCallsArePadded(n, k, 0);
  }
}
