/** Digit strings in bases 2, 10 and 16, written with the formatter's digit
    table: the shortest numeral of a value, the fixed-width (zero-padded)
    numeral, and reading a digit string back as a number. These are the
    reference definitions the renderers are proved against. */
module Digits {
  import opened CInts

  /** `g_hex_table` (printf.c:48) without its terminating NUL: digit d is
      written as the d-th character, in upper case. */
  const HexTable: string := "0123456789ABCDEF"

  /** The number bases the formatter writes in (2, 10 and 16) all lie here. */
  type Base = b: nat | 2 <= b <= 16 witness 2

  /** The number a digit character stands for (0 for anything else). */
  function DigitValue(c: char): nat
  {
    if '0' <= c <= '9' then c as int - '0' as int
    else if 'A' <= c <= 'F' then c as int - 'A' as int + 10
    else 0
  }

  /** The character for a digit value: '0'-'9', then 'A'-'F'. */
  function DigitChar(d: nat): (c: char)
    requires d < 16
    ensures DigitValue(c) == d
    ensures c == '0' <==> d == 0
  {
    if d < 10 then ('0' as int + d) as char else ('A' as int + d - 10) as char
  }

  /** The table holds each digit character at its value. */
  lemma HexTableDigit(d: nat)
    requires d < 16
    ensures HexTable[d] == DigitChar(d)
  {
  }

  /** n with its lowest base-b digit dropped. */
  function Shift(b: Base, n: nat): nat
  {
    n / b
  }

  /** The shortest numeral of n in base b: no leading zero, and empty for 0. */
  function Numeral(b: Base, n: nat): (s: string)
    decreases n
  {
    if n == 0 then [] else DivShrinks(n, b); Numeral(b, Shift(b, n)) + [DigitChar(n % b)]
  }

  /** The w lowest digits of n in base b, most significant first. */
  function Padded(b: Base, n: nat, w: nat): (s: string)
    ensures |s| == w
    decreases w
  {
    if w == 0 then [] else Padded(b, Shift(b, n), w - 1) + [DigitChar(n % b)]
  }

  /** The number a digit string stands for in base b. */
  function Value(b: Base, s: string): nat
    decreases |s|
  {
    if s == [] then 0 else b * Value(b, s[..|s| - 1]) + DigitValue(s[|s| - 1])
  }

  /** k zero digits. */
  function Zeros(k: nat): (s: string)
    ensures |s| == k
  {
    seq(k, _ => '0')
  }

  lemma ValueOfAppend(b: Base, s: string, c: char)
    ensures Value(b, s + [c]) == b * Value(b, s) + DigitValue(c)
  {
    assert (s + [c])[..|s|] == s;
  }

  /** Reading the shortest numeral back gives the number. */
  lemma {:induction false} ValueOfNumeral(b: Base, n: nat)
    ensures Value(b, Numeral(b, n)) == n
    decreases n
  {
    if n > 0 {
      var q, r := Shift(b, n), n % b;
      DivShrinks(n, b);
      ValueOfNumeral(b, q);
      ValueOfAppend(b, Numeral(b, q), DigitChar(r));
      DivMod(n, b);
    }
  }

  /** The shortest numeral of a positive number does not start with '0'. */
  lemma {:induction false} NumeralNoLeadingZero(b: Base, n: nat)
    requires n > 0
    ensures |Numeral(b, n)| > 0 && Numeral(b, n)[0] != '0'
    decreases n
  {
    if Shift(b, n) == 0 {
      assert n % b == n;
      assert Numeral(b, n) == [DigitChar(n)];
    } else {
      DivShrinks(n, b);
      NumeralNoLeadingZero(b, Shift(b, n));
    }
  }

  /** Reading the w-digit numeral back gives the number when it fits in w digits. */
  lemma {:induction false} ValueOfPadded(b: Base, n: nat, w: nat)
    requires n < Pow(b, w)
    ensures Value(b, Padded(b, n, w)) == n
    decreases w
  {
    if w > 0 {
      DivBelow(n, b, Pow(b, w - 1));
      ValueOfPadded(b, Shift(b, n), w - 1);
      ValueOfAppend(b, Padded(b, Shift(b, n), w - 1), DigitChar(n % b));
      DivMod(n, b);
    }
  }

  /** When n has exactly w digits, the w-digit numeral is the shortest one. */
  lemma {:induction false} PaddedIsNumeral(b: Base, n: nat, w: nat)
    requires w >= 1
    requires Pow(b, w - 1) <= n < Pow(b, w)
    ensures Padded(b, n, w) == Numeral(b, n)
    decreases w
  {
    if w == 1 {
      assert n < b;
      DivUnique(n, b, 0, n);
    } else {
      DivBelow(n, b, Pow(b, w - 1));
      DivBelow(n, b, Pow(b, w - 2));
      PaddedIsNumeral(b, Shift(b, n), w - 1);
    }
  }

  /** The w lowest digits of b^w are all zero. */
  lemma {:induction false} PaddedOfPower(b: Base, w: nat)
    ensures Padded(b, Pow(b, w), w) == Zeros(w)
    decreases w
  {
    if w > 0 {
      DivUnique(Pow(b, w), b, Pow(b, w - 1), 0);
      PaddedOfPower(b, w - 1);
      assert Zeros(w - 1) + ['0'] == Zeros(w);
    }
  }

  /** Pushing digit d onto the numeral of p gives the numeral of b*p + d. */
  lemma NumeralPush(b: Base, p: nat, d: nat)
    requires d < b
    ensures b * p + d == 0 <==> p == 0 && d == 0
    ensures Numeral(b, b * p + d) == if p == 0 && d == 0 then [] else Numeral(b, p) + [DigitChar(d)]
  {
    DivUnique(b * p + d, b, p, d);
    DivUnique(0, b, 0, 0);
  }

  /** n with its k lowest base-b digits dropped. */
  function Above(b: Base, n: nat, k: nat): nat
    decreases k
  {
    if k == 0 then n else Above(b, Shift(b, n), k - 1)
  }

  /** Dropping one more digit divides by b. */
  lemma {:induction false} AboveStep(b: Base, n: nat, k: nat)
    ensures Above(b, n, k + 1) == Above(b, n, k) / b
    decreases k
  {
    if k > 0 {
      AboveStep(b, Shift(b, n), k - 1);
    }
  }

  /** Dropping k digits is dividing by b^k. */
  lemma {:induction false} AboveIsDiv(b: Base, n: nat, k: nat)
    ensures Above(b, n, k) == n / Pow(b, k)
    decreases k
  {
    if k > 0 {
      AboveIsDiv(b, Shift(b, n), k - 1);
      DivModNested(n, b, Pow(b, k - 1));
    }
  }

  /** The w-digit numeral of n is the w1 digits above position w2 followed
      by the w2 lowest digits. */
  lemma {:induction false} PaddedSplit(b: Base, n: nat, w1: nat, w2: nat)
    ensures Padded(b, n, w1 + w2) == Padded(b, Above(b, n, w2), w1) + Padded(b, n, w2)
    decreases w2
  {
    if w2 > 0 {
      var m := Shift(b, n);
      PaddedSplit(b, m, w1, w2 - 1);
      PaddedSplitStep(b, n, w1, w2);
    }
  }

  /** The inductive step of PaddedSplit: the split for n follows from the
      split for n / b one position lower. */
  lemma PaddedSplitStep(b: Base, n: nat, w1: nat, w2: nat)
    requires w2 > 0
    requires Padded(b, Shift(b, n), w1 + (w2 - 1)) == Padded(b, Above(b, Shift(b, n), w2 - 1), w1) + Padded(b, Shift(b, n), w2 - 1)
    ensures Padded(b, n, w1 + w2) == Padded(b, Above(b, n, w2), w1) + Padded(b, n, w2)
  {
    var top, low, c := Padded(b, Above(b, Shift(b, n), w2 - 1), w1), Padded(b, Shift(b, n), w2 - 1), [DigitChar(n % b)];
    assert Padded(b, n, w1 + w2) == (top + low) + c;
    assert top + (low + c) == Padded(b, Above(b, n, w2), w1) + Padded(b, n, w2);
  }

  /** s without its leading '0' characters. */
  function StripZeros(s: string): (r: string)
    ensures |r| <= |s|
    ensures r == [] || r[0] != '0'
  {
    if s == [] then [] else if s[0] == '0' then StripZeros(s[1..]) else s
  }

  /** Appending a character keeps the stripped prefix, unless everything so
      far was zeros and the character is a zero too. */
  lemma {:induction false} StripZerosAppend(s: string, c: char)
    ensures StripZeros(s + [c]) == if StripZeros(s) == [] && c == '0' then [] else StripZeros(s) + [c]
  {
    if s != [] {
      assert (s + [c])[0] == s[0] && (s + [c])[1..] == s[1..] + [c];
      if s[0] == '0' {
        StripZerosAppend(s[1..], c);
      }
    }
  }

  /** Stripping a longer string leaves at least as much. */
  lemma {:induction false} StripZerosPrefixLength(s: string, t: string)
    ensures |StripZeros(s)| <= |StripZeros(s + t)|
  {
    if s != [] {
      assert (s + t)[0] == s[0] && (s + t)[1..] == s[1..] + t;
      if s[0] == '0' {
        StripZerosPrefixLength(s[1..], t);
      }
    }
  }

  /** Dropping the leading zeros of the w-digit numeral of n leaves the
      shortest numeral of n modulo b^w. */
  lemma {:induction false} StripZerosPadded(b: Base, n: nat, w: nat)
    ensures StripZeros(Padded(b, n, w)) == Numeral(b, n % Pow(b, w))
    decreases w
  {
    if w == 0 {
      assert n % Pow(b, 0) == 0;
    } else {
      StripZerosPadded(b, Shift(b, n), w - 1);
      StripZerosPaddedStep(b, n, w);
      NumeralModStep(b, n, w);
      NumeralEmpty(b, Shift(b, n) % Pow(b, w - 1));
    }
  }

  /** The stripped w-digit numeral of n, from the stripped (w-1)-digit
      numeral of n / b and the last digit. */
  lemma StripZerosPaddedStep(b: Base, n: nat, w: nat)
    requires w > 0
    ensures var high := StripZeros(Padded(b, Shift(b, n), w - 1));
      StripZeros(Padded(b, n, w)) == if high == [] && n % b == 0 then [] else high + [DigitChar(n % b)]
  {
    StripZerosAppend(Padded(b, Shift(b, n), w - 1), DigitChar(n % b));
  }

  /** The numeral of n modulo b^w, from the numeral of n / b modulo b^(w-1)
      and the last digit. */
  lemma NumeralModStep(b: Base, n: nat, w: nat)
    requires w > 0
    ensures var q := Shift(b, n) % Pow(b, w - 1);
      Numeral(b, n % Pow(b, w)) == if q == 0 && n % b == 0 then [] else Numeral(b, q) + [DigitChar(n % b)]
  {
    ModPowStep(b, n, w);
    NumeralPush(b, Shift(b, n) % Pow(b, w - 1), n % b);
  }

  /** Only zero has the empty numeral. */
  lemma NumeralEmpty(b: Base, n: nat)
    ensures Numeral(b, n) == [] <==> n == 0
  {
  }

  /** The remainder modulo b^w is the remainder of n/b modulo b^(w-1),
      shifted by one digit, plus the last digit. */
  lemma ModPowStep(b: Base, n: nat, w: nat)
    requires w >= 1
    ensures n % Pow(b, w) == b * (Shift(b, n) % Pow(b, w - 1)) + n % b
  {
    assert Pow(b, w) == b * Pow(b, w - 1);
    DivModNested(n, b, Pow(b, w - 1));
  }
}
