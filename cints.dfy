/** The C integer arithmetic the formatter relies on, stated on unbounded
    integers: powers, the fixed-width ranges of the C integer types, the
    conversions between them, and C's truncating remainder. Shifts by a
    constant are divisions and multiplications by a power of two, and
    `& (2^k - 1)` on a non-negative value is `% 2^k`. */
module CInts {

  /** b to the power n. */
  function Pow(b: nat, n: nat): (r: nat)
    ensures b >= 1 ==> r >= 1
    decreases n
  {
    if n == 0 then 1 else b * Pow(b, n - 1)
  }

  lemma {:induction false} PowMonotone(b: nat, i: nat, j: nat)
    requires b >= 1 && i <= j
    ensures Pow(b, i) <= Pow(b, j)
    decreases j
  {
    if i < j {
      PowMonotone(b, i, j - 1);
      MulAtLeast(b, Pow(b, j - 1));
    }
  }

  /** Multiplying by a positive factor does not shrink a natural number. */
  lemma MulAtLeast(b: nat, p: nat)
    requires b >= 1
    ensures b * p >= p
  {
    assert b * p == (b - 1) * p + p;
  }

  lemma {:induction false} PowStrictlyMonotone(b: nat, i: nat, j: nat)
    requires b >= 2 && i < j
    ensures Pow(b, i) < Pow(b, j)
  {
    PowMonotone(b, i, j - 1);
    MulAtLeast(b - 1, Pow(b, j - 1));
    assert Pow(b, j) == (b - 1) * Pow(b, j - 1) + Pow(b, j - 1);
  }

  lemma {:induction false} PowAdd(b: nat, m: nat, n: nat)
    ensures Pow(b, m + n) == Pow(b, m) * Pow(b, n)
    decreases n
  {
    if n > 0 {
      PowAdd(b, m, n - 1);
      assert Pow(b, m + n) == b * Pow(b, m + n - 1);
      MulSwap(b, Pow(b, m), Pow(b, n - 1));
    }
  }

  lemma MulSwap(a: int, x: int, y: int)
    ensures a * (x * y) == x * (a * y)
  {
  }

  /** The powers the C integer widths and MAX_DIVIDER need, evaluated. */
  lemma PowValues()
    ensures Pow(2, 8) == 256 && Pow(2, 15) == 32768 && Pow(2, 16) == 65536
    ensures Pow(2, 31) == 2147483648 && Pow(2, 32) == 4294967296
    ensures Pow(2, 63) == 9223372036854775808 && Pow(2, 64) == 18446744073709551616
    ensures Pow(10, 9) == 1000000000 && Pow(10, 10) == 10000000000
  {
    assert Pow(2, 8) == 256;
    PowAdd(2, 8, 8);
    PowAdd(2, 16, 15);
    PowAdd(2, 16, 16);
    PowAdd(2, 32, 31);
    PowAdd(2, 32, 32);
    assert Pow(10, 5) == 100000;
    PowAdd(10, 5, 4);
    PowAdd(10, 5, 5);
  }

  /** The two powers of two that bound `int` and `unsigned int`. */
  lemma PowInt()
    ensures Pow(2, 31) == 0x8000_0000 && Pow(2, 32) == 0x1_0000_0000
  {
    PowValues();
  }

  /** Division and remainder by a positive divisor are determined by the
      quotient-remainder decomposition. */
  lemma DivUnique(a: int, d: int, q: int, r: int)
    requires d > 0 && 0 <= r < d && a == q * d + r
    ensures a / d == q && a % d == r
  {
    var q', r' := a / d, a % d;
    assert a == q' * d + r';
    assert (q - q') * d == r' - r;
    assert q - q' >= 1 ==> (q - q' - 1) * d >= 0;
    assert q' - q >= 1 ==> (q' - q - 1) * d >= 0;
  }

  /** The quotient-remainder decomposition. */
  lemma DivMod(a: int, d: int)
    requires d > 0
    ensures a == d * (a / d) + a % d && 0 <= a % d < d
  {
  }

  /** Dividing a positive number by at least 2 makes it smaller. */
  lemma DivShrinks(n: nat, b: nat)
    requires n > 0 && b >= 2
    ensures n / b < n
  {
    DivMod(n, b);
    assert (b - 2) * (n / b) >= 0;
  }

  /** A multiple of m leaves no remainder modulo m. */
  lemma ModOfMultiple(k: int, m: int)
    requires m > 0
    ensures (k * m) % m == 0
  {
    DivUnique(k * m, m, k, 0);
  }

  /** Taking away the remainder, or adding it to the negation, leaves a
      multiple of m. */
  lemma MultipleDiff(a: int, m: int)
    requires m > 0
    ensures (a - a % m) % m == 0 && (-(a - a % m)) % m == 0
  {
    var k := a / m;
    DivMod(a, m);
    assert a - a % m == k * m;
    ModOfMultiple(k, m);
    assert -(a - a % m) == (-k) * m;
    ModOfMultiple(-k, m);
  }

  /** Dividing by b and then by c is dividing by b * c, and the remainder
      modulo b * c is assembled from the two remainders. */
  lemma DivModNested(a: nat, b: nat, c: nat)
    requires b > 0 && c > 0
    ensures a / (b * c) == (a / b) / c
    ensures a % (b * c) == b * ((a / b) % c) + a % b
  {
    var q1, r1 := a / b, a % b;
    var q2, r2 := q1 / c, q1 % c;
    assert r2 <= c - 1;
    assert r2 * b <= (c - 1) * b;
    assert a == q2 * (b * c) + (b * r2 + r1);
    DivUnique(a, b * c, q2, b * r2 + r1);
  }

  lemma ModOfSmallNegative(v: int, m: int)
    requires m > 0
    ensures -m <= v < 0 ==> v % m == v + m
  {
    if -m <= v < 0 {
      DivUnique(v, m, -1, v + m);
    }
  }

  /** n / b stays below x exactly when n stays below b * x. */
  lemma DivBelow(n: nat, b: nat, x: nat)
    requires b > 0
    ensures n / b < x <==> n < b * x
  {
    var q, r := n / b, n % b;
    assert n == b * q + r;
    if q < x {
      assert b * q <= b * (x - 1);
    } else {
      assert b * q >= b * x;
    }
  }

  /** The value range of an n-bit two's complement signed type. */
  predicate InSigned(bits: nat, v: int)
    requires bits >= 1
  {
    -(Pow(2, bits - 1) as int) <= v < Pow(2, bits - 1)
  }

  /** The value range of an n-bit unsigned type. */
  predicate InUnsigned(bits: nat, v: int)
  {
    0 <= v < Pow(2, bits)
  }

  /** Conversion of an integer to an n-bit unsigned type: reduction modulo 2^n
      (section 6.3.1.3 of ISO/IEC 9899:2011). */
  function ToUnsigned(bits: nat, v: int): (r: int)
    ensures InUnsigned(bits, r)
    ensures InUnsigned(bits, v) ==> r == v
  {
    var m := Pow(2, bits);
    if 0 <= v < m then DivUnique(v, m, 0, v); v % m else v % m
  }

  /** The unsigned conversion only removes a multiple of 2^n. */
  lemma ToUnsignedCongruent(bits: nat, v: int)
    ensures (v - ToUnsigned(bits, v)) % Pow(2, bits) == 0
  {
    MultipleDiff(v, Pow(2, bits));
  }

  /** Conversion of an integer to an n-bit signed type, taking the two's
      complement wrap-around that GCC documents for the implementation-defined
      out-of-range case. */
  function ToSigned(bits: nat, v: int): (r: int)
    requires bits >= 1
    ensures InSigned(bits, r)
    ensures InSigned(bits, v) ==> r == v
  {
    var m := Pow(2, bits);
    var u := ToUnsigned(bits, v);
    assert m == 2 * Pow(2, bits - 1);
    ModOfSmallNegative(v, m);
    if u < Pow(2, bits - 1) then u else u - m
  }

  /** The signed conversion only removes a multiple of 2^n. */
  lemma ToSignedCongruent(bits: nat, v: int)
    requires bits >= 1
    ensures (v - ToSigned(bits, v)) % Pow(2, bits) == 0
  {
    var m := Pow(2, bits);
    var u := ToUnsigned(bits, v);
    ToUnsignedCongruent(bits, v);
    assert m == 2 * Pow(2, bits - 1);
    if u >= Pow(2, bits - 1) {
      DivMod(v, m);
      assert v - (u - m) == (v / m + 1) * m;
      ModOfMultiple(v / m + 1, m);
    }
  }

  /** An n-bit unsigned value keeps its value in the signed type when it is
      in the lower half, and wraps to a negative one in the upper half. */
  lemma ToSignedOfUnsigned(bits: nat, v: int)
    requires bits >= 1 && InUnsigned(bits, v)
    ensures ToSigned(bits, v) == if v < Pow(2, bits - 1) then v else v - Pow(2, bits)
  {
    assert Pow(2, bits) == 2 * Pow(2, bits - 1);
  }

  /** Converting an n-bit unsigned value to the signed type and back gives
      it back. */
  lemma ToUnsignedOfSigned(bits: nat, v: int)
    requires bits >= 1 && InUnsigned(bits, v)
    ensures ToUnsigned(bits, ToSigned(bits, v)) == v
  {
    var m := Pow(2, bits);
    assert m == 2 * Pow(2, bits - 1);
    ToSignedOfUnsigned(bits, v);
    if v >= Pow(2, bits - 1) {
      DivUnique(v - m, m, -1, v);
    }
  }

  /** C's `%` (section 6.5.5 of ISO/IEC 9899:2011): the quotient is truncated
      toward zero, so the remainder keeps the sign of the dividend. */
  function CRem(a: int, m: nat): (r: int)
    requires m > 0
    ensures a >= 0 ==> 0 <= r < m
    ensures a < 0 ==> -(m as int) < r <= 0
  {
    if a >= 0 then a % m else -((-a) % m)
  }

  /** C's remainder differs from the dividend by a multiple of m. */
  lemma CRemCongruent(a: int, m: nat)
    requires m > 0
    ensures (a - CRem(a, m)) % m == 0
  {
    if a >= 0 {
      MultipleDiff(a, m);
    } else {
      MultipleDiff(-a, m);
    }
  }
}
