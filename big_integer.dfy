/**
  Stand-in for the arbitrary-precision signed integer that BigFloat is built on.
  The mantissa is a Dafny `int`; this module gives it the operations BigFloat
  calls: powers of ten, the engine's truncating division with remainder,
  sign setting and three-way comparison.
 */
module BigInteger {

  function Abs(x: int): nat
  {
    if x < 0 then -x else x
  }

  function Max(a: int, b: int): int
  {
    if a < b then b else a
  }

  function Min(a: int, b: int): int
  {
    if a < b then a else b
  }

  /** 10^n */
  function Pow10(n: nat): (p: nat)
    ensures p >= 1
  {
    if n == 0 then 1 else 10 * Pow10(n - 1)
  }

  /** One factor of ten comes off the top. */
  lemma Pow10Step(n: nat)
    requires n >= 1
    ensures Pow10(n) == 10 * Pow10(n - 1)
  {}

  lemma {:induction false} Pow10Add(a: nat, b: nat)
    ensures Pow10(a + b) == Pow10(a) * Pow10(b)
  {
    if a > 0 {
      Pow10Add(a - 1, b);
      assert Pow10(a + b) == 10 * Pow10(a - 1 + b);
      assert 10 * (Pow10(a - 1) * Pow10(b)) == (10 * Pow10(a - 1)) * Pow10(b);
    }
  }

  lemma {:induction false} Pow10Monotone(a: nat, b: nat)
    requires a <= b
    ensures Pow10(a) <= Pow10(b)
  {
    if a < b {
      Pow10Monotone(a, b - 1);
    }
  }

  /**
    The engine's `division(a, b, q, &r)`: the quotient is rounded toward zero
    and the remainder takes the sign of the dividend, so `q * b + r == a`
    with `|r| < |b|`.
   */
  function DivRem(a: int, b: int): (qr: (int, int))
    requires b != 0
    ensures qr.0 * b + qr.1 == a
    ensures Abs(qr.1) < Abs(b)
    ensures a >= 0 ==> qr.1 >= 0
    ensures a <= 0 ==> qr.1 <= 0
  {
    var n, d := Abs(a), Abs(b);
    EuclidNat(n, d);
    var q, r := n / d, n % d;
    var quotient := if (a < 0) == (b < 0) then q else -q;
    var remainder := if a < 0 then -r else r;
    TruncatedDivision(a, b, q, r, quotient, remainder);
    (quotient, remainder)
  }

  /** Signs put back on the division of the magnitudes give a truncated division of a by b. */
  lemma TruncatedDivision(a: int, b: int, q: int, r: int, quotient: int, remainder: int)
    requires b != 0 && q * Abs(b) + r == Abs(a) && 0 <= r < Abs(b)
    requires quotient == (if (a < 0) == (b < 0) then q else -q)
    requires remainder == (if a < 0 then -r else r)
    ensures quotient * b + remainder == a
    ensures Abs(remainder) < Abs(b)
    ensures a >= 0 ==> remainder >= 0
    ensures a <= 0 ==> remainder <= 0
  {
    var d: int := Abs(b);
    if b < 0 {
      assert b == -d;
      NegateProduct(q, d);
    }
  }

  lemma EuclidNat(n: nat, d: nat)
    requires d > 0
    ensures n == (n / d) * d + n % d && 0 <= n % d < d
  {}

  lemma NegateProduct(q: int, d: int)
    ensures (-q) * (-d) == q * d && (-q) * d == -(q * d) && q * (-d) == -(q * d)
  {}

  /** The quotient of `DivRem`: division truncated toward zero. */
  function Quot(a: int, b: int): int
    requires b != 0
  {
    DivRem(a, b).0
  }

  /** Euclidean division of naturals is unique. */
  lemma DivUnique(n: int, d: int, q: int, r: int)
    requires d > 0 && n == d * q + r && 0 <= r < d
    ensures n / d == q && n % d == r
  {
    var q', r' := n / d, n % d;
    assert d * (q - q') == r' - r;
    if q != q' {
      MulAtLeast(d, if q < q' then q' - q else q - q');
    }
  }

  lemma MulAtLeast(d: int, k: int)
    requires d > 0 && k >= 1
    ensures d * k >= d
  {
    assert d * k == d + d * (k - 1);
  }

  lemma NatDivDiv(n: nat, a: nat, b: nat)
    requires a > 0 && b > 0
    ensures n / a / b == n / (a * b)
  {
    var q1, r1 := n / a, n % a;
    EuclidNat(n, a);
    var q2, r2 := q1 / b, q1 % b;
    EuclidNat(q1, b);
    Regroup(a, b, q2, r2, r1);
    MulMonotone(a, r2, b - 1);
    assert a * (b - 1) == a * b - a;
    DivUnique(n, a * b, q2, a * r2 + r1);
  }

  lemma Regroup(a: int, b: int, q: int, r: int, s: int)
    ensures (q * b + r) * a + s == (a * b) * q + (a * r + s)
  {}

  lemma MulMonotone(a: nat, x: int, y: int)
    requires x <= y
    ensures a * x <= a * y
  {
    assert a * y - a * x == a * (y - x);
  }

  lemma DivAtMost(n: nat, d: nat)
    requires d > 0
    ensures n / d <= n
  {
    EuclidNat(n, d);
    var q := n / d;
    MulMonotone(q, 1, d);
  }

  /** Truncating division by a positive divisor divides the magnitude and keeps the sign. */
  lemma QuotPositive(a: int, d: int)
    requires d > 0
    ensures Quot(a, d) == if a < 0 then -(Abs(a) / d) else Abs(a) / d
  {}

  /** Truncating by p and then by s is truncating by p * s. */
  lemma QuotQuot(m: int, p: int, s: int)
    requires p > 0 && s > 0
    ensures Quot(Quot(m, p), s) == Quot(m, p * s)
  {
    var n: int := Abs(m);
    NatDivDiv(n, p, s);
    QuotPositive(m, p);
    QuotPositive(m, p * s);
    var t := Quot(m, p);
    QuotPositive(t, s);
    if m < 0 {
      assert t == -(n / p);
    } else {
      assert t == n / p;
    }
  }

  /** Truncating by 10^k and then by 10 is truncating by 10^(k+1). */
  lemma QuotPow10Step(m: int, k: nat)
    ensures Quot(Quot(m, Pow10(k)), 10) == Quot(m, Pow10(k + 1))
  {
    QuotQuot(m, Pow10(k), 10);
    assert Pow10(k + 1) == Pow10(k) * 10;
  }

  /** Division of an exact multiple loses nothing. */
  lemma QuotExact(c: int, d: int)
    requires d > 0
    ensures Quot(c * d, d) == c
  {
    var n: int := Abs(c);
    if c < 0 {
      NegateProduct(c, d);
      assert Abs(c * d) == n * d;
    } else {
      assert Abs(c * d) == n * d;
    }
    DivUnique(n * d, d, n, 0);
    QuotPositive(c * d, d);
  }

  /** Truncating division toward zero is odd: it commutes with negation. */
  lemma QuotNegate(a: int, b: int, d: int)
    requires d > 0 && b == -a
    ensures Quot(b, d) == -Quot(a, d)
  {
    QuotPositive(a, d);
    QuotPositive(b, d);
    assert Abs(b) == Abs(a);
  }

  /** Truncating division never increases the magnitude and keeps the sign (or gives zero). */
  lemma QuotShrinks(a: int, d: int)
    requires d > 0
    ensures Abs(Quot(a, d)) <= Abs(a)
    ensures a >= 0 ==> Quot(a, d) >= 0
    ensures a <= 0 ==> Quot(a, d) <= 0
  {
    QuotPositive(a, d);
    DivAtMost(Abs(a), d);
  }

  /** `setSign(negative)`: the magnitude with the requested sign. */
  function SetSign(m: int, negative: bool): (r: int)
    ensures Abs(r) == Abs(m)
    ensures r != 0 ==> (r < 0 <==> negative)
  {
    var n: int := Abs(m);
    if negative then -n else n
  }

  /** The engine's three-way `compareTo`: -1, 0 or 1. */
  function Compare(x: int, y: int): (c: int)
    ensures c == -1 || c == 0 || c == 1
    ensures c < 0 <==> x < y
    ensures c == 0 <==> x == y
    ensures c > 0 <==> x > y
  {
    if x < y then -1 else if y < x then 1 else 0
  }
}
