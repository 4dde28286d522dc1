/**
  Scale-aligned addition, subtraction as addition of the negation, unary
  minus, and the increment and decrement steps built on them.
 */
module Additive {
  import opened BigInteger
  import opened Representation
  import opened Comparison

  /** Unary `-` (:79-85): the mantissa negated; exponent and accuracy copied. */
  function Negate(v: BigFloat): (r: BigFloat)
    ensures r.exponent == v.exponent && r.accuracy == v.accuracy
    ensures forall t :: t <= v.exponent ==> Scaled(r, t) == -Scaled(v, t)
  {
    v.(mantissa := -v.mantissa)
  }

  /** Negation is an involution. */
  lemma NegateInvolution(v: BigFloat)
    ensures Negate(Negate(v)) == v
  {}

  /**
    The aligned sum `addition` forms before normalising (:183-202): the
    operand with the larger exponent (b on ties) is copied, brought down to
    the other's exponent, and the mantissas are added. The accuracy is the
    copied operand's.
   */
  function Sum(a: BigFloat, b: BigFloat): (r: BigFloat)
    ensures r.exponent == Common(a, b)
    ensures r.accuracy == (if a.exponent <= b.exponent then b.accuracy else a.accuracy)
  {
    var t := Common(a, b);
    BigFloat(t, Scaled(a, t) + Scaled(b, t), if a.exponent <= b.exponent then b.accuracy else a.accuracy)
  }

  /** The aligned sum is exact: at every common exponent its scaled mantissa is the sum of the operands'. */
  lemma SumExact(a: BigFloat, b: BigFloat, t: int)
    requires t <= a.exponent && t <= b.exponent
    ensures Scaled(Sum(a, b), t) == Scaled(a, t) + Scaled(b, t)
  {
    var s, c := Sum(a, b), Common(a, b);
    ScaledLower(a, c, t);
    ScaledLower(b, c, t);
    ScaledLower(s, c, t);
    Distribute(Scaled(a, c), Scaled(b, c), Pow10(c - t));
  }

  lemma Distribute(x: int, y: int, p: int)
    ensures (x + y) * p == x * p + y * p
  {}

  /** `addition`: the aligned sum, normalised with the copied operand's accuracy. */
  function Addition(a: BigFloat, b: BigFloat): (r: BigFloat)
    ensures WellFormed(r)
    ensures r.accuracy == (if a.exponent <= b.exponent then b.accuracy else a.accuracy)
    ensures SameValue(r, Truncation(Sum(a, b)))
  {
    NormalTruncates(Sum(a, b));
    Normal(Sum(a, b))
  }

  /** The loop form of `addition`. */
  method Add(a: BigFloat, b: BigFloat) returns (r: BigFloat)
    ensures r == Addition(a, b)
  {
    var val: BigFloat;
    if a.exponent <= b.exponent {
      val := b;
      while a.exponent < val.exponent
        invariant a.exponent <= val.exponent
        invariant val.accuracy == b.accuracy
        invariant Scaled(val, a.exponent) == Scaled(b, a.exponent)
        decreases val.exponent - a.exponent
      {
        ShiftDown(val, a.exponent);
        val := val.(exponent := val.exponent - 1, mantissa := val.mantissa * 10);
      }
      val := val.(mantissa := a.mantissa + val.mantissa);
    } else {
      val := a;
      while val.exponent > b.exponent
        invariant b.exponent <= val.exponent
        invariant val.accuracy == a.accuracy
        invariant Scaled(val, b.exponent) == Scaled(a, b.exponent)
        decreases val.exponent - b.exponent
      {
        ShiftDown(val, b.exponent);
        val := val.(exponent := val.exponent - 1, mantissa := val.mantissa * 10);
      }
      val := val.(mantissa := val.mantissa + b.mantissa);
    }
    assert val == Sum(a, b);
    r := Normalize(val);
  }

  /**
    Operands of one accuracy that both respect it add without loss: the
    result stands for the exact sum and is canonical.
   */
  lemma AdditionExact(a: BigFloat, b: BigFloat)
    requires WellFormed(a) && WellFormed(b) && a.accuracy == b.accuracy
    ensures SameValue(Addition(a, b), Sum(a, b))
    ensures Canonical(Addition(a, b))
  {
    var s := Sum(a, b);
    var (m1, e1) := Strip(s.mantissa, s.exponent);
    assert e1 >= s.exponent >= Floor(s.accuracy);
    NormalPreservesValue(s);
  }

  /**
    Addition is commutative, except that on equal exponents the result takes
    the right operand's accuracy; with equal accuracies it always commutes.
   */
  lemma AdditionCommutes(a: BigFloat, b: BigFloat)
    requires a.exponent != b.exponent || a.accuracy == b.accuracy
    ensures Addition(a, b) == Addition(b, a)
  {
    assert Sum(a, b) == Sum(b, a);
  }

  /** Equal exponents, different accuracies: the two orders differ in accuracy alone. */
  lemma AdditionTieTakesRightAccuracy()
    ensures Addition(BigFloat(0, 1, 2), BigFloat(0, 2, 5)) == BigFloat(0, 3, 5)
    ensures Addition(BigFloat(0, 2, 5), BigFloat(0, 1, 2)) == BigFloat(0, 3, 2)
  {
    assert Strip(3, 0) == (3, 0);
  }

  /**
    On well-formed operands addition commutes under `==`: the two orders can
    differ in accuracy alone, and then both sums are exact and canonical.
   */
  lemma AdditionCommutesUnderEq(a: BigFloat, b: BigFloat)
    requires WellFormed(a) && WellFormed(b)
    ensures Eq(Addition(a, b), Addition(b, a))
  {
    if a.exponent == b.exponent && a.accuracy != b.accuracy {
      var s, s' := Sum(a, b), Sum(b, a);
      assert s.exponent == s'.exponent && s.mantissa == s'.mantissa;
      NormalPreservesValue(s);
      NormalPreservesValue(s');
      SameValueTrans(Addition(a, b), s, Addition(b, a));
      CanonicalEqualIffSameValue(Addition(a, b), Addition(b, a));
    } else {
      AdditionCommutes(a, b);
    }
  }

  /** `substraction` (:208-211): the sign of b is changed and the operands added. */
  function Subtraction(a: BigFloat, b: BigFloat): (r: BigFloat)
    ensures WellFormed(r)
    ensures r.accuracy == (if a.exponent <= b.exponent then b.accuracy else a.accuracy)
    ensures SameValue(r, Truncation(Sum(a, Negate(b))))
  {
    Addition(a, Negate(b))
  }

  /** The aligned sum with the negated operand is the exact difference. */
  lemma DifferenceExact(a: BigFloat, b: BigFloat, t: int)
    requires t <= a.exponent && t <= b.exponent
    ensures Scaled(Sum(a, Negate(b)), t) == Scaled(a, t) - Scaled(b, t)
  {
    SumExact(a, Negate(b), t);
  }

  /** `normalize` commutes with negation: truncation toward zero is symmetric. */
  lemma NormalNegate(v: BigFloat)
    ensures Normal(Negate(v)) == Negate(Normal(v))
  {
    var w := Negate(v);
    var s, s' := Strip(v.mantissa, v.exponent), Strip(w.mantissa, w.exponent);
    StripNegate(v.mantissa, w.mantissa, v.exponent);
    var t, t' := Truncate(s.0, s.1, v.accuracy), Truncate(s'.0, s'.1, w.accuracy);
    TruncateNegate(s.0, s'.0, s.1, v.accuracy);
    NormalOf(v, s, t);
    NormalOf(w, s', t');
  }

  lemma NormalOf(v: BigFloat, s: (int, int), t: (int, int))
    requires Strip(v.mantissa, v.exponent) == s && Truncate(s.0, s.1, v.accuracy) == t
    ensures Normal(v) == BigFloat(if t.0 == 0 then 0 else t.1, t.0, v.accuracy)
  {}

  /** Stripping the negated mantissa strips the same zeros. */
  lemma {:induction false} StripNegate(m: int, n: int, e: int)
    requires n == -m
    ensures Strip(n, e) == (-Strip(m, e).0, Strip(m, e).1)
    decreases Abs(m)
  {
    var qr, qr' := DivRem(m, 10), DivRem(n, 10);
    assert qr'.0 == -qr.0 && qr'.1 == -qr.1;
    if m != 0 && qr.1 == 0 {
      StripStep(m, e);
      StripStep(n, e);
      DropTen(m, qr.0);
      StripNegate(qr.0, qr'.0, e + 1);
    } else {
      StripDone(m, e);
      StripDone(n, e);
    }
  }

  /** Truncating the negated mantissa gives the negated truncation. */
  lemma TruncateNegate(m: int, n: int, e: int, accuracy: nat)
    requires n == -m
    ensures Truncate(n, e, accuracy) == (-Truncate(m, e, accuracy).0, Truncate(m, e, accuracy).1)
  {
    var r, r' := Truncate(m, e, accuracy), Truncate(n, e, accuracy);
    var p := Pow10(r.1 - e);
    assert r'.1 == r.1;
    assert r.0 == Quot(m, p) && r'.0 == Quot(n, p);
    QuotNegate(m, n, p);
  }

  /** Exchanging the operands of a subtraction negates its result (accuracies permitting). */
  lemma SubtractionAntisymmetric(a: BigFloat, b: BigFloat)
    requires a.exponent != b.exponent || a.accuracy == b.accuracy
    ensures Subtraction(a, b) == Negate(Subtraction(b, a))
  {
    var s := Sum(b, Negate(a));
    assert Sum(a, Negate(b)) == Negate(s);
    NormalNegate(s);
  }

  /** When the aligned sum already meets its accuracy, `addition` keeps its number exactly. */
  lemma AdditionWithoutTruncation(a: BigFloat, b: BigFloat)
    requires Common(a, b) >= Floor(Sum(a, b).accuracy)
    ensures SameValue(Addition(a, b), Sum(a, b))
    ensures Canonical(Addition(a, b))
  {
    var s := Sum(a, b);
    var (m1, e1) := Strip(s.mantissa, s.exponent);
    NormalPreservesValue(s);
  }

  /** Prefix `++` (:87-91): adds `BigFloat(1)`, whose accuracy wins when v's exponent is not positive. */
  function Increment(v: BigFloat): (r: BigFloat)
    ensures WellFormed(r)
    ensures r.accuracy == (if v.exponent <= 0 then DefaultAccuracy else v.accuracy)
  {
    Addition(v, One)
  }

  /** Prefix `--` (:100-104): subtracts `BigFloat(1)`, with the same accuracy rule. */
  function Decrement(v: BigFloat): (r: BigFloat)
    ensures WellFormed(r)
    ensures r.accuracy == (if v.exponent <= 0 then DefaultAccuracy else v.accuracy)
  {
    Subtraction(v, One)
  }

  /**
    `++` adds exactly one whenever v is within the default accuracy: at a
    common exponent t the scaled mantissa grows by 10^-t.
   */
  lemma IncrementAddsOne(v: BigFloat, t: int)
    requires v.exponent >= Floor(DefaultAccuracy) || v.exponent > 0
    requires t <= v.exponent && t <= 0 && t <= Increment(v).exponent
    ensures Scaled(Increment(v), t) == Scaled(v, t) + Pow10(-t)
    ensures Canonical(Increment(v))
  {
    AdditionWithoutTruncation(v, One);
    SameValueAt(Increment(v), Sum(v, One), t);
    SumExact(v, One, t);
  }

  /** `--` subtracts exactly one under the same condition. */
  lemma DecrementSubtractsOne(v: BigFloat, t: int)
    requires v.exponent >= Floor(DefaultAccuracy) || v.exponent > 0
    requires t <= v.exponent && t <= 0 && t <= Decrement(v).exponent
    ensures Scaled(Decrement(v), t) == Scaled(v, t) - Pow10(-t)
    ensures Canonical(Decrement(v))
  {
    AdditionWithoutTruncation(v, Negate(One));
    SameValueAt(Decrement(v), Sum(v, Negate(One)), t);
    DifferenceExact(v, One, t);
  }

  /** Decrementing undoes incrementing on canonical values of the default accuracy. */
  lemma DecrementUndoesIncrement(v: BigFloat)
    requires WellFormed(v) && Canonical(v) && v.accuracy == DefaultAccuracy
    ensures Decrement(Increment(v)) == v
  {
    var i := Increment(v);
    var d := Decrement(i);
    var t := Min(Min(v.exponent, 0), Min(i.exponent, d.exponent));
    IncrementAddsOne(v, t);
    DecrementSubtractsOne(i, t);
    SameValueAt(d, v, t);
    CanonicalEqualIffSameValue(d, v);
  }
}
