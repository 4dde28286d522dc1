/**
  Comparison of BigFloats: the representational `==` / `!=` and the
  aligned three-way `compareTo` (as written and as intended) with the four
  ordering operators built on the intended one.
 */
module Comparison {
  import opened BigInteger
  import opened Representation

  /** `==` (:159-161): same mantissa and same exponent; the accuracy is ignored. */
  predicate Eq(a: BigFloat, b: BigFloat)
  {
    a.mantissa == b.mantissa && a.exponent == b.exponent
  }

  /** `!=` (:163): the negation of `==`. */
  predicate NotEq(a: BigFloat, b: BigFloat)
  {
    !Eq(a, b)
  }

  /** `==` only ever holds between values that stand for the same number. */
  lemma EqSound(a: BigFloat, b: BigFloat)
    requires Eq(a, b)
    ensures SameValue(a, b)
  {}

  /** On canonical values `==` is numeric equality, in both directions. */
  lemma EqIsNumericOnCanonical(a: BigFloat, b: BigFloat)
    requires Canonical(a) && Canonical(b)
    ensures Eq(a, b) <==> SameValue(a, b)
  {
    CanonicalEqualIffSameValue(a, b);
  }

  /**
    `compareTo` as written (:238-257). When this exponent is not above b's,
    b's mantissa is brought down to this exponent and the mantissas are
    compared. In the other branch the alignment loop tests
    `val.exponent < b.exponent`, which is false on entry, so the raw
    mantissas are compared unaligned.
   */
  function ComparisonAsWritten(a: BigFloat, b: BigFloat): (c: int)
    ensures c == -1 || c == 0 || c == 1
    ensures a.exponent <= b.exponent ==> (c < 0 <==> LessValue(a, b))
    ensures a.exponent <= b.exponent ==> (c == 0 <==> SameValue(a, b))
    ensures a.exponent <= b.exponent ==> (c > 0 <==> LessValue(b, a))
    ensures a.exponent > b.exponent ==> c == Compare(a.mantissa, b.mantissa)
  {
    if a.exponent <= b.exponent then
      SameValueAt(b, a, a.exponent);
      Compare(a.mantissa, Scaled(b, a.exponent))
    else
      Compare(a.mantissa, b.mantissa)
  }

  /** The loop form of `compareTo` as written. */
  method CompareToAsWritten(a: BigFloat, b: BigFloat) returns (c: int)
    ensures c == ComparisonAsWritten(a, b)
  {
    var val: BigFloat;
    if a.exponent <= b.exponent {
      val := b;
      while a.exponent < val.exponent
        invariant a.exponent <= val.exponent
        invariant Scaled(val, a.exponent) == Scaled(b, a.exponent)
        decreases val.exponent - a.exponent
      {
        ShiftDown(val, a.exponent);
        val := val.(exponent := val.exponent - 1, mantissa := val.mantissa * 10);
      }
      c := Compare(a.mantissa, val.mantissa);
    } else {
      val := a;
      // the alignment loop of this branch does not run: its guard is false here
      assert !(val.exponent < b.exponent);
      c := Compare(val.mantissa, b.mantissa);
    }
  }

  /**
    `compareTo` as evidently intended: in the second branch this value is
    brought down to b's exponent (the guard `val.exponent > b.exponent`, as in
    `addition`). The verdict is then the numeric order on every input.
   */
  function Comparison(a: BigFloat, b: BigFloat): (c: int)
    ensures c == -1 || c == 0 || c == 1
    ensures c < 0 <==> LessValue(a, b)
    ensures c == 0 <==> SameValue(a, b)
    ensures c > 0 <==> LessValue(b, a)
  {
    if a.exponent <= b.exponent then
      SameValueAt(b, a, a.exponent);
      Compare(a.mantissa, Scaled(b, a.exponent))
    else
      SameValueAt(b, a, b.exponent);
      Compare(Scaled(a, b.exponent), b.mantissa)
  }

  /** The loop form of the intended `compareTo`. */
  method CompareTo(a: BigFloat, b: BigFloat) returns (c: int)
    ensures c == Comparison(a, b)
  {
    var val: BigFloat;
    if a.exponent <= b.exponent {
      val := b;
      while a.exponent < val.exponent
        invariant a.exponent <= val.exponent
        invariant Scaled(val, a.exponent) == Scaled(b, a.exponent)
        decreases val.exponent - a.exponent
      {
        ShiftDown(val, a.exponent);
        val := val.(exponent := val.exponent - 1, mantissa := val.mantissa * 10);
      }
      c := Compare(a.mantissa, val.mantissa);
    } else {
      val := a;
      while val.exponent > b.exponent
        invariant b.exponent <= val.exponent
        invariant Scaled(val, b.exponent) == Scaled(a, b.exponent)
        decreases val.exponent - b.exponent
      {
        ShiftDown(val, b.exponent);
        val := val.(exponent := val.exponent - 1, mantissa := val.mantissa * 10);
      }
      c := Compare(val.mantissa, b.mantissa);
    }
  }

  /** Where the source's own loop runs, the code and the intended `compareTo` agree. */
  lemma ComparisonAsWrittenAgrees(a: BigFloat, b: BigFloat)
    requires a.exponent <= b.exponent
    ensures ComparisonAsWritten(a, b) == Comparison(a, b)
  {}

  /** `a < b` (:169-171). */
  predicate Less(a: BigFloat, b: BigFloat)
  {
    Comparison(a, b) < 0
  }

  /** `a > b` (:165-167). */
  predicate Greater(a: BigFloat, b: BigFloat)
  {
    Comparison(a, b) > 0
  }

  /** `a <= b` (:177-179). */
  predicate LessEq(a: BigFloat, b: BigFloat)
  {
    Comparison(a, b) <= 0
  }

  /** `a >= b` (:173-175). */
  predicate GreaterEq(a: BigFloat, b: BigFloat)
  {
    Comparison(a, b) >= 0
  }

  /** The four operators are the numeric order. */
  lemma OrderingIsNumeric(a: BigFloat, b: BigFloat)
    ensures Less(a, b) <==> LessValue(a, b)
    ensures Greater(a, b) <==> LessValue(b, a)
    ensures LessEq(a, b) <==> !LessValue(b, a)
    ensures GreaterEq(a, b) <==> !LessValue(a, b)
  {}

  /** The numeric order at a common exponent is a strict total order: exactly one of <, =, > holds. */
  lemma Trichotomy(a: BigFloat, b: BigFloat)
    ensures LessValue(a, b) || SameValue(a, b) || LessValue(b, a)
    ensures !(LessValue(a, b) && LessValue(b, a))
    ensures !(LessValue(a, b) && SameValue(a, b))
  {
    SameValueAt(b, a, Common(a, b));
  }

  /**
    As written, the second branch can get the order wrong: 1 is (0, 1) and
    0.5 is (-1, 5); the exponents are not aligned, so 1 is compared as 1
    against 5 and comes out smaller. The intended `compareTo` puts 1 above 0.5.
   */
  lemma ComparisonAsWrittenMisorders()
    ensures LessValue(BigFloat(-1, 5, DefaultAccuracy), BigFloat(0, 1, DefaultAccuracy))
    ensures ComparisonAsWritten(BigFloat(0, 1, DefaultAccuracy), BigFloat(-1, 5, DefaultAccuracy)) == -1
    ensures Comparison(BigFloat(0, 1, DefaultAccuracy), BigFloat(-1, 5, DefaultAccuracy)) == 1
  {}

  /**
    After truncation a trailing zero can remain, so `==` is not numeric
    equality in general: "1.001" at accuracy 2 keeps (100, -2), which stands
    for 1 but differs from (1, 0).
   */
  lemma TruncationLeavesTrailingZero()
    ensures Normal(BigFloat(-3, 1001, 2)) == BigFloat(-2, 100, 2)
    ensures SameValue(BigFloat(-2, 100, 2), FromInt(1)) && NotEq(BigFloat(-2, 100, 2), FromInt(1))
  {
    assert Strip(1001, -3) == (1001, -3);
  }
}
