/** `toPrettyString`: the mantissa, then `*e^(`, the exponent and `)`. */
module Formatting {
  import opened Wrappers
  import opened DecimalText
  import opened Representation
  import opened Comparison

  /** `toPrettyString` (:301-304), for example "-1242134*e^(-4)". */
  function PrettyString(v: BigFloat): (s: string)
    ensures |s| > 5 && s[|s| - 1] == ')'
  {
    IntToString(v.mantissa) + "*e^(" + IntToString(v.exponent) + ")"
  }

  /** Two values print alike exactly when `==` holds between them: the text determines mantissa and exponent. */
  lemma PrettyStringDecidesEq(a: BigFloat, b: BigFloat)
    ensures PrettyString(a) == PrettyString(b) <==> Eq(a, b)
  {
    if PrettyString(a) == PrettyString(b) {
      PartsDetermine(IntToString(a.mantissa), IntToString(a.exponent), IntToString(b.mantissa), IntToString(b.exponent));
      IntToStringInjective(a.mantissa, b.mantissa);
      IntToStringInjective(a.exponent, b.exponent);
    }
  }

  /** A printed mantissa holds no '*', so the text splits back into its mantissa and exponent parts. */
  lemma PartsDetermine(ma: string, ea: string, mb: string, eb: string)
    requires ma + "*e^(" + ea + ")" == mb + "*e^(" + eb + ")"
    requires forall i :: 0 <= i < |ma| ==> IsDigit(ma[i]) || ma[i] == '-'
    requires forall i :: 0 <= i < |mb| ==> IsDigit(mb[i]) || mb[i] == '-'
    ensures ma == mb && ea == eb
  {
    var ta, tb := "*e^(" + ea + ")", "*e^(" + eb + ")";
    RegroupText(ma, ea);
    RegroupText(mb, eb);
    SplitAtStar(ma + ta, ma, ta, mb, tb);
    TailDetermines(ea, eb);
  }

  lemma RegroupText(m: string, e: string)
    ensures m + "*e^(" + e + ")" == m + ("*e^(" + e + ")")
  {
    ConcatAssoc(m, "*e^(", e);
    ConcatAssoc(m, "*e^(" + e, ")");
  }

  lemma TailDetermines(x: string, y: string)
    requires "*e^(" + x + ")" == "*e^(" + y + ")"
    ensures x == y
  {
    assert ("*e^(" + x + ")")[4..|x| + 4] == x;
    assert ("*e^(" + y + ")")[4..|y| + 4] == y;
  }

  lemma IntToStringInjective(x: int, y: int)
    requires IntToString(x) == IntToString(y)
    ensures x == y
  {
    assert ParseInteger(IntToString(x)) == Some(x);
    assert ParseInteger(IntToString(y)) == Some(y);
  }

  /** A prefix written without '*' before a tail that starts with '*' is determined by the whole text. */
  lemma SplitAtStar(s: string, a: string, t: string, b: string, u: string)
    requires s == a + t && s == b + u
    requires |t| > 0 && t[0] == '*' && |u| > 0 && u[0] == '*'
    requires forall i :: 0 <= i < |a| ==> IsDigit(a[i]) || a[i] == '-'
    requires forall i :: 0 <= i < |b| ==> IsDigit(b[i]) || b[i] == '-'
    ensures a == b && t == u
  {
    assert a == s[..|a|] && b == s[..|b|];
    assert t == s[|a|..] && u == s[|b|..];
  }
}
