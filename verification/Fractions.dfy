/** Fractions and their common denominator. */
module Fractions {
  // Fractions over their least common denominator: as integers, without loss.

  import opened Arith
  import opened Congruence

  datatype Fraction = Fraction(num: int, den: nat)

  ghost predicate Proper(fr: seq<Fraction>) {
    forall k :: 0 <= k < |fr| ==> fr[k].den > 0
  }

  /** The common denominator, folded from the left. */
  function Denominator(fr: seq<Fraction>, k: nat): nat
    requires k <= |fr|
  {
    if k == 0 then 1 else Lcm(Denominator(fr, k - 1), fr[k - 1].den)
  }

  lemma {:induction false} DenominatorMultiple(fr: seq<Fraction>, k: nat)
    requires Proper(fr) && k <= |fr|
    ensures Denominator(fr, k) > 0 && forall i :: 0 <= i < k ==> IsMultiple(Denominator(fr, k), fr[i].den)
  {
    if k > 0 {
      DenominatorMultiple(fr, k - 1);
      LcmMultiple(Denominator(fr, k - 1), fr[k - 1].den);
      forall i | 0 <= i < k - 1 ensures IsMultiple(Denominator(fr, k), fr[i].den) {
        MultipleTransitive(Denominator(fr, k), Denominator(fr, k - 1), fr[i].den);
      }
    }
  }

  ghost predicate CommonMultiple(fr: seq<Fraction>, k: nat, x: int)
    requires k <= |fr|
  {
    forall i :: 0 <= i < k ==> IsMultiple(x, fr[i].den)
  }

  /** And every other one is a multiple of it. */
  ghost predicate LeastDenominator(fr: seq<Fraction>, d: int) {
    CommonMultiple(fr, |fr|, d) && forall x :: CommonMultiple(fr, |fr|, x) ==> IsMultiple(x, d)
  }

  /** It is the least: every common multiple of the denominators is a multiple of it. */
  lemma {:induction false} DenominatorLeast(fr: seq<Fraction>, k: nat, x: int)
    requires Proper(fr) && k <= |fr| && CommonMultiple(fr, k, x)
    ensures IsMultiple(x, Denominator(fr, k))
  {
    if k == 0 {
      assert IsTimes(x, 1, x);
    } else {
      DenominatorLeast(fr, k - 1, x);
      DenominatorMultiple(fr, k - 1);
      LcmLeast(Denominator(fr, k - 1), fr[k - 1].den, x);
    }
  }

  lemma DenominatorIsLeast(fr: seq<Fraction>)
    requires Proper(fr)
    ensures LeastDenominator(fr, Denominator(fr, |fr|))
  {
    DenominatorMultiple(fr, |fr|);
    forall x | CommonMultiple(fr, |fr|, x) ensures IsMultiple(x, Denominator(fr, |fr|)) {
      DenominatorLeast(fr, |fr|, x);
    }
  }

  /** Division of integers rounding towards zero. */
  function Truncate(a: int, b: nat): int
    requires b > 0
  {
    if a >= 0 then a / b else -((-a) / b)
  }

  lemma TruncateExact(den: nat, t: int)
    requires den > 0
    ensures Truncate(den * t, den) == t
  {
    DivideProduct(den, t);
    DivideProduct(den, -t);
    assert -(den * t) == den * (-t);
  }

  lemma ExactNumerator(num: int, den: nat, q: int)
    requires den > 0 && IsMultiple(q, den)
    ensures Truncate(num * q, den) * den == num * q
  {
    var t :| IsTimes(q, den, t);
    assert num * q == den * (num * t);
    TruncateExact(den, num * t);
  }

  function Numerators(fr: seq<Fraction>, q: int): (p: seq<int>)
    requires Proper(fr)
    ensures |p| == |fr|
  {
    seq(|fr|, k requires 0 <= k < |fr| => Truncate(fr[k].num * q, fr[k].den))
  }

  /** Over the common denominator nothing is lost by truncating. */
  lemma NumeratorsExact(fr: seq<Fraction>, k: nat)
    requires Proper(fr) && k < |fr|
    ensures Numerators(fr, Denominator(fr, |fr|))[k] * fr[k].den == fr[k].num * Denominator(fr, |fr|)
  {
    DenominatorMultiple(fr, |fr|);
    ExactNumerator(fr[k].num, fr[k].den, Denominator(fr, |fr|));
  }

  /** Numerator k over d is fraction k. */
  ghost predicate OverDenominator(fr: seq<Fraction>, ns: seq<int>, d: nat) {
    d > 0 && |ns| == |fr| && forall k :: 0 <= k < |fr| ==> SameFraction(fr[k], ns[k], d)
  }

  predicate SameFraction(f: Fraction, n: int, d: nat) {
    n * f.den == f.num * d
  }

  lemma NumeratorsClear(fr: seq<Fraction>)
    requires Proper(fr)
    ensures OverDenominator(fr, Numerators(fr, Denominator(fr, |fr|)), Denominator(fr, |fr|))
  {
    DenominatorMultiple(fr, |fr|);
    forall k | 0 <= k < |fr|
      ensures SameFraction(fr[k], Numerators(fr, Denominator(fr, |fr|))[k], Denominator(fr, |fr|))
    {
      NumeratorsExact(fr, k);
    }
  }

  /** The least common denominator, and the integers the fractions are over it. */
  method ClearInt(fr: seq<Fraction>) returns (ns: seq<int>, d: nat)
    requires Proper(fr)
    ensures d == Denominator(fr, |fr|) && OverDenominator(fr, ns, d) && LeastDenominator(fr, d)
  {
    d := 1;
    for i := 0 to |fr|
      invariant d == Denominator(fr, i)
    {
      d := Lcm(d, fr[i].den);
    }
    NumeratorsClear(fr);
    DenominatorIsLeast(fr);
    ns := Numerators(fr, d);
  }
}
