/** From rational proposals to integer certificates. */
module Rationalize {
  // Turning an untrusted rational proposal into an integer certificate: whatever was proposed, the
  // answer bounds every code, and it is the best of the attempts.

  import opened Collections
  import opened Arith
  import opened Codes
  import opened Delsarte
  import opened Fractions

  datatype Certificate = Certificate(p: seq<int>, bound: int, q: int, grid: nat)

  /** Every coefficient one grid step up. */
  function Nudged(p: seq<int>, q: nat, grid: nat): (r: seq<int>)
    ensures |r| == |p|
  {
    seq(|p|, k requires 0 <= k < |p| => p[k] + if grid != 0 then q / grid else 1)
  }

  /** The certificate one grid yields: the scaled proposal if it is feasible, or else the nudged one. */
  ghost function Attempt(n: nat, d: nat, fr: seq<Fraction>, grid: nat): Option<Certificate>
    requires Proper(fr) && |fr| == n
  {
    var q := Denominator(fr, n);
    var p := Numerators(fr, q);
    var up := Nudged(p, q, grid);
    if DualFeasible(n, d, p, q) then Some(Certificate(p, DualAt(n, p, q, 0, n) / q, q, grid))
    else if DualFeasible(n, d, up, q) then Some(Certificate(up, DualAt(n, up, q, 0, n) / q, q, grid))
    else None
  }

  // ----- What an attempt is, without its formulas

  /** The integers p over q are the fractions, and q is the least common multiple of the denominators. */
  ghost predicate OverLeast(fr: seq<Fraction>, p: seq<int>, q: nat) {
    OverDenominator(fr, p, q) && LeastDenominator(fr, q)
  }

  /** s of q parts are the most that make no more than one of grid parts; without a grid it is one part. */
  predicate WholeStep(s: int, q: nat, grid: nat) {
    if grid == 0 then s == 1 else grid * s <= q < grid * (s + 1)
  }

  /** Every integer of up lies one such step above that of p. */
  predicate OneStepUp(p: seq<int>, up: seq<int>, q: nat, grid: nat) {
    |up| == |p| && forall k :: 0 <= k < |p| ==> WholeStep(up[k] - p[k], q, grid)
  }

  ghost function CertificateOf(n: nat, p: seq<int>, q: nat, grid: nat): Certificate
    requires q > 0 && |p| == n
  {
    Certificate(p, DualAt(n, p, q, 0, n) / q, q, grid)
  }

  /** The attempt is the proposal in lowest terms if that is feasible, or else the proposal raised by one
      step if that is, or else nothing. */
  ghost predicate TriesBoth(n: nat, d: nat, fr: seq<Fraction>, grid: nat, r: Option<Certificate>) {
    forall p: seq<int>, up: seq<int>, q: nat | OverLeast(fr, p, q) && OneStepUp(p, up, q, grid) && |fr| == n ::
      r == if DualFeasible(n, d, p, q) then Some(CertificateOf(n, p, q, grid))
           else if DualFeasible(n, d, up, q) then Some(CertificateOf(n, up, q, grid))
           else None
  }

  lemma OneLeast(a: int, b: int)
    requires a > 0 && b > 0 && IsMultiple(a, b) && IsMultiple(b, a)
    ensures a == b
  {
    var s :| IsTimes(a, b, s);
    var t :| IsTimes(b, a, t);
    CancelLt(b, 0, s);
    CancelLt(a, 0, t);
    ProductNonNegative(b, s - 1);
    ProductNonNegative(a, t - 1);
    Distribute(b, s, -1);
    Distribute(a, t, -1);
  }

  lemma OneStep(s: int, q: nat, grid: nat)
    requires WholeStep(s, q, grid)
    ensures s == if grid != 0 then q / grid else 1
  {
    if grid != 0 {
      FloorAtLeast(s, grid, q);
      CancelLt(grid, q / grid, s + 1);
    }
  }

  lemma StepIsWhole(q: nat, grid: nat)
    ensures WholeStep(if grid != 0 then q / grid else 1, q, grid)
  {
    if grid != 0 {
      Distribute(grid, q / grid, 1);
    }
  }

  lemma NudgedIsStep(p: seq<int>, q: nat, grid: nat)
    ensures OneStepUp(p, Nudged(p, q, grid), q, grid)
  {
    StepIsWhole(q, grid);
  }

  lemma ScaledIsLeast(fr: seq<Fraction>)
    requires Proper(fr)
    ensures OverLeast(fr, Numerators(fr, Denominator(fr, |fr|)), Denominator(fr, |fr|))
  {
    NumeratorsClear(fr);
    DenominatorIsLeast(fr);
  }

  lemma SameNumerator(f: Fraction, a: int, b: int, q: nat)
    requires f.den > 0 && SameFraction(f, a, q) && SameFraction(f, b, q)
    ensures a == b
  {
    CancelLe(f.den, a, b);
    CancelLe(f.den, b, a);
  }

  lemma LeastIsUnique(fr: seq<Fraction>, p: seq<int>, q: nat, p': seq<int>, q': nat)
    requires Proper(fr) && OverLeast(fr, p, q) && OverLeast(fr, p', q')
    ensures q == q' && p == p'
  {
    OneLeast(q, q');
    forall k | 0 <= k < |fr| ensures p[k] == p'[k] {
      SameNumerator(fr[k], p[k], p'[k], q);
    }
  }

  lemma StepIsUnique(p: seq<int>, up: seq<int>, q: nat, grid: nat)
    requires OneStepUp(p, up, q, grid)
    ensures up == Nudged(p, q, grid)
  {
    forall k | 0 <= k < |p| ensures up[k] == Nudged(p, q, grid)[k] {
      OneStep(up[k] - p[k], q, grid);
    }
  }

  /** Attempt is that, and there are such a proposal and such a raised one. */
  lemma AttemptTriesBoth(n: nat, d: nat, fr: seq<Fraction>, grid: nat)
    requires Proper(fr) && |fr| == n
    ensures TriesBoth(n, d, fr, grid, Attempt(n, d, fr, grid))
    ensures exists p, up, q: nat :: OverLeast(fr, p, q) && OneStepUp(p, up, q, grid)
  {
    var q := Denominator(fr, n);
    var p := Numerators(fr, q);
    ScaledIsLeast(fr);
    NudgedIsStep(p, q, grid);
    forall p', up, q': nat | OverLeast(fr, p', q') && OneStepUp(p', up, q', grid)
      ensures p' == p && q' == q && up == Nudged(p, q, grid)
    {
      LeastIsUnique(fr, p, q, p', q');
      StepIsUnique(p', up, q', grid);
    }
  }

  /** The retry repeats the proposal exactly if q is below the grid. */
  lemma RetryMovesWhen(p: seq<int>, q: nat, grid: nat, up: seq<int>)
    requires OneStepUp(p, up, q, grid) && p != []
    ensures up != p <==> grid == 0 || q >= grid
  {
    StepIsUnique(p, up, q, grid);
    assert up[0] == p[0] + if grid != 0 then q / grid else 1;
    if up == p {
      OneStep(0, q, grid);
    }
  }

  /** A half, on the grid of sixths, is retried unchanged. */
  lemma HalfIsNotRaised()
    ensures OverLeast([Fraction(1, 2)], [1], 2) && OneStepUp([1], [1], 2, 6)
  {
    var half := [Fraction(1, 2)];
    assert Gcd(1, 2) == Gcd(2, 1) == Gcd(1, 0) == 1;
    assert Denominator(half, 1) == Lcm(Denominator(half, 0), 2) == Lcm(1, 2) == 2;
    assert Numerators(half, 2) == [1];
    ScaledIsLeast(half);
  }

  method CommonDenominator(fr: seq<Fraction>) returns (q: nat)
    requires Proper(fr)
    ensures q == Denominator(fr, |fr|) && q > 0
  {
    q := 1;
    for k := 0 to |fr|
      invariant q == Denominator(fr, k) && q > 0
    {
      var g := GcdLoop(q, fr[k].den);
      LcmMultiple(q, fr[k].den);
      GcdPositive(q, fr[k].den);
      q := q * fr[k].den / g;
    }
  }

  method AttemptGrid(n: nat, d: nat, fr: seq<Fraction>, grid: nat) returns (r: Option<Certificate>)
    requires Proper(fr) && |fr| == n
    ensures r == Attempt(n, d, fr, grid)
  {
    var q := CommonDenominator(fr);
    var p := Numerators(fr, q);
    var v := VerifyIntegerCert(n, d, p, q);
    if v.Rejected? {
      p := Nudged(p, q, grid);
      v := VerifyIntegerCert(n, d, p, q);
    }
    r := if v.Accepted? then Some(Certificate(p, v.bound, q, grid)) else None;
  }

  /** Certificate at is the first of those with the least bound. */
  ghost predicate BestAt(attempts: seq<Option<Certificate>>, upto: nat, at: nat)
    requires upto <= |attempts|
  {
    at < upto && attempts[at].Some?
    && forall i :: 0 <= i < upto && attempts[i].Some? ==>
         attempts[at].value.bound <= attempts[i].value.bound
         && (i < at ==> attempts[at].value.bound < attempts[i].value.bound)
  }

  ghost predicate IsBest(attempts: seq<Option<Certificate>>, upto: nat, best: Option<Certificate>)
    requires upto <= |attempts|
  {
    if best.None? then forall i :: 0 <= i < upto ==> attempts[i].None?
    else exists at: nat :: BestAt(attempts, upto, at) && attempts[at] == best
  }

  lemma KeepBest(attempts: seq<Option<Certificate>>, i: nat, best: Option<Certificate>)
    requires i < |attempts| && IsBest(attempts, i, best)
    ensures
      if attempts[i].Some? && (best.None? || attempts[i].value.bound < best.value.bound)
      then IsBest(attempts, i + 1, attempts[i]) else IsBest(attempts, i + 1, best)
  {
    if attempts[i].Some? && (best.None? || attempts[i].value.bound < best.value.bound) {
      assert BestAt(attempts, i + 1, i);
    } else if best.Some? {
      var at: nat :| BestAt(attempts, i, at) && attempts[at] == best;
      assert BestAt(attempts, i + 1, at);
    }
  }

  ghost function Attempts(n: nat, d: nat, rounded: seq<seq<Fraction>>, grids: seq<nat>): (r: seq<Option<Certificate>>)
    requires |grids| == |rounded|
    requires forall i :: 0 <= i < |rounded| ==> Proper(rounded[i]) && |rounded[i]| == n
  {
    seq(|grids|, i requires 0 <= i < |grids| => Attempt(n, d, rounded[i], grids[i]))
  }

  /** However bad the proposal, the bound of an attempt holds for every code. */
  lemma AttemptBoundsCodes(n: nat, d: nat, fr: seq<Fraction>, grid: nat, c: set<Word>)
    requires Proper(fr) && |fr| == n && Attempt(n, d, fr, grid).Some? && IsCode(c, n, d)
    ensures |c| <= Attempt(n, d, fr, grid).value.bound
  {
    var best := Attempt(n, d, fr, grid).value;
    CertificateBoundsCodes(n, d, best.p, best.q, c);
  }

  /** rounded[i] is the proposal with denominators of at most grids[i]. The answer is the first of the
      attempts with the least bound, and that bound holds for every code. */
  method RationalizeAndVerify(n: nat, d: nat, rounded: seq<seq<Fraction>>, grids: seq<nat>)
    returns (best: Option<Certificate>)
    requires |grids| == |rounded|
    requires forall i :: 0 <= i < |rounded| ==> Proper(rounded[i]) && |rounded[i]| == n
    ensures IsBest(Attempts(n, d, rounded, grids), |grids|, best)
    ensures forall i :: 0 <= i < |grids| ==> TriesBoth(n, d, rounded[i], grids[i], Attempts(n, d, rounded, grids)[i])
    ensures best.Some? ==> forall c :: IsCode(c, n, d) ==> |c| <= best.value.bound
  {
    best := None;
    ghost var attempts := Attempts(n, d, rounded, grids);
    for i := 0 to |grids|
      invariant IsBest(attempts, i, best)
    {
      var r := AttemptGrid(n, d, rounded[i], grids[i]);
      assert r == attempts[i];
      KeepBest(attempts, i, best);
      if r.Some? && (best.None? || r.value.bound < best.value.bound) {
        best := r;
      }
    }
    forall i | 0 <= i < |grids| ensures TriesBoth(n, d, rounded[i], grids[i], attempts[i]) {
      AttemptTriesBoth(n, d, rounded[i], grids[i]);
    }
    if best.Some? {
      ghost var at: nat :| BestAt(attempts, |grids|, at) && attempts[at] == best;
      forall c | IsCode(c, n, d) ensures |c| <= best.value.bound {
        AttemptBoundsCodes(n, d, rounded[at], grids[at], c);
      }
    }
  }
}
