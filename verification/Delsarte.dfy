/** Delsarte's bound on binary codes. */
module Delsarte {
  // The exact re-check of a dual linear-programming certificate, and the theorem it stands for: an
  // accepted certificate bounds every binary code of that length and distance.

  import opened Arith
  import opened Binomial
  import opened Codes
  import Krawtchouk

  /** q + sum over 1 <= j <= k of p_j K_j(i), where p_j is p[j - 1]. */
  function DualAt(n: nat, p: seq<int>, q: int, i: nat, k: nat): int
    requires i <= n && k <= |p|
  {
    if k == 0 then q else DualAt(n, p, q, i, k - 1) + p[k - 1] * Krawtchouk.K(k, i, n)
  }

  /** q + sum over 1 <= j <= k of p_j C(n,j), the numerator of the bound. */
  function BoundNumerator(n: nat, p: seq<int>, q: int, k: nat): int
    requires k <= |p|
  {
    if k == 0 then q else BoundNumerator(n, p, q, k - 1) + p[k - 1] * Comb(n, k)
  }

  ghost predicate DualFeasible(n: nat, d: nat, p: seq<int>, q: int) {
    && |p| == n
    && q > 0
    && (forall k :: 0 <= k < n ==> p[k] >= 0)
    && (forall i :: d <= i <= n ==> DualAt(n, p, q, i, n) <= 0)
  }

  datatype Problem =
    | NonPositiveScale
    | NegativeCoefficient
    | PositiveAt(i: int, value: int)

  datatype Verdict = Accepted(bound: int) | Rejected(problems: seq<Problem>)

  /** The re-check. A rejection names exactly what is wrong. */
  method VerifyIntegerCert(n: nat, d: nat, p: seq<int>, q: int) returns (v: Verdict)
    requires |p| == n
    ensures v.Accepted? <==> DualFeasible(n, d, p, q)
    ensures v.Accepted? ==> v.bound == DualAt(n, p, q, 0, n) / q
    ensures v.Rejected? ==>
      && (NonPositiveScale in v.problems <==> q <= 0)
      && (NegativeCoefficient in v.problems <==> exists k :: 0 <= k < n && p[k] < 0)
      && (forall i, x :: PositiveAt(i, x) in v.problems
            <==> d <= i <= n && x == DualAt(n, p, q, i, n) && x > 0)
  {
    var problems: seq<Problem> := [];
    if q <= 0 {
      problems := problems + [NonPositiveScale];
    }
    if exists k :: 0 <= k < n && p[k] < 0 {
      problems := problems + [NegativeCoefficient];
    }
    var i := d;
    while i <= n
      invariant d <= i
      invariant NonPositiveScale in problems <==> q <= 0
      invariant NegativeCoefficient in problems <==> exists k :: 0 <= k < n && p[k] < 0
      invariant forall j, x :: PositiveAt(j, x) in problems
                  <==> d <= j < i && j <= n && x == DualAt(n, p, q, j, n) && x > 0
      invariant problems == [] ==> forall j :: d <= j < i && j <= n ==> DualAt(n, p, q, j, n) <= 0
    {
      var lhs := DualAt(n, p, q, i, n);
      if lhs > 0 {
        problems := problems + [PositiveAt(i, lhs)];
      }
      i := i + 1;
    }
    if problems != [] {
      assert !DualFeasible(n, d, p, q) by {
        match problems[0]
        case NonPositiveScale => assert NonPositiveScale in problems;
        case NegativeCoefficient => assert NegativeCoefficient in problems;
        case PositiveAt(j, x) => assert PositiveAt(j, x) in problems;
      }
      return Rejected(problems);
    }
    NumeratorIsValueAtZero(n, p, q, n);
    v := Accepted(BoundNumerator(n, p, q, n) / q);
  }

  lemma {:induction false} NumeratorIsValueAtZero(n: nat, p: seq<int>, q: int, k: nat)
    requires k <= |p|
    ensures BoundNumerator(n, p, q, k) == DualAt(n, p, q, 0, k)
  {
    if k > 0 {
      NumeratorIsValueAtZero(n, p, q, k - 1);
      Krawtchouk.AtZero(k, n);
    }
  }

  // ----- Counting pairs of codewords by characters

  ghost predicate OfLength(c: seq<Word>, n: nat) {
    forall i :: 0 <= i < |c| ==> |c[i]| == n
  }

  /** The sum of one character over a list of words. */
  ghost function Proj(u: Word, c: seq<Word>): int {
    if c == [] then 0 else Krawtchouk.Chi(u, c[0]) + Proj(u, c[1..])
  }

  /** The character sums at the differences of the words of c from y. */
  ghost function Cross(us: seq<Word>, n: nat, c: seq<Word>, y: Word): int
    requires OfLength(c, n) && |y| == n
  {
    if c == [] then 0 else Krawtchouk.CharSum(us, Xor(c[0], y)) + Cross(us, n, c[1..], y)
  }

  ghost function Pairs(us: seq<Word>, n: nat, c: seq<Word>, e: seq<Word>): int
    requires OfLength(c, n) && OfLength(e, n)
  {
    if e == [] then 0 else Cross(us, n, c, e[0]) + Pairs(us, n, c, e[1..])
  }

  ghost function Energy(us: seq<Word>, c: seq<Word>): int {
    if us == [] then 0 else Proj(us[0], c) * Proj(us[0], c) + Energy(us[1..], c)
  }

  lemma {:induction false} CrossStep(us: seq<Word>, n: nat, c: seq<Word>, y: Word)
    requires us != [] && OfLength(c, n) && |y| == n
    ensures Cross(us, n, c, y) == Krawtchouk.Chi(us[0], y) * Proj(us[0], c) + Cross(us[1..], n, c, y)
  {
    if c != [] {
      CrossStep(us, n, c[1..], y);
      Krawtchouk.ChiXor(us[0], c[0], y);
      Distribute(Krawtchouk.Chi(us[0], y), Krawtchouk.Chi(us[0], c[0]), Proj(us[0], c[1..]));
    }
  }

  lemma {:induction false} PairsStep(us: seq<Word>, n: nat, c: seq<Word>, e: seq<Word>)
    requires us != [] && OfLength(c, n) && OfLength(e, n)
    ensures Pairs(us, n, c, e) == Proj(us[0], c) * Proj(us[0], e) + Pairs(us[1..], n, c, e)
  {
    if e != [] {
      PairsStep(us, n, c, e[1..]);
      CrossStep(us, n, c, e[0]);
      Distribute(Proj(us[0], c), Krawtchouk.Chi(us[0], e[0]), Proj(us[0], e[1..]));
    }
  }

  lemma {:induction false} PairsOfNone(n: nat, c: seq<Word>, e: seq<Word>)
    requires OfLength(c, n) && OfLength(e, n)
    ensures Pairs([], n, c, e) == 0
  {
    if e != [] {
      PairsOfNone(n, c, e[1..]);
      CrossOfNone(n, c, e[0]);
    }
  }

  lemma {:induction false} CrossOfNone(n: nat, c: seq<Word>, y: Word)
    requires OfLength(c, n) && |y| == n
    ensures Cross([], n, c, y) == 0
  {
    if c != [] {
      CrossOfNone(n, c[1..], y);
    }
  }

  /** Summed over all pairs of codewords, character sums are a sum of squares. */
  lemma {:induction false} PairsAreSquares(us: seq<Word>, n: nat, c: seq<Word>)
    requires OfLength(c, n)
    ensures Pairs(us, n, c, c) == Energy(us, c) >= 0
  {
    if us == [] {
      PairsOfNone(n, c, c);
    } else {
      PairsStep(us, n, c, c);
      PairsAreSquares(us[1..], n, c);
      SquareNonNegative(Proj(us[0], c));
    }
  }

  lemma SquareNonNegative(x: int)
    ensures x * x >= 0
  {
  }

  // ----- The same count through the dual polynomial

  /** The dual polynomial, cut after degree k, summed over the distances of c from y. */
  ghost function Row(n: nat, p: seq<int>, q: int, k: nat, c: seq<Word>, y: Word): int
    requires k <= |p| && OfLength(c, n) && |y| == n
  {
    if c == [] then 0 else DualAt(n, p, q, Dist(c[0], y), k) + Row(n, p, q, k, c[1..], y)
  }

  ghost function Total(n: nat, p: seq<int>, q: int, k: nat, c: seq<Word>, e: seq<Word>): int
    requires k <= |p| && OfLength(c, n) && OfLength(e, n)
  {
    if e == [] then 0 else Row(n, p, q, k, c, e[0]) + Total(n, p, q, k, c, e[1..])
  }

  /** us has the Krawtchouk value of degree k as its character sum at every word. */
  ghost predicate SumsTo(us: seq<Word>, k: nat, n: nat) {
    forall z: Word :: |z| == n ==> Krawtchouk.CharSum(us, z) == Krawtchouk.K(k, Weight(z), n)
  }

  lemma {:induction false} RowStep(us: seq<Word>, n: nat, p: seq<int>, q: int, k: nat, c: seq<Word>, y: Word)
    requires 0 < k <= |p| && OfLength(c, n) && |y| == n && SumsTo(us, k, n)
    ensures Row(n, p, q, k, c, y) == Row(n, p, q, k - 1, c, y) + p[k - 1] * Cross(us, n, c, y)
  {
    if c != [] {
      RowStep(us, n, p, q, k, c[1..], y);
      DistIsXorWeight(c[0], y);
      var z := Krawtchouk.CharSum(us, Xor(c[0], y));
      assert z == Krawtchouk.K(k, Dist(c[0], y), n);
      Distribute(p[k - 1], z, Cross(us, n, c[1..], y));
    }
  }

  lemma {:induction false} TotalStep(us: seq<Word>, n: nat, p: seq<int>, q: int, k: nat, c: seq<Word>, e: seq<Word>)
    requires 0 < k <= |p| && OfLength(c, n) && OfLength(e, n) && SumsTo(us, k, n)
    ensures Total(n, p, q, k, c, e) == Total(n, p, q, k - 1, c, e) + p[k - 1] * Pairs(us, n, c, e)
  {
    if e != [] {
      TotalStep(us, n, p, q, k, c, e[1..]);
      RowStep(us, n, p, q, k, c, e[0]);
      Distribute(p[k - 1], Cross(us, n, c, e[0]), Pairs(us, n, c, e[1..]));
    }
  }

  lemma {:induction false} RowBase(n: nat, p: seq<int>, q: int, c: seq<Word>, y: Word)
    requires OfLength(c, n) && |y| == n
    ensures Row(n, p, q, 0, c, y) == |c| * q
  {
    if c != [] {
      RowBase(n, p, q, c[1..], y);
    }
  }

  lemma {:induction false} TotalBase(n: nat, p: seq<int>, q: int, c: seq<Word>, e: seq<Word>)
    requires OfLength(c, n) && OfLength(e, n)
    ensures Total(n, p, q, 0, c, e) == |e| * (|c| * q)
  {
    if e != [] {
      TotalBase(n, p, q, c, e[1..]);
      RowBase(n, p, q, c, e[0]);
    }
  }

  lemma {:induction false} TotalFromBelow(n: nat, p: seq<int>, q: int, k: nat, c: seq<Word>)
    requires k <= |p| && OfLength(c, n)
    requires forall j :: 0 <= j < |p| ==> p[j] >= 0
    ensures Total(n, p, q, k, c, c) >= |c| * (|c| * q)
  {
    if k == 0 {
      TotalBase(n, p, q, c, c);
    } else {
      TotalFromBelow(n, p, q, k - 1, c);
      var us := Krawtchouk.Words(n, k);
      forall z: Word | |z| == n ensures Krawtchouk.CharSum(us, z) == Krawtchouk.K(k, Weight(z), n) {
        Krawtchouk.KIsCharSum(k, z);
      }
      AddSquares(us, n, p, q, k, c);
    }
  }

  lemma AddSquares(us: seq<Word>, n: nat, p: seq<int>, q: int, k: nat, c: seq<Word>)
    requires 0 < k <= |p| && OfLength(c, n) && SumsTo(us, k, n) && p[k - 1] >= 0
    ensures Total(n, p, q, k, c, c) >= Total(n, p, q, k - 1, c, c)
  {
    TotalStep(us, n, p, q, k, c, c);
    PairsAreSquares(us, n, c);
    ProductNonNegative(p[k - 1], Pairs(us, n, c, c));
  }

  /** f is the value at distance zero; every other distance that occurs contributes nothing positive. */
  ghost predicate Dominated(n: nat, p: seq<int>, q: int, d: nat, f: int)
    requires |p| == n
  {
    DualAt(n, p, q, 0, n) == f && forall i :: d <= i <= n ==> DualAt(n, p, q, i, n) <= 0
  }

  ghost predicate Distinct(c: seq<Word>) {
    forall i, j :: 0 <= i < j < |c| ==> c[i] != c[j]
  }

  lemma {:induction false} RowFromAbove(n: nat, d: nat, p: seq<int>, q: int, c: seq<Word>, y: Word, f: int)
    requires |p| == n && Dominated(n, p, q, d, f) && OfLength(c, n) && |y| == n && Distinct(c)
    requires forall i :: 0 <= i < |c| ==> c[i] == y || Dist(c[i], y) >= d
    ensures Row(n, p, q, n, c, y) <= if y in c then f else 0
  {
    if c != [] {
      RowFromAbove(n, d, p, q, c[1..], y, f);
      DistZero(c[0], y);
    }
  }

  lemma {:induction false} TotalFromAbove(n: nat, p: seq<int>, q: int, c: seq<Word>, e: seq<Word>, f: int)
    requires |p| == n && OfLength(c, n) && OfLength(e, n)
    requires forall j :: 0 <= j < |e| ==> Row(n, p, q, n, c, e[j]) <= f
    ensures Total(n, p, q, n, c, e) <= |e| * f
  {
    if e != [] {
      TotalFromAbove(n, p, q, c, e[1..], f);
      var m := |e[1..]|;
      assert |e| == m + 1 && (m + 1) * f == m * f + f;
    }
  }

  lemma CancelSize(m: nat, q: int, f: int)
    requires q > 0 && f >= 0 && m * (m * q) <= m * f
    ensures m <= f / q
  {
    if m > 0 {
      CancelLe(m, m * q, f);
    }
    FloorAtLeast(m, q, f);
  }

  /** Listing a finite set of words without repetition. */
  lemma {:induction false} ListOf(c: set<Word>) returns (l: seq<Word>)
    ensures |l| == |c|
    ensures forall x :: x in l <==> x in c
    ensures Distinct(l)
    decreases |c|
  {
    if c == {} {
      l := [];
    } else {
      var x :| x in c;
      var rest := ListOf(c - {x});
      l := [x] + rest;
    }
  }

  lemma ValueAtZeroPositive(n: nat, d: nat, p: seq<int>, q: int, k: nat)
    requires DualFeasible(n, d, p, q) && k <= n
    ensures DualAt(n, p, q, 0, k) > 0
  {
    if k > 0 {
      ValueAtZeroPositive(n, d, p, q, k - 1);
      Krawtchouk.AtZero(k, n);
      ProductNonNegative(p[k - 1], Comb(n, k));
    }
  }

  /** Delsarte's theorem for the certificate format: every binary code of length n whose distinct
      words are at least d apart has at most floor(f(0)) words. */
  lemma CertificateBoundsCodes(n: nat, d: nat, p: seq<int>, q: int, c: set<Word>)
    requires DualFeasible(n, d, p, q) && IsCode(c, n, d)
    ensures |c| <= DualAt(n, p, q, 0, n) / q
  {
    var l := ListOf(c);
    assert OfLength(l, n);
    TotalFromBelow(n, p, q, n, l);
    var f := DualAt(n, p, q, 0, n);
    forall j | 0 <= j < |l| ensures Row(n, p, q, n, l, l[j]) <= f {
      RowFromAbove(n, d, p, q, l, l[j], f);
    }
    TotalFromAbove(n, p, q, l, l, f);
    ValueAtZeroPositive(n, d, p, q, n);
    CancelSize(|l|, q, f);
  }
}
