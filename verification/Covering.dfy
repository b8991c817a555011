/** The covering check and two lower bounds. */
module Covering {
  // Covering designs: the validity check of a list of blocks, and two lower bounds on how long an
  // accepted list can be.

  import opened Collections
  import opened Arith
  import opened Binomial
  import opened Subsets

  type Block = set<int>

  predicate Covers(blocks: seq<Block>, s: set<int>) {
    exists i :: 0 <= i < |blocks| && s <= blocks[i]
  }

  predicate IsBlock(b: Block, u: set<int>, k: nat) {
    |b| == k && b <= u
  }

  /** Every block is a k-subset of the points u, and every t-subset of u lies in some block. */
  ghost predicate IsCovering(blocks: seq<Block>, u: set<int>, k: nat, t: nat) {
    && (forall i :: 0 <= i < |blocks| ==> IsBlock(blocks[i], u, k))
    && AllCovered(blocks, Choose(u, t))
  }

  function Points(v: nat): set<int> {
    Elements(Range(v))
  }

  /** Every set of at most k points lies in a block. */
  lemma Extend(s: set<int>, u: set<int>, k: nat) returns (b: Block)
    requires s <= u && |s| <= k <= |u|
    ensures IsBlock(b, u, k) && s <= b
    decreases k - |s|
  {
    if |s| == k {
      b := s;
    } else {
      var x := Outside(s, u);
      b := Extend(s + {x}, u, k);
    }
  }

  lemma Outside(s: set<int>, u: set<int>) returns (x: int)
    requires s <= u && |s| < |u|
    ensures x in u && x !in s
  {
    assert u == s + (u - s);
    x := Member(u - s);
  }

  datatype Verdict = Accepted | BadBlock(index: nat) | Uncovered(points: seq<int>)

  ghost predicate FirstBad(blocks: seq<Block>, u: set<int>, k: nat, i: nat) {
    i < |blocks| && !IsBlock(blocks[i], u, k) && forall j :: 0 <= j < i ==> IsBlock(blocks[j], u, k)
  }

  /** All blocks are well formed, and s is the first of the lists that none of them covers. */
  ghost predicate FirstUncovered(blocks: seq<Block>, u: set<int>, k: nat, lists: seq<seq<int>>, s: seq<int>) {
    && (forall i :: 0 <= i < |blocks| ==> IsBlock(blocks[i], u, k))
    && exists j :: 0 <= j < |lists| && lists[j] == s && !Covers(blocks, Elements(s))
         && forall i :: 0 <= i < j ==> Covers(blocks, Elements(lists[i]))
  }

  ghost predicate AllCovered(blocks: seq<Block>, sets: set<set<int>>) {
    forall s :: s in sets ==> Covers(blocks, s)
  }

  /** Going through the enumeration decides whether every t-subset is covered. */
  lemma ListsDecide(blocks: seq<Block>, v: nat, t: nat, lists: seq<seq<int>>)
    requires lists == Combs(t, Range(v))
    ensures (forall j :: 0 <= j < |lists| ==> Covers(blocks, Elements(lists[j])))
      <==> AllCovered(blocks, Choose(Points(v), t))
  {
    RangeElements(v);
    CombsComplete(t, Range(v));
    if AllCovered(blocks, Choose(Points(v), t)) {
      forall j | 0 <= j < |lists| ensures Covers(blocks, Elements(lists[j])) {
        assert Elements(lists[j]) in Choose(Points(v), t);
      }
    }
  }

  method FirstBadBlock(blocks: seq<Block>, u: set<int>, k: nat) returns (i: nat)
    ensures i <= |blocks| && forall j :: 0 <= j < i ==> IsBlock(blocks[j], u, k)
    ensures i < |blocks| ==> !IsBlock(blocks[i], u, k)
  {
    for j := 0 to |blocks|
      invariant forall l :: 0 <= l < j ==> IsBlock(blocks[l], u, k)
    {
      if !IsBlock(blocks[j], u, k) {
        return j;
      }
    }
    return |blocks|;
  }

  method FirstWithoutBlock(blocks: seq<Block>, lists: seq<seq<int>>) returns (i: nat)
    ensures i <= |lists| && forall j :: 0 <= j < i ==> Covers(blocks, Elements(lists[j]))
    ensures i < |lists| ==> !Covers(blocks, Elements(lists[i]))
  {
    for j := 0 to |lists|
      invariant forall l :: 0 <= l < j ==> Covers(blocks, Elements(lists[l]))
    {
      if !Covers(blocks, Elements(lists[j])) {
        return j;
      }
    }
    return |lists|;
  }

  /** The check accepts exactly the coverings, and a rejection names the first defect. */
  method VerifyCovering(blocks: seq<Block>, v: nat, k: nat, t: nat) returns (r: Verdict)
    ensures r.Accepted? <==> IsCovering(blocks, Points(v), k, t)
    ensures r.BadBlock? ==> FirstBad(blocks, Points(v), k, r.index)
    ensures r.Uncovered? ==> FirstUncovered(blocks, Points(v), k, Combs(t, Range(v)), r.points)
  {
    var i := FirstBadBlock(blocks, Points(v), k);
    if i < |blocks| {
      return BadBlock(i);
    }
    var lists := Combs(t, Range(v));
    ListsDecide(blocks, v, t, lists);
    var j := FirstWithoutBlock(blocks, lists);
    r := if j < |lists| then Uncovered(lists[j]) else Accepted;
  }

  // ----- The counting bound

  /** The quotient rounded up, as a floor of negatives. */
  function CeilDiv(a: int, b: int): int
    requires b != 0
  {
    -FloorDiv(-a, b)
  }

  lemma CeilAtMost(a: int, b: int, m: int)
    requires b > 0 && a <= b * m
    ensures CeilDiv(a, b) <= m
  {
    assert b * (-m) == -(b * m);
    FloorAtLeast(-m, b, -a);
  }

  function CountingBound(v: nat, k: nat, t: nat): int {
    if Comb(k, t) == 0 then 0 else CeilDiv(Comb(v, t), Comb(k, t))
  }

  ghost function CoveredBy(blocks: seq<Block>, t: nat): set<set<int>> {
    if blocks == [] then {} else Choose(blocks[0], t) + CoveredBy(blocks[1..], t)
  }

  lemma {:induction false} CoveredByMembers(blocks: seq<Block>, t: nat, s: set<int>)
    requires Covers(blocks, s) && |s| == t
    ensures s in CoveredBy(blocks, t)
  {
    if !(s <= blocks[0]) {
      var i :| 0 <= i < |blocks| && s <= blocks[i];
      assert blocks[1..][i - 1] == blocks[i];
      CoveredByMembers(blocks[1..], t, s);
    }
  }

  lemma {:induction false} CoveredBySize(blocks: seq<Block>, k: nat, t: nat)
    requires forall i :: 0 <= i < |blocks| ==> |blocks[i]| == k
    ensures |CoveredBy(blocks, t)| <= Comb(k, t) * |blocks|
  {
    if blocks != [] {
      CoveredBySize(blocks[1..], k, t);
      ChooseSize(blocks[0], t);
      UnionSize(Choose(blocks[0], t), CoveredBy(blocks[1..], t));
      Distribute(Comb(k, t), |blocks[1..]|, 1);
    }
  }

  /** No accepted list has fewer blocks than the counting bound. */
  lemma CountingBoundsCoverings(blocks: seq<Block>, u: set<int>, k: nat, t: nat)
    requires IsCovering(blocks, u, k, t)
    ensures |blocks| >= CountingBound(|u|, k, t)
  {
    if Comb(k, t) > 0 {
      forall s | s in Choose(u, t) ensures s in CoveredBy(blocks, t) {
        CoveredByMembers(blocks, t, s);
      }
      SubsetSize(Choose(u, t), CoveredBy(blocks, t));
      ChooseSize(u, t);
      CoveredBySize(blocks, k, t);
      CeilAtMost(Comb(|u|, t), Comb(k, t), |blocks|);
    }
  }

  // ----- The Schonheim bound

  function Schonheim(v: int, k: int, t: int): int
    requires k >= 1 && k >= t
    decreases t
  {
    if t <= 1 then CeilDiv(v, k) else CeilDiv(v * Schonheim(v - 1, k - 1, t - 1), k)
  }

  lemma CeilAtLeast(a: int, b: int)
    requires b > 0
    ensures b * CeilDiv(a, b) >= a
  {
    assert b * (-((-a) / b)) == -(b * ((-a) / b));
  }

  /** The quotient rounded up is the least integer that suffices. */
  lemma CeilIsLeast(a: int, b: int, m: int)
    requires b > 0
    ensures m >= CeilDiv(a, b) <==> b * m >= a
  {
    CeilAtLeast(a, b);
    if m >= CeilDiv(a, b) {
      ProductNonNegative(b, m - CeilDiv(a, b));
      Distribute(b, CeilDiv(a, b), m - CeilDiv(a, b));
    } else if b * m >= a {
      CeilAtMost(a, b, m);
    }
  }

  /** The counting bound is the least number of blocks with enough t-subsets between them. */
  lemma CountingIsLeast(v: nat, k: nat, t: nat, l: int)
    requires t <= k
    ensures l >= CountingBound(v, k, t) <==> l * Comb(k, t) >= Comb(v, t)
  {
    CombPositive(k, t);
    CeilIsLeast(Comb(v, t), Comb(k, t), l);
  }

  /** ls[0], .., ls[t-1] are numbers of blocks through t-1, .., 0 fixed points, where points remain and
      blocks have size more points with t-1 of them fixed, and each leaves room for the one before
      through every further point. */
  ghost predicate DerivedChain(points: int, size: int, ls: seq<int>) {
    forall j :: 0 <= j < |ls| ==> Room(points, size, ls, j)
  }

  /** ls[j] blocks of size + j points hold each of points + j points as often as has to be. */
  predicate Room(points: int, size: int, ls: seq<int>, j: nat)
    requires j < |ls|
  {
    (size + j) * ls[j] >= (points + j) * Through(ls, j)
  }

  /** How many of the blocks go through a further point. */
  function Through(ls: seq<int>, j: nat): int
    requires j <= |ls|
  {
    if j == 0 then 1 else ls[j - 1]
  }

  lemma ChainGrows(points: int, size: int, ls: seq<int>, l: int)
    ensures DerivedChain(points, size, ls + [l])
      <==> DerivedChain(points, size, ls) && (size + |ls|) * l >= (points + |ls|) * Through(ls, |ls|)
  {
    var all := ls + [l];
    forall j | 0 <= j < |ls| ensures Room(points, size, all, j) == Room(points, size, ls, j) {
      assert Through(all, j) == Through(ls, j) && all[j] == ls[j];
    }
    assert Through(all, |ls|) == Through(ls, |ls|) && all[|ls|] == l;
    assert DerivedChain(points, size, all) ==> Room(points, size, all, |ls|);
  }

  lemma RoomScales(v: int, a: int, b: int)
    requires v >= 0 && a <= b
    ensures v * a <= v * b
  {
    ProductNonNegative(v, b - a);
    Distribute(v, a, b - a);
  }

  ghost predicate EndsAt(v: int, k: int, t: nat, ls: seq<int>, l: int) {
    |ls| == t >= 1 && DerivedChain(v - t + 1, k - t + 1, ls) && ls[t - 1] == l
  }

  lemma {:induction false} ChainToSchonheim(v: int, k: int, t: nat, l: int) returns (ls: seq<int>)
    requires 1 <= t <= k && t - 1 <= v && l >= Schonheim(v, k, t)
    ensures EndsAt(v, k, t, ls, l)
    decreases t
  {
    if t == 1 {
      CeilIsLeast(v, k, l);
      ChainGrows(v - t + 1, k - t + 1, [], l);
      ls := [l];
    } else {
      var inner := Schonheim(v - 1, k - 1, t - 1);
      var rest := ChainToSchonheim(v - 1, k - 1, t - 1, inner);
      CeilIsLeast(v * inner, k, l);
      ChainGrows(v - t + 1, k - t + 1, rest, l);
      ls := rest + [l];
    }
  }

  lemma {:induction false} SchonheimBelowChain(v: int, k: int, t: nat, ls: seq<int>, l: int)
    requires 1 <= t <= k && t - 1 <= v && EndsAt(v, k, t, ls, l)
    ensures l >= Schonheim(v, k, t)
    decreases t
  {
    assert ls == ls[..t - 1] + [l];
    ChainGrows(v - t + 1, k - t + 1, ls[..t - 1], l);
    if t == 1 {
      CeilIsLeast(v, k, l);
    } else {
      var before := ls[t - 2];
      assert Through(ls[..t - 1], t - 1) == before;
      SchonheimBelowChain(v - 1, k - 1, t - 1, ls[..t - 1], before);
      RoomScales(v, Schonheim(v - 1, k - 1, t - 1), before);
      CeilIsLeast(v * Schonheim(v - 1, k - 1, t - 1), k, l);
    }
  }

  /** The numbers from the Schonheim bound on are exactly those the derived coverings leave possible. */
  lemma SchonheimIsLeast(v: int, k: int, t: nat, l: int)
    requires 1 <= t <= k && t - 1 <= v
    ensures l >= Schonheim(v, k, t) <==> exists ls :: EndsAt(v, k, t, ls, l)
  {
    if l >= Schonheim(v, k, t) {
      var ls := ChainToSchonheim(v, k, t, l);
    }
    if ls :| EndsAt(v, k, t, ls, l) {
      SchonheimBelowChain(v, k, t, ls, l);
    }
  }

  /** The other values: no fixed points, and fewer points than have to be fixed. */
  lemma {:induction false} SchonheimElsewhere(v: nat, k: int, t: nat, l: int)
    requires 1 <= k && t <= k && (t == 0 || v < t)
    ensures t == 0 ==> (l >= Schonheim(v, k, t) <==> k * l >= v)
    ensures v < t ==> Schonheim(v, k, t) == 0
    decreases t
  {
    if t <= 1 {
      CeilIsLeast(v, k, l);
    } else if v > 0 {
      SchonheimElsewhere(v - 1, k - 1, t - 1, l);
    } else {
      assert v * Schonheim(v - 1, k - 1, t - 1) == 0;
    }
  }

  /** t C(v,t) = v C(v-1,t-1). */
  lemma {:induction false} Absorption(v: nat, t: nat)
    requires v >= 1 && t >= 1
    ensures t * Comb(v, t) == v * Comb(v - 1, t - 1)
    decreases v
  {
    if v == 1 {
      CombBeyond(0, t);
      if t > 1 {
        CombBeyond(0, t - 1);
      }
    } else {
      Absorption(v - 1, t);
      if t > 1 {
        Absorption(v - 1, t - 1);
      }
      var a, b := Comb(v - 1, t - 1), Comb(v - 1, t);
      assert t * b == (v - 1) * Comb(v - 2, t - 1);
      assert t > 1 ==> (t - 1) * a == (v - 1) * Comb(v - 2, t - 2);
      assert t == 1 ==> a == 1 && Comb(v - 2, t - 1) == 1;
      AbsorptionStep(v, t, a, b, Comb(v - 2, t - 1), if t > 1 then Comb(v - 2, t - 2) else 0);
    }
  }

  lemma AbsorptionStep(v: int, t: int, a: int, b: int, c: int, e: int)
    requires t * b == (v - 1) * c && (t - 1) * a == (v - 1) * e && a == c + e
    ensures t * (a + b) == v * a
  {
    Distribute(t, a, b);
    Distribute(v - 1, c, e);
    assert t * a == (t - 1) * a + a && v * a == (v - 1) * a + a;
  }

  /** The blocks through x, without x. */
  ghost function Derived(blocks: seq<Block>, x: int): seq<Block> {
    if blocks == [] then []
    else (if x in blocks[0] then [blocks[0] - {x}] else []) + Derived(blocks[1..], x)
  }

  lemma {:induction false} DerivedFrom(blocks: seq<Block>, x: int, i: nat) returns (j: nat)
    requires i < |Derived(blocks, x)|
    ensures j < |blocks| && x in blocks[j] && Derived(blocks, x)[i] == blocks[j] - {x}
  {
    if x in blocks[0] && i == 0 {
      j := 0;
    } else {
      var rest := DerivedFrom(blocks[1..], x, if x in blocks[0] then i - 1 else i);
      j := rest + 1;
    }
  }

  lemma {:induction false} DerivedHolds(blocks: seq<Block>, x: int, j: nat) returns (i: nat)
    requires j < |blocks| && x in blocks[j]
    ensures i < |Derived(blocks, x)| && Derived(blocks, x)[i] == blocks[j] - {x}
  {
    if j == 0 {
      i := 0;
    } else {
      i := DerivedHolds(blocks[1..], x, j - 1);
      if x in blocks[0] {
        i := i + 1;
      }
    }
  }

  /** The blocks through a point are a covering of the other points, one size down. */
  lemma DerivedCovers(blocks: seq<Block>, u: set<int>, k: nat, t: nat, x: int)
    requires IsCovering(blocks, u, k, t) && 1 <= t && 1 <= k && x in u
    ensures IsCovering(Derived(blocks, x), u - {x}, k - 1, t - 1)
  {
    var derived := Derived(blocks, x);
    forall i | 0 <= i < |derived| ensures IsBlock(derived[i], u - {x}, k - 1) {
      var j := DerivedFrom(blocks, x, i);
      assert IsBlock(blocks[j], u, k);
    }
    forall s | s in Choose(u - {x}, t - 1) ensures Covers(derived, s) {
      assert s + {x} in Choose(u, t);
      assert Covers(blocks, s + {x});
      var j :| 0 <= j < |blocks| && s + {x} <= blocks[j];
      var i := DerivedHolds(blocks, x, j);
    }
  }

  /** How often the blocks meet s, counted with multiplicity. */
  ghost function Incidences(blocks: seq<Block>, s: set<int>): nat {
    if blocks == [] then 0 else |blocks[0] * s| + Incidences(blocks[1..], s)
  }

  lemma MeetWithout(b: Block, s: set<int>, x: int)
    requires x in s
    ensures |b * s| == |b * (s - {x})| + if x in b then 1 else 0
  {
    if x in b {
      assert b * s == b * (s - {x}) + {x};
    } else {
      assert b * s == b * (s - {x});
    }
  }

  lemma {:induction false} IncidencesGrow(blocks: seq<Block>, s: set<int>, x: int)
    requires x in s
    ensures Incidences(blocks, s) == Incidences(blocks, s - {x}) + |Derived(blocks, x)|
  {
    if blocks != [] {
      IncidencesGrow(blocks[1..], s, x);
      MeetWithout(blocks[0], s, x);
    }
  }

  lemma {:induction false} IncidencesAtLeast(blocks: seq<Block>, s: set<int>, m: int)
    requires forall x :: x in s ==> |Derived(blocks, x)| >= m
    ensures Incidences(blocks, s) >= |s| * m
    decreases |s|
  {
    if |s| > 0 {
      var x := Member(s);
      IncidencesAtLeast(blocks, s - {x}, m);
      IncidencesGrow(blocks, s, x);
      Distribute(m, |s - {x}|, 1);
    }
  }

  lemma {:induction false} IncidencesAll(blocks: seq<Block>, u: set<int>, k: nat)
    requires forall i :: 0 <= i < |blocks| ==> IsBlock(blocks[i], u, k)
    ensures Incidences(blocks, u) == k * |blocks|
  {
    if blocks != [] {
      IncidencesAll(blocks[1..], u, k);
      assert blocks[0] * u == blocks[0];
      Distribute(k, |blocks[1..]|, 1);
    }
  }

  /** Each point lies in at least m blocks, so there are at least |u| m / k of them. */
  lemma AverageBound(blocks: seq<Block>, u: set<int>, k: nat, m: int)
    requires k > 0 && forall i :: 0 <= i < |blocks| ==> IsBlock(blocks[i], u, k)
    requires forall x :: x in u ==> |Derived(blocks, x)| >= m
    ensures |blocks| >= CeilDiv(|u| * m, k)
  {
    IncidencesAtLeast(blocks, u, m);
    IncidencesAll(blocks, u, k);
    CeilAtMost(|u| * m, k, |blocks|);
  }

  lemma EmptyIsChosen(u: set<int>)
    ensures {} in Choose(u, 0)
  {
  }

  /** No accepted list has fewer blocks than the Schonheim bound, on any finite set of points. */
  lemma {:induction false} SchonheimBoundsCoverings(blocks: seq<Block>, u: set<int>, k: nat, t: nat)
    requires IsCovering(blocks, u, k, t) && 1 <= t <= k && t <= |u|
    ensures |blocks| >= Schonheim(|u|, k, t)
    decreases t
  {
    var m := if t == 1 then 1 else Schonheim(|u| - 1, k - 1, t - 1);
    forall x | x in u ensures |Derived(blocks, x)| >= m {
      DerivedCovers(blocks, u, k, t, x);
      if t == 1 {
        EmptyIsChosen(u - {x});
      } else {
        SchonheimBoundsCoverings(Derived(blocks, x), u - {x}, k - 1, t - 1);
      }
    }
    AverageBound(blocks, u, k, m);
  }
}
