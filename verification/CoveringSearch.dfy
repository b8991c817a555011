/** The covering search. */
module CoveringSearch {
  // The generic covering search: a linear congruential shuffle, greedy set cover and pruning.

  import opened Collections
  import opened Arith
  import opened Congruence
  import opened Binomial
  import opened Subsets
  import opened Covering

  // ----- The generator

  /** One step of the generator, kept to 31 bits. */
  function NextState(s: nat): nat {
    (1103515245 * s + 12345) % 0x8000_0000
  }

  /** Multiplying by the inverse of the generator's factor modulo its range takes the factor away. */
  lemma FactorUndone(s: int)
    ensures Cong(1857678181 * (1103515245 * s), s, 0x8000_0000)
  {
    assert 1857678181 * 1103515245 == 1 + 0x8000_0000 * 954594553;
    CongByWitness(1857678181 * (1103515245 * s), s, 0x8000_0000, 954594553 * s);
  }

  lemma SameProduct(s: int, t: int)
    requires Cong(1103515245 * s, 1103515245 * t, 0x8000_0000)
    ensures Cong(s, t, 0x8000_0000)
  {
    CongScale(1857678181, 1103515245 * s, 1103515245 * t, 0x8000_0000);
    FactorUndone(s);
    FactorUndone(t);
    CongSym(1857678181 * (1103515245 * s), s, 0x8000_0000);
    CongTrans(s, 1857678181 * (1103515245 * s), 1857678181 * (1103515245 * t), 0x8000_0000);
    CongTrans(s, 1857678181 * (1103515245 * t), t, 0x8000_0000);
  }

  /** Different 31-bit states have different successors: the generator permutes them. */
  lemma StepIsInjective(s: nat, t: nat)
    requires s < 0x8000_0000 && t < 0x8000_0000
    ensures NextState(s) == NextState(t) <==> s == t
  {
    if NextState(s) == NextState(t) {
      CongMeansResidue(1103515245 * s + 12345, 1103515245 * t + 12345, 0x8000_0000);
      CongRefl(-12345, 0x8000_0000);
      CongAdd(1103515245 * s + 12345, 1103515245 * t + 12345, -12345, -12345, 0x8000_0000);
      SameProduct(s, t);
      SameSmall(s, t, 0x8000_0000);
    }
  }

  function Swapped<T>(a: seq<T>, i: nat, j: nat): (r: seq<T>)
    requires i < |a| && j < |a|
    ensures |r| == |a|
  {
    a[i := a[j]][j := a[i]]
  }

  /** Exchange position i with one at or before it, and go on below; with the state reached. */
  function Shuffle<T>(a: seq<T>, i: nat, s: nat): (seq<T>, nat)
    requires i < |a| || i == 0
    decreases i
  {
    if i == 0 then (a, s)
    else
      var next := NextState(s);
      Shuffle(Swapped(a, i, next % (i + 1)), i - 1, next)
  }

  lemma SwapKeeps<T>(a: seq<T>, i: nat, j: nat)
    requires i < |a| && j < |a|
    ensures multiset(Swapped(a, i, j)) == multiset(a)
  {
  }

  /** Shuffling rearranges. */
  lemma {:induction false} ShuffleKeeps<T>(a: seq<T>, i: nat, s: nat)
    requires i < |a| || i == 0
    ensures multiset(Shuffle(a, i, s).0) == multiset(a)
    decreases i
  {
    if i > 0 {
      var next := NextState(s);
      SwapKeeps(a, i, next % (i + 1));
      ShuffleKeeps(Swapped(a, i, next % (i + 1)), i - 1, next);
    }
  }

  function Last<T>(a: seq<T>): nat {
    if a == [] then 0 else |a| - 1
  }

  function ShuffleAll<T>(a: seq<T>, s: nat): (seq<T>, nat) {
    Shuffle(a, Last(a), s)
  }

  // ----- Which arrangements there are

  /** One choice for each position, at or before it. */
  ghost predicate Choices(js: seq<nat>) {
    forall p :: 0 <= p < |js| ==> js[p] <= p
  }

  /** What is left to arrange before the last position once that has entry j. */
  ghost function Front<T>(a: seq<T>, j: nat): (r: seq<T>)
    requires j < |a|
    ensures |r| == |a| - 1
  {
    Swapped(a, |a| - 1, j)[..|a| - 1]
  }

  /** The arrangement the choices lead to: the last position gets what was chosen for it. */
  ghost function Arranged<T>(a: seq<T>, js: seq<nat>): (r: seq<T>)
    requires |js| == |a| && Choices(js)
    ensures |r| == |a|
    decreases |a|
  {
    if a == [] then [] else Arranged(Front(a, js[|a| - 1]), js[..|a| - 1]) + [a[js[|a| - 1]]]
  }

  lemma ArrangedLast<T>(a: seq<T>, js: seq<nat>, front: seq<nat>, j: nat)
    requires |js| == |a| && Choices(js) && js == front + [j]
    ensures Choices(front) && j < |a| && Arranged(a, js) == Arranged(Front(a, j), front) + [a[j]]
  {
    assert js[..|a| - 1] == front && js[|a| - 1] == j;
    assert forall p :: 0 <= p < |front| ==> front[p] == js[p];
  }

  function Steps(s: nat, n: nat): nat
    decreases n
  {
    if n == 0 then s else Steps(NextState(s), n - 1)
  }

  /** The choices the generator makes: the last position first. */
  ghost function Draws(n: nat, s: nat): (js: seq<nat>)
    ensures |js| == n && Choices(js)
  {
    if n == 0 then [] else if n == 1 then [0] else Draws(n - 1, NextState(s)) + [NextState(s) % n]
  }

  lemma {:induction false} DrawnAt(n: nat, s: nat, p: nat)
    requires 1 <= p < n
    ensures Draws(n, s)[p] == Steps(s, n - p) % (p + 1)
  {
    if p == n - 1 {
      assert Steps(s, 1) == Steps(NextState(s), 0);
    } else {
      DrawnAt(n - 1, NextState(s), p);
    }
  }

  lemma FrontOfPrefix<T>(a: seq<T>, i: nat, j: nat)
    requires j <= i < |a|
    ensures Front(a[..i + 1], j) == Swapped(a, i, j)[..i]
    ensures Swapped(a, i, j)[i..] == [a[j]] + a[i + 1..]
  {
  }

  lemma PrefixStep<T>(a: seq<T>, i: nat, js: seq<nat>, front: seq<nat>, j: nat)
    requires j <= i < |a| && |js| == i + 1 && Choices(js) && js == front + [j] && Choices(front)
    ensures Arranged(Swapped(a, i, j)[..i], front) + Swapped(a, i, j)[i..] == Arranged(a[..i + 1], js) + a[i + 1..]
  {
    FrontOfPrefix(a, i, j);
    ArrangedLast(a[..i + 1], js, front, j);
    var done, rest := Arranged(Front(a[..i + 1], j), front), a[i + 1..];
    assert done + ([a[j]] + rest) == (done + [a[j]]) + rest;
  }

  lemma DrawsNext(n: nat, s: nat, next: nat)
    requires n >= 2 && next == NextState(s)
    ensures Draws(n, s) == Draws(n - 1, next) + [next % n] && Steps(s, n - 1) == Steps(next, n - 2)
  {
  }

  /** Position 0 is left as it is. */
  lemma PrefixDone<T>(a: seq<T>, js: seq<nat>)
    requires a != [] && |js| == 1 && Choices(js)
    ensures a == Arranged(a[..1], js) + a[1..]
  {
    assert js == [] + [0] && Arranged(Front(a[..1], 0), []) == [];
    ArrangedLast(a[..1], js, [], 0);
    assert a == [a[0]] + a[1..];
  }

  ghost predicate PrefixArranged<T>(a: seq<T>, i: nat, s: nat, js: seq<nat>, end: nat) {
    i < |a| && |js| == i + 1 && Choices(js) && Shuffle(a, i, s) == (Arranged(a[..i + 1], js) + a[i + 1..], end)
  }

  lemma PrefixGoesOn<T>(a: seq<T>, i: nat, s: nat, next: nat, j: nat, js: seq<nat>, front: seq<nat>, end: nat)
    requires 0 < i < |a| && next == NextState(s) && j == next % (i + 1) && js == front + [j] && Choices(js)
    requires PrefixArranged(Swapped(a, i, j), i - 1, next, front, end)
    ensures PrefixArranged(a, i, s, js, end)
  {
    ShuffleStep(a, i, s, next, j);
    PrefixStep(a, i, js, front, j);
  }

  lemma PrefixStarts<T>(a: seq<T>, s: nat)
    requires a != []
    ensures PrefixArranged(a, 0, s, Draws(1, s), Steps(s, 0))
  {
    ShuffleDone(a, 0, s);
    PrefixDone(a, Draws(1, s));
  }

  lemma PrefixNext<T>(a: seq<T>, i: nat, s: nat, next: nat, j: nat)
    requires 0 < i < |a| && next == NextState(s) && j == next % (i + 1)
    requires PrefixArranged(Swapped(a, i, j), i - 1, next, Draws(i, next), Steps(next, i - 1))
    ensures PrefixArranged(a, i, s, Draws(i + 1, s), Steps(s, i))
  {
    DrawsNext(i + 1, s, next);
    PrefixGoesOn(a, i, s, next, j, Draws(i + 1, s), Draws(i, next), Steps(next, i - 1));
  }

  lemma {:induction false} ShufflePrefix<T>(a: seq<T>, i: nat, s: nat)
    requires i < |a|
    ensures PrefixArranged(a, i, s, Draws(i + 1, s), Steps(s, i))
    decreases i
  {
    if i == 0 {
      PrefixStarts(a, s);
    } else {
      var next := NextState(s);
      var j := next % (i + 1);
      ShufflePrefix(Swapped(a, i, j), i - 1, next);
      PrefixNext(a, i, s, next, j);
    }
  }

  /** A shuffle is the arrangement of the drawn choices, one step of the generator a position. */
  lemma ShuffleArranges<T>(a: seq<T>, s: nat)
    ensures ShuffleAll(a, s) == (Arranged(a, Draws(|a|, s)), Steps(s, Last(a)))
  {
    if a != [] {
      ShufflePrefix(a, |a| - 1, s);
      assert a[..|a|] == a && a[|a|..] == [];
      var r := Arranged(a, Draws(|a|, s));
      assert r + [] == r;
    }
  }

  lemma LastOut<T>(c: seq<T>)
    requires c != []
    ensures multiset(c) == multiset{c[|c| - 1]} + multiset(c[..|c| - 1])
  {
    assert c == c[..|c| - 1] + [c[|c| - 1]];
  }

  lemma FrontRearranges<T>(a: seq<T>, b: seq<T>, j: nat)
    requires multiset(a) == multiset(b) && |a| == |b| && j < |a| && a[j] == b[|a| - 1]
    ensures multiset(Front(a, j)) == multiset(b[..|a| - 1])
  {
    var last := |a| - 1;
    var c := Swapped(a, last, j);
    SwapKeeps(a, last, j);
    LastOut(c);
    LastOut(b);
    CancelOne(a[j], multiset(c[..last]), multiset(b[..last]));
  }

  /** Every arrangement is reached by some choices. */
  lemma {:induction false} EveryArrangement<T>(a: seq<T>, b: seq<T>) returns (js: seq<nat>)
    requires multiset(a) == multiset(b)
    ensures |js| == |a| && Choices(js) && Arranged(a, js) == b
    decreases |a|
  {
    Rearranged(a, b);
    if a == [] {
      js := [];
    } else {
      var last := |a| - 1;
      assert b[last] in b;
      var j :| 0 <= j < |a| && a[j] == b[last];
      FrontRearranges(a, b, j);
      var front := EveryArrangement(Front(a, j), b[..last]);
      js := front + [j];
      ArrangedLast(a, js, front, j);
      assert b == b[..last] + [b[last]];
    }
  }

  ghost predicate AllDifferent<T(!new)>(a: seq<T>) {
    forall i, j :: 0 <= i < j < |a| ==> a[i] != a[j]
  }

  lemma FrontDifferent<T(!new)>(a: seq<T>, j: nat)
    requires j < |a| && AllDifferent(a)
    ensures AllDifferent(Front(a, j))
  {
  }

  /** And different choices arrange different entries differently. */
  lemma {:induction false} OneChoice<T(!new)>(a: seq<T>, js: seq<nat>, ks: seq<nat>)
    requires AllDifferent(a) && |js| == |ks| == |a| && Choices(js) && Choices(ks)
    requires Arranged(a, js) == Arranged(a, ks)
    ensures js == ks
    decreases |a|
  {
    if a != [] {
      var last := |a| - 1;
      var j, k, front, other := js[last], ks[last], js[..last], ks[..last];
      assert js == front + [j] && ks == other + [k];
      ArrangedLast(a, js, front, j);
      ArrangedLast(a, ks, other, k);
      SameEnds(Arranged(Front(a, j), front), a[j], Arranged(Front(a, k), other), a[k]);
      assert j == k;
      FrontDifferent(a, j);
      OneChoice(Front(a, j), front, other);
    }
  }

  lemma SameEnds<T>(a: seq<T>, x: T, b: seq<T>, y: T)
    requires a + [x] == b + [y] && |a| == |b|
    ensures a == b && x == y
  {
    assert (a + [x])[|a|] == x && (b + [y])[|a|] == y;
    assert a == (a + [x])[..|a|] == (b + [y])[..|a|] == b;
  }

  lemma ShuffleStep<T>(a: seq<T>, i: nat, s: nat, next: nat, j: nat)
    requires 0 < i < |a| && next == NextState(s) && j == next % (i + 1)
    ensures j < |a| && Shuffle(a, i, s) == Shuffle(Swapped(a, i, j), i - 1, next)
  {
  }

  lemma ShuffleDone<T>(a: seq<T>, i: nat, s: nat)
    requires i == 0
    ensures Shuffle(a, i, s) == (a, s)
  {
  }

  method Exchange<T>(a: array<T>, i: nat, j: nat)
    requires i < a.Length && j < a.Length
    modifies a
    ensures a[..] == Swapped(old(a[..]), i, j)
  {
    a[i], a[j] := a[j], a[i];
  }

  class Lcg {
    var s: nat

    constructor (seed: int)
      ensures s == seed % 0x1_0000_0000
    {
      s := seed % 0x1_0000_0000;
    }

    method Nxt() returns (r: nat)
      modifies this
      ensures r == s == NextState(old(s)) && r < 0x8000_0000
    {
      s := (1103515245 * s + 12345) % 0x8000_0000;
      r := s;
    }

    method ShuffleArray<T>(a: array<T>, last: nat)
      requires last < a.Length || last == 0
      modifies this, a
      ensures Shuffle(old(a[..]), last, old(s)) == (a[..], s)
    {
      var i: nat := last;
      while i > 0
        invariant i < a.Length || i == 0
        invariant Shuffle(a[..], i, s) == Shuffle(old(a[..]), last, old(s))
      {
        ghost var before := s;
        var next := Nxt();
        var j := next % (i + 1);
        ShuffleStep(a[..], i, before, next, j);
        Exchange(a, i, j);
        i := i - 1;
      }
      ShuffleDone(a[..], i, s);
    }

    /** A shuffled copy. */
    method Shuffled<T>(xs: seq<T>) returns (r: seq<T>)
      modifies this
      ensures (r, s) == ShuffleAll(xs, old(s)) && multiset(r) == multiset(xs)
    {
      var a := new T[|xs|](i requires 0 <= i < |xs| => xs[i]);
      assert a[..] == xs;
      ShuffleKeeps(xs, Last(xs), s);
      ShuffleArray(a, Last(xs));
      r := a[..];
    }
  }

  // ----- Greedy set cover

  function Gain(b: Block, t: nat, uncovered: set<set<int>>): nat {
    |Choose(b, t) * uncovered|
  }

  /** Block at is the first of those that cover the most of what is uncovered. */
  ghost predicate BestAt(blocks: seq<Block>, t: nat, uncovered: set<set<int>>, upto: nat, at: nat)
    requires upto <= |blocks|
  {
    at < upto
    && (forall i :: 0 <= i < upto ==> Gain(blocks[i], t, uncovered) <= Gain(blocks[at], t, uncovered))
    && (forall i :: 0 <= i < at ==> Gain(blocks[i], t, uncovered) < Gain(blocks[at], t, uncovered))
  }

  lemma BestGrows(blocks: seq<Block>, t: nat, uncovered: set<set<int>>, i: nat, at: nat)
    requires i < |blocks| && (i == 0 || BestAt(blocks, t, uncovered, i, at))
    ensures
      if i == 0 || Gain(blocks[i], t, uncovered) > Gain(blocks[at], t, uncovered)
      then BestAt(blocks, t, uncovered, i + 1, i) else BestAt(blocks, t, uncovered, i + 1, at)
  {
  }

  ghost predicate BestFrom(blocks: seq<Block>, t: nat, uncovered: set<set<int>>, b: Block) {
    exists at: nat :: BestAt(blocks, t, uncovered, |blocks|, at) && blocks[at] == b
  }

  method PickBest(blocks: seq<Block>, t: nat, uncovered: set<set<int>>) returns (b: Block)
    requires blocks != []
    ensures BestFrom(blocks, t, uncovered, b)
  {
    b := blocks[0];
    var bestGain: int := -1;
    ghost var at := 0;
    for i := 0 to |blocks|
      invariant i == 0 ==> bestGain == -1
      invariant i > 0 ==> BestAt(blocks, t, uncovered, i, at)
      invariant i > 0 ==> blocks[at] == b && bestGain == Gain(b, t, uncovered)
    {
      BestGrows(blocks, t, uncovered, i, at);
      var g := Gain(blocks[i], t, uncovered);
      if g > bestGain {
        bestGain, b := g, blocks[i];
        at := i;
      }
    }
  }

  lemma {:induction false} ReachedSize(d: seq<Block>, t: nat, uncovered: set<set<int>>, g: nat)
    requires forall i :: 0 <= i < |d| ==> Gain(d[i], t, uncovered) <= g
    ensures |CoveredBy(d, t) * uncovered| <= g * |d|
  {
    if d != [] {
      var first, rest := Choose(d[0], t) * uncovered, CoveredBy(d[1..], t) * uncovered;
      ReachedSize(d[1..], t, uncovered, g);
      UnionSize(first, rest);
      assert CoveredBy(d, t) * uncovered == first + rest;
      Distribute(g, |d[1..]|, 1);
    } else {
      assert CoveredBy(d, t) * uncovered == {};
    }
  }

  /** Some block of the list d covers at least the average share of what is uncovered. */
  lemma GainAtLeastAverage(d: seq<Block>, t: nat, uncovered: set<set<int>>, g: nat)
    requires forall i :: 0 <= i < |d| ==> Gain(d[i], t, uncovered) <= g
    requires forall s :: s in uncovered ==> |s| == t && Covers(d, s)
    ensures |uncovered| <= g * |d|
  {
    forall s | s in uncovered ensures s in CoveredBy(d, t) {
      CoveredByMembers(d, t, s);
    }
    assert CoveredBy(d, t) * uncovered == uncovered;
    ReachedSize(d, t, uncovered, g);
  }

  /** left of total points are uncovered after the given steps, however few blocks a covering has. */
  ghost predicate Shrunk(left: nat, total: nat, m: nat, steps: nat)
    requires m > 0
  {
    left * Power(m, steps) <= total * Power(m - 1, steps)
  }

  lemma ShrinkStep(left: nat, next: nat, g: nat, total: nat, m: nat, steps: nat)
    requires m > 0 && Shrunk(left, total, m, steps) && left == next + g && left <= g * m
    ensures Shrunk(next, total, m, steps + 1)
  {
    LessByAverage(left, next, g, m);
    PowerNonNegative(m, steps);
    PowerNonNegative(m - 1, steps);
    ShrinkProducts(left, next, total, m, Power(m, steps), Power(m - 1, steps));
  }

  /** Taking away at least the average share. */
  lemma LessByAverage(left: nat, next: nat, g: nat, m: nat)
    requires m > 0 && left == next + g && left <= g * m
    ensures next * m <= left * (m - 1)
  {
    assert next * m == left * m - g * m;
  }

  lemma ShrinkProducts(left: nat, next: nat, total: nat, m: nat, p: nat, r: nat)
    requires m > 0 && left * p <= total * r && next * m <= left * (m - 1)
    ensures next * (m * p) <= total * ((m - 1) * r)
  {
    TimesMonotone(next * m, left * (m - 1), p);
    TimesMonotone(left * p, total * r, m - 1);
    Regroup(next, m, p);
    Regroup(total, m - 1, r);
    Regroup(left, m - 1, p);
    assert (total * r) * (m - 1) == total * ((m - 1) * r) by { Regroup(total, r, m - 1); }
    assert (left * p) * (m - 1) == left * ((m - 1) * p) by { Regroup(left, p, m - 1); }
  }

  lemma Regroup(a: int, b: int, c: int)
    ensures (a * b) * c == a * (b * c) == a * (c * b)
  {
  }

  lemma TimesMonotone(a: int, b: int, c: nat)
    requires a <= b
    ensures a * c <= b * c
  {
  }

  ghost predicate ShrunkForAll(left: nat, total: nat, u: set<int>, k: nat, t: nat, steps: nat) {
    forall d :: IsCovering(d, u, k, t) && |d| > 0 ==> Shrunk(left, total, |d|, steps)
  }

  /** The candidates: all k-subsets of the points. */
  ghost predicate Candidates(blocks: seq<Block>, u: set<int>, k: nat) {
    forall b :: b in blocks <==> IsBlock(b, u, k)
  }

  lemma GreedyShrinks(shuffled: seq<Block>, b: Block, uncovered: set<set<int>>, total: nat, u: set<int>, k: nat,
                      t: nat, steps: nat)
    requires Candidates(shuffled, u, k) && BestFrom(shuffled, t, uncovered, b) && uncovered <= Choose(u, t)
    requires ShrunkForAll(|uncovered|, total, u, k, t, steps)
    ensures ShrunkForAll(|uncovered - Choose(b, t)|, total, u, k, t, steps + 1)
  {
    var g, next := Gain(b, t, uncovered), uncovered - Choose(b, t);
    assert |uncovered| == |next| + g by {
      assert uncovered == next + (Choose(b, t) * uncovered);
    }
    forall d | IsCovering(d, u, k, t) && |d| > 0 ensures Shrunk(|next|, total, |d|, steps + 1) {
      forall i | 0 <= i < |d| ensures Gain(d[i], t, uncovered) <= g {
        assert d[i] in shuffled;
      }
      GainAtLeastAverage(d, t, uncovered, g);
      ShrinkStep(|uncovered|, |next|, g, total, |d|, steps);
    }
  }

  lemma BestGains(shuffled: seq<Block>, b: Block, uncovered: set<set<int>>, u: set<int>, k: nat, t: nat)
    requires Candidates(shuffled, u, k) && BestFrom(shuffled, t, uncovered, b) && uncovered <= Choose(u, t)
    requires uncovered != {} && t <= k <= |u|
    ensures Gain(b, t, uncovered) > 0 && IsBlock(b, u, k)
    ensures |uncovered - Choose(b, t)| < |uncovered|
  {
    var s := Member(uncovered);
    var c := Extend(s, u, k);
    assert c in shuffled && s in Choose(c, t) * uncovered;
    assert uncovered == (uncovered - Choose(b, t)) + (Choose(b, t) * uncovered);
  }

  /** n blocks chosen greedily: before the last of them something was still uncovered. */
  ghost predicate GreedyBound(n: nat, total: nat, u: set<int>, k: nat, t: nat) {
    n > 0 ==> forall d :: IsCovering(d, u, k, t) && |d| > 0 ==> Shrunk(1, total, |d|, n - 1)
  }

  lemma StepEarlier(p: nat, r: nat, total: nat, m: nat)
    requires m > 0 && m * p <= total * ((m - 1) * r)
    ensures p <= total * r
  {
    ProductNonNegative(total, r);
    assert total * ((m - 1) * r) == m * (total * r) - total * r;
    CancelLe(m, p, total * r);
  }

  lemma {:induction false} ShrunkEarlier(total: nat, m: nat, n: nat, steps: nat)
    requires m > 0 && n <= steps && Shrunk(1, total, m, steps)
    ensures Shrunk(1, total, m, n)
    decreases steps
  {
    if n < steps {
      PowerNonNegative(m, steps - 1);
      PowerNonNegative(m - 1, steps - 1);
      StepEarlier(Power(m, steps - 1), Power(m - 1, steps - 1), total, m);
      ShrunkEarlier(total, m, n, steps - 1);
    }
  }

  /** A guarantee for n blocks is one for fewer. */
  lemma GreedyBoundFewer(n: nat, m: nat, total: nat, u: set<int>, k: nat, t: nat)
    requires m <= n && GreedyBound(n, total, u, k, t)
    ensures GreedyBound(m, total, u, k, t)
  {
    if m > 0 {
      forall d | IsCovering(d, u, k, t) && |d| > 0 ensures Shrunk(1, total, |d|, m - 1) {
        ShrunkEarlier(total, |d|, m - 1, n - 1);
      }
    }
  }

  lemma StillUncovered(left: nat, total: nat, u: set<int>, k: nat, t: nat, n: nat)
    requires left > 0 && ShrunkForAll(left, total, u, k, t, n)
    ensures GreedyBound(n + 1, total, u, k, t)
  {
    forall d | IsCovering(d, u, k, t) && |d| > 0 ensures Shrunk(1, total, |d|, n) {
      assert Shrunk(left, total, |d|, n);
      PowerNonNegative(|d|, n);
      TimesMonotone(1, left, Power(|d|, n));
    }
  }

  ghost predicate Remaining(chosen: seq<Block>, uncovered: set<set<int>>, u: set<int>, t: nat) {
    uncovered <= Choose(u, t) && forall s :: s in Choose(u, t) && s !in uncovered ==> Covers(chosen, s)
  }

  lemma ChooseCovers(chosen: seq<Block>, uncovered: set<set<int>>, u: set<int>, t: nat, b: Block)
    requires Remaining(chosen, uncovered, u, t)
    ensures Remaining(chosen + [b], uncovered - Choose(b, t), u, t)
  {
    var next := chosen + [b];
    forall s | s in Choose(u, t) && s !in uncovered - Choose(b, t) ensures Covers(next, s) {
      if s in Choose(b, t) {
        assert s <= next[|chosen|];
      } else {
        var i :| 0 <= i < |chosen| && s <= chosen[i];
        assert s <= next[i];
      }
    }
  }

  ghost predicate GreedyState(chosen: seq<Block>, uncovered: set<set<int>>, u: set<int>, k: nat, t: nat, total: nat) {
    && Remaining(chosen, uncovered, u, t) && |chosen| + |uncovered| <= total
    && (forall i :: 0 <= i < |chosen| ==> IsBlock(chosen[i], u, k))
    && ShrunkForAll(|uncovered|, total, u, k, t, |chosen|)
    && GreedyBound(|chosen|, total, u, k, t)
  }

  lemma GreedyStart(u: set<int>, k: nat, t: nat)
    ensures GreedyState([], Choose(u, t), u, k, t, Comb(|u|, t))
  {
    ChooseSize(u, t);
  }

  lemma GreedyStep(chosen: seq<Block>, uncovered: set<set<int>>, u: set<int>, k: nat, t: nat, total: nat,
                   shuffled: seq<Block>, b: Block)
    requires GreedyState(chosen, uncovered, u, k, t, total) && uncovered != {} && t <= k <= |u|
    requires Candidates(shuffled, u, k) && BestFrom(shuffled, t, uncovered, b)
    ensures GreedyState(chosen + [b], uncovered - Choose(b, t), u, k, t, total)
    ensures |uncovered - Choose(b, t)| < |uncovered|
  {
    BestGains(shuffled, b, uncovered, u, k, t);
    StillUncovered(|uncovered|, total, u, k, t, |chosen|);
    GreedyShrinks(shuffled, b, uncovered, total, u, k, t, |chosen|);
    ChooseCovers(chosen, uncovered, u, t, b);
  }

  lemma SomeCandidate(shuffled: seq<Block>, u: set<int>, k: nat)
    requires Candidates(shuffled, u, k) && k <= |u|
    ensures shuffled != []
  {
    var b := Extend({}, u, k);
    assert b in shuffled;
  }

  function Blocks(lists: seq<seq<int>>): (r: seq<Block>)
    ensures |r| == |lists| && forall i :: 0 <= i < |r| ==> r[i] == Elements(lists[i])
  {
    seq(|lists|, i requires 0 <= i < |lists| => Elements(lists[i]))
  }

  lemma AllCandidates(v: nat, k: nat)
    ensures Candidates(Blocks(Combs(k, Range(v))), Points(v), k)
  {
    var lists := Combs(k, Range(v));
    RangeElements(v);
    CombsComplete(k, Range(v));
    forall b ensures b in Blocks(lists) <==> IsBlock(b, Points(v), k) {
      assert b in Choose(Points(v), k) <==> IsBlock(b, Points(v), k);
      if i :| 0 <= i < |lists| && Elements(lists[i]) == b {
        assert Blocks(lists)[i] == b;
      }
    }
  }

  // ----- When the greedy steps make progress

  lemma NothingToCover(u: set<int>, t: nat)
    requires t > |u|
    ensures Choose(u, t) == {}
  {
    forall s | s in Choose(u, t) ensures false {
      SubsetSize(s, u);
    }
  }

  lemma NoGain(b: Block, t: nat, uncovered: set<set<int>>)
    requires |b| < t
    ensures Gain(b, t, uncovered) == 0 && uncovered - Choose(b, t) == uncovered
  {
    NothingToCover(b, t);
  }

  lemma {:induction false} SomeBest(blocks: seq<Block>, t: nat, uncovered: set<set<int>>, upto: nat) returns (at: nat)
    requires 1 <= upto <= |blocks|
    ensures BestAt(blocks, t, uncovered, upto, at)
  {
    if upto == 1 {
      at := 0;
    } else {
      at := SomeBest(blocks, t, uncovered, upto - 1);
      BestGrows(blocks, t, uncovered, upto - 1, at);
      if Gain(blocks[upto - 1], t, uncovered) > Gain(blocks[at], t, uncovered) {
        at := upto - 1;
      }
    }
  }

  ghost predicate GreedyChoice(shuffled: seq<Block>, uncovered: set<set<int>>, b: Block, u: set<int>, k: nat, t: nat) {
    && Candidates(shuffled, u, k) && BestFrom(shuffled, t, uncovered, b)
    && uncovered <= Choose(u, t) && uncovered != {}
  }

  ghost predicate CoversSome(uncovered: set<set<int>>, b: Block, t: nat) {
    |uncovered - Choose(b, t)| < |uncovered|
  }

  /** Whatever is uncovered, a step covers some of it. */
  ghost predicate AlwaysProgress(u: set<int>, k: nat, t: nat) {
    forall shuffled, uncovered, b :: GreedyChoice(shuffled, uncovered, b, u, k, t) ==> CoversSome(uncovered, b, t)
  }

  /** With k < t <= v every step leaves everything uncovered, and the loop goes on for ever. */
  lemma StuckStep(shuffled: seq<Block>, uncovered: set<set<int>>, b: Block, u: set<int>, k: nat, t: nat)
    requires GreedyChoice(shuffled, uncovered, b, u, k, t) && k < t
    ensures uncovered - Choose(b, t) == uncovered
  {
    assert b in shuffled;
    NoGain(b, t, uncovered);
  }

  lemma SomeChoice(v: nat, k: nat, t: nat) returns (shuffled: seq<Block>, b: Block)
    requires k <= v && t <= v
    ensures GreedyChoice(shuffled, Choose(Points(v), t), b, Points(v), k, t)
  {
    var u := Points(v);
    RangeElements(v);
    shuffled := Blocks(Combs(k, Range(v)));
    AllCandidates(v, k);
    SomeCandidate(shuffled, u, k);
    var at := SomeBest(shuffled, t, Choose(u, t), |shuffled|);
    b := shuffled[at];
    var s := Extend({}, u, t);
    assert s in Choose(u, t);
  }

  /** The search makes progress at every step exactly if a block can hold a t-subset, or there is none. */
  lemma ProgressWhen(v: nat, k: nat, t: nat)
    requires k <= v
    ensures AlwaysProgress(Points(v), k, t) <==> t <= k || t > v
  {
    var u := Points(v);
    RangeElements(v);
    if t <= k {
      forall shuffled, uncovered, b | GreedyChoice(shuffled, uncovered, b, u, k, t)
        ensures CoversSome(uncovered, b, t)
      {
        BestGains(shuffled, b, uncovered, u, k, t);
      }
    } else if t > v {
      NothingToCover(u, t);
    } else {
      var shuffled, b := SomeChoice(v, k, t);
      StuckStep(shuffled, Choose(u, t), b, u, k, t);
      assert !CoversSome(Choose(u, t), b, t);
    }
  }

  // ----- Which covering the greedy search finds

  /** The generator after n shuffles of the candidates. */
  ghost function StateAfter(blocks: seq<Block>, s: nat, n: nat): nat {
    if n == 0 then s else ShuffleAll(blocks, StateAfter(blocks, s, n - 1)).1
  }

  /** Something is left, and b is the first of the shuffled candidates that cover the most of it. */
  ghost predicate GreedyPick(blocks: seq<Block>, t: nat, left: set<set<int>>, s: nat, b: Block) {
    left != {} && BestFrom(ShuffleAll(blocks, s).0, t, left, b)
  }

  /** What the first n blocks leave of all. */
  ghost function LeftBy(all: set<set<int>>, chosen: seq<Block>, n: nat, t: nat): set<set<int>>
    requires n <= |chosen|
  {
    all - CoveredBy(chosen[..n], t)
  }

  /** Every block is picked after one more shuffle, for what the blocks before it leave. */
  ghost predicate GreedyRun(blocks: seq<Block>, t: nat, all: set<set<int>>, s: nat, chosen: seq<Block>) {
    forall i :: 0 <= i < |chosen| ==>
      GreedyPick(blocks, t, LeftBy(all, chosen, i, t), StateAfter(blocks, s, i), chosen[i])
  }

  ghost predicate GreedyEnds(blocks: seq<Block>, t: nat, all: set<set<int>>, s: nat, chosen: seq<Block>) {
    GreedyRun(blocks, t, all, s, chosen) && LeftBy(all, chosen, |chosen|, t) == {}
  }

  lemma LeftAfter(all: set<set<int>>, chosen: seq<Block>, b: Block, t: nat)
    ensures forall i :: 0 <= i <= |chosen| ==> LeftBy(all, chosen + [b], i, t) == LeftBy(all, chosen, i, t)
    ensures LeftBy(all, chosen + [b], |chosen| + 1, t) == LeftBy(all, chosen, |chosen|, t) - Choose(b, t)
  {
    forall i | 0 <= i <= |chosen| ensures (chosen + [b])[..i] == chosen[..i] {
    }
    assert (chosen + [b])[..|chosen| + 1] == chosen + [b] && chosen[..|chosen|] == chosen;
    CoveredByConcat(chosen, [b], t);
    assert [b][1..] == [] && CoveredBy([b], t) == Choose(b, t) + CoveredBy([], t);
  }

  lemma GreedyRunGrows(blocks: seq<Block>, t: nat, all: set<set<int>>, s: nat, chosen: seq<Block>, b: Block)
    requires GreedyRun(blocks, t, all, s, chosen)
    requires GreedyPick(blocks, t, LeftBy(all, chosen, |chosen|, t), StateAfter(blocks, s, |chosen|), b)
    ensures GreedyRun(blocks, t, all, s, chosen + [b])
  {
    LeftAfter(all, chosen, b, t);
    forall i | 0 <= i < |chosen + [b]|
      ensures GreedyPick(blocks, t, LeftBy(all, chosen + [b], i, t), StateAfter(blocks, s, i), (chosen + [b])[i])
    {
    }
  }

  lemma OneBest(blocks: seq<Block>, t: nat, left: set<set<int>>, b: Block, c: Block)
    requires BestFrom(blocks, t, left, b) && BestFrom(blocks, t, left, c)
    ensures b == c
  {
    var i: nat :| BestAt(blocks, t, left, |blocks|, i) && blocks[i] == b;
    var j: nat :| BestAt(blocks, t, left, |blocks|, j) && blocks[j] == c;
    assert Gain(blocks[i], t, left) <= Gain(blocks[j], t, left) <= Gain(blocks[i], t, left);
  }

  lemma SamePick(blocks: seq<Block>, t: nat, left: set<set<int>>, s: nat, b: Block, c: Block)
    requires GreedyPick(blocks, t, left, s, b) && GreedyPick(blocks, t, left, s, c)
    ensures b == c
  {
    OneBest(ShuffleAll(blocks, s).0, t, left, b, c);
  }

  lemma PickAt(blocks: seq<Block>, t: nat, all: set<set<int>>, s: nat, chosen: seq<Block>, i: nat)
    requires GreedyRun(blocks, t, all, s, chosen) && i < |chosen|
    ensures GreedyPick(blocks, t, all - CoveredBy(chosen[..i], t), StateAfter(blocks, s, i), chosen[i])
  {
    assert LeftBy(all, chosen, i, t) == all - CoveredBy(chosen[..i], t);
  }

  lemma {:induction false} SameGreedyPrefix(blocks: seq<Block>, t: nat, all: set<set<int>>, s: nat, a: seq<Block>,
                                            b: seq<Block>, n: nat)
    requires GreedyRun(blocks, t, all, s, a) && GreedyRun(blocks, t, all, s, b) && n <= |a| && n <= |b|
    ensures a[..n] == b[..n]
  {
    if n > 0 {
      var i := n - 1;
      SameGreedyPrefix(blocks, t, all, s, a, b, i);
      PickAt(blocks, t, all, s, a, i);
      PickAt(blocks, t, all, s, b, i);
      SamePick(blocks, t, all - CoveredBy(a[..i], t), StateAfter(blocks, s, i), a[i], b[i]);
      TakeNext(a, i);
      TakeNext(b, i);
    }
  }

  lemma StillLeft(blocks: seq<Block>, t: nat, all: set<set<int>>, s: nat, b: seq<Block>, n: nat)
    requires GreedyRun(blocks, t, all, s, b) && n < |b|
    ensures LeftBy(all, b, n, t) != {}
  {
    assert GreedyPick(blocks, t, LeftBy(all, b, n, t), StateAfter(blocks, s, n), b[n]);
  }

  lemma NotShorter(blocks: seq<Block>, t: nat, all: set<set<int>>, s: nat, a: seq<Block>, b: seq<Block>)
    requires GreedyEnds(blocks, t, all, s, a) && GreedyRun(blocks, t, all, s, b)
    ensures |b| <= |a|
  {
    if |a| < |b| {
      SameGreedyPrefix(blocks, t, all, s, a, b, |a|);
      StillLeft(blocks, t, all, s, b, |a|);
    }
  }

  /** The candidates, in their order, and the state of the generator determine the greedy covering. */
  lemma GreedyIsUnique(blocks: seq<Block>, t: nat, all: set<set<int>>, s: nat, a: seq<Block>, b: seq<Block>)
    requires GreedyEnds(blocks, t, all, s, a) && GreedyEnds(blocks, t, all, s, b)
    ensures a == b
  {
    NotShorter(blocks, t, all, s, a, b);
    NotShorter(blocks, t, all, s, b, a);
    SameGreedyPrefix(blocks, t, all, s, a, b, |a|);
    assert a[..|a|] == a && b[..|b|] == b;
  }

  /** Greedy set cover terminates with a covering, and against every covering d each step shrinks what
      is left by at least the factor 1 - 1/|d|. */
  method Greedy(rng: Lcg, v: nat, k: nat, t: nat, blocks: seq<Block>, allT: set<set<int>>) returns (chosen: seq<Block>)
    requires (t <= k <= v || t > v) && Candidates(blocks, Points(v), k) && allT == Choose(Points(v), t)
    modifies rng
    ensures IsCovering(chosen, Points(v), k, t)
    ensures |chosen| <= Comb(v, t) && GreedyBound(|chosen|, Comb(v, t), Points(v), k, t)
    ensures GreedyEnds(blocks, t, allT, old(rng.s), chosen) && rng.s == StateAfter(blocks, old(rng.s), |chosen|)
  {
    RangeElements(v);
    GreedyStart(Points(v), k, t);
    var uncovered := allT;
    chosen := [];
    assert LeftBy(allT, chosen, 0, t) == uncovered;
    while uncovered != {}
      invariant GreedyState(chosen, uncovered, Points(v), k, t, Comb(v, t))
      invariant GreedyRun(blocks, t, allT, old(rng.s), chosen) && uncovered == LeftBy(allT, chosen, |chosen|, t)
      invariant rng.s == StateAfter(blocks, old(rng.s), |chosen|)
      decreases |uncovered|
    {
      assert t <= k <= v by {
        if t > v {
          NothingToCover(Points(v), t);
        }
      }
      var shuffled := rng.Shuffled(blocks);
      Rearranged(shuffled, blocks);
      SomeCandidate(shuffled, Points(v), k);
      var b := PickBest(shuffled, t, uncovered);
      GreedyStep(chosen, uncovered, Points(v), k, t, Comb(v, t), shuffled, b);
      GreedyRunGrows(blocks, t, allT, old(rng.s), chosen, b);
      LeftAfter(allT, chosen, b, t);
      chosen := chosen + [b];
      uncovered := uncovered - Choose(b, t);
    }
  }

  // ----- Pruning

  method CoveredUnion(others: seq<Block>, t: nat) returns (covered: set<set<int>>)
    ensures covered == CoveredBy(others, t)
  {
    covered := {};
    for i := 0 to |others|
      invariant covered + CoveredBy(others[i..], t) == CoveredBy(others, t)
    {
      covered := covered + Choose(others[i], t);
    }
  }

  ghost predicate Redundant(chosen: seq<Block>, t: nat, i: nat)
    requires i < |chosen|
  {
    Choose(chosen[i], t) <= CoveredBy(Without(chosen, i), t)
  }

  lemma {:induction false} CoveredByConcat(a: seq<Block>, b: seq<Block>, t: nat)
    ensures CoveredBy(a + b, t) == CoveredBy(a, t) + CoveredBy(b, t)
  {
    if a == [] {
      assert a + b == b;
    } else {
      CoveredByConcat(a[1..], b, t);
      assert (a + b)[1..] == a[1..] + b;
    }
  }

  lemma SplitAt(chosen: seq<Block>, t: nat, i: nat)
    requires i < |chosen|
    ensures CoveredBy(chosen, t) == CoveredBy(Without(chosen, i), t) + Choose(chosen[i], t)
    ensures multiset(Without(chosen, i)) <= multiset(chosen)
  {
    var a, b := chosen[..i], chosen[i + 1..];
    assert chosen == a + ([chosen[i]] + b);
    CoveredByConcat(a, [chosen[i]] + b, t);
    CoveredByConcat(a, b, t);
    assert ([chosen[i]] + b)[1..] == b;
    assert multiset(chosen) == multiset(a) + (multiset{chosen[i]} + multiset(b));
  }

  /** One pass: a block is kept unless the blocks kept before it and all blocks after it cover its sets. */
  ghost function KeptBy(kept: seq<Block>, rest: seq<Block>, t: nat): seq<Block>
    decreases |rest|
  {
    if rest == [] then kept
    else if Choose(rest[0], t) <= CoveredBy(kept + rest[1..], t) then KeptBy(kept, rest[1..], t)
    else KeptBy(kept + [rest[0]], rest[1..], t)
  }

  lemma {:induction false} KeepsUpTo(chosen: seq<Block>, t: nat, i: nat)
    requires i <= |chosen| && forall j :: 0 <= j < i ==> !Redundant(chosen, t, j)
    ensures KeptBy([], chosen, t) == KeptBy(chosen[..i], chosen[i..], t)
  {
    if i == 0 {
      assert chosen[..0] == [] && chosen[0..] == chosen;
    } else {
      KeepsUpTo(chosen, t, i - 1);
      assert !Redundant(chosen, t, i - 1);
      assert chosen[i - 1..][0] == chosen[i - 1] && chosen[i - 1..][1..] == chosen[i..];
      assert chosen[..i - 1] + [chosen[i - 1]] == chosen[..i];
    }
  }

  /** With fewer blocks no further one becomes redundant. */
  lemma StaysNeeded(chosen: seq<Block>, t: nat, i: nat, j: nat)
    requires j < i < |chosen| && !Redundant(chosen, t, j)
    ensures !Redundant(Without(chosen, i), t, j)
  {
    var fewer := Without(chosen, i);
    var a, b, c := chosen[..j], chosen[j + 1..i], chosen[i + 1..];
    assert Without(chosen, j) == a + (b + ([chosen[i]] + c)) && Without(fewer, j) == a + (b + c);
    CoveredByConcat(a, b + ([chosen[i]] + c), t);
    CoveredByConcat(b, [chosen[i]] + c, t);
    CoveredByConcat([chosen[i]], c, t);
    CoveredByConcat(a, b + c, t);
    CoveredByConcat(b, c, t);
  }

  /** Dropping the first redundant block does not change what a pass keeps. */
  lemma DropFirst(chosen: seq<Block>, t: nat, i: nat)
    requires i < |chosen| && Redundant(chosen, t, i) && forall j :: 0 <= j < i ==> !Redundant(chosen, t, j)
    ensures KeptBy([], Without(chosen, i), t) == KeptBy([], chosen, t)
  {
    var fewer := Without(chosen, i);
    KeepsUpTo(chosen, t, i);
    assert chosen[i..][0] == chosen[i] && chosen[i..][1..] == chosen[i + 1..];
    forall j | 0 <= j < i ensures !Redundant(fewer, t, j) {
      StaysNeeded(chosen, t, i, j);
    }
    KeepsUpTo(fewer, t, i);
    assert fewer[..i] == chosen[..i] && fewer[i..] == chosen[i + 1..];
  }

  method FindRedundant(chosen: seq<Block>, t: nat) returns (found: bool, i: nat)
    ensures found ==> i < |chosen| && Redundant(chosen, t, i) && forall j :: 0 <= j < i ==> !Redundant(chosen, t, j)
    ensures !found ==> forall j :: 0 <= j < |chosen| ==> !Redundant(chosen, t, j)
  {
    for j := 0 to |chosen|
      invariant forall l :: 0 <= l < j ==> !Redundant(chosen, t, l)
    {
      var covered := CoveredUnion(Without(chosen, j), t);
      if Choose(chosen[j], t) <= covered {
        return true, j;
      }
    }
    return false, 0;
  }

  /** Pruning drops the first redundant block until none is redundant; what is covered stays covered. The
      restarts keep what a single pass keeps. */
  method Prune(chosen: seq<Block>, t: nat) returns (r: seq<Block>)
    ensures r == KeptBy([], chosen, t)
    ensures CoveredBy(r, t) == CoveredBy(chosen, t) && multiset(r) <= multiset(chosen)
    ensures forall i :: 0 <= i < |r| ==> !Redundant(r, t, i)
  {
    r := chosen;
    var changed := true;
    while changed
      invariant CoveredBy(r, t) == CoveredBy(chosen, t) && multiset(r) <= multiset(chosen)
      invariant !changed ==> forall i :: 0 <= i < |r| ==> !Redundant(r, t, i)
      invariant KeptBy([], r, t) == KeptBy([], chosen, t)
      decreases |r|, changed
    {
      var i;
      changed, i := FindRedundant(r, t);
      if changed {
        SplitAt(r, t, i);
        DropFirst(r, t, i);
        r := Without(r, i);
      }
    }
    KeepsUpTo(r, t, |r|);
  }

  lemma {:induction false} CoveredByCovers(blocks: seq<Block>, t: nat, s: set<int>)
    requires s in CoveredBy(blocks, t)
    ensures |s| == t && Covers(blocks, s)
  {
    if s in Choose(blocks[0], t) {
      assert s <= blocks[0];
    } else {
      CoveredByCovers(blocks[1..], t, s);
      var i :| 0 <= i < |blocks[1..]| && s <= blocks[1..][i];
      assert s <= blocks[i + 1];
    }
  }

  /** What is left after pruning is a covering, and no longer one when any block is dropped. */
  lemma PrunedIsMinimal(chosen: seq<Block>, r: seq<Block>, u: set<int>, k: nat, t: nat)
    requires IsCovering(chosen, u, k, t)
    requires CoveredBy(r, t) == CoveredBy(chosen, t) && multiset(r) <= multiset(chosen)
    requires forall i :: 0 <= i < |r| ==> !Redundant(r, t, i)
    ensures IsCovering(r, u, k, t) && forall i :: 0 <= i < |r| ==> !IsCovering(Without(r, i), u, k, t)
  {
    forall i | 0 <= i < |r| ensures IsBlock(r[i], u, k) {
      assert r[i] in multiset(r);
      assert r[i] in multiset(chosen);
      assert r[i] in chosen;
    }
    forall s | s in Choose(u, t) ensures Covers(r, s) {
      CoveredByMembers(chosen, t, s);
      CoveredByCovers(r, t, s);
    }
    forall i | 0 <= i < |r| ensures !IsCovering(Without(r, i), u, k, t) {
      DropBreaks(r, u, k, t, i);
    }
  }

  lemma DropBreaks(r: seq<Block>, u: set<int>, k: nat, t: nat, i: nat)
    requires i < |r| && IsBlock(r[i], u, k) && !Redundant(r, t, i)
    ensures !IsCovering(Without(r, i), u, k, t)
  {
    var s :| s in Choose(r[i], t) && s !in CoveredBy(Without(r, i), t);
    if IsCovering(Without(r, i), u, k, t) {
      assert s in Choose(u, t);
      CoveredByMembers(Without(r, i), t, s);
    }
  }

  /** A covering found by the search: accepted by the check, irredundant, and within the greedy guarantee. */
  ghost predicate Found(best: seq<Block>, v: nat, k: nat, t: nat) {
    && IsCovering(best, Points(v), k, t)
    && (forall i :: 0 <= i < |best| ==> !IsCovering(Without(best, i), Points(v), k, t))
    && |best| <= Comb(v, t) && GreedyBound(|best|, Comb(v, t), Points(v), k, t)
  }

  /** r is what pruning leaves of the greedy covering found from state s, and end the state reached. */
  ghost predicate Searched(blocks: seq<Block>, t: nat, all: set<set<int>>, s: nat, r: seq<Block>, end: nat) {
    exists chosen :: SearchedBy(blocks, t, all, s, chosen, r, end)
  }

  ghost predicate SearchedBy(blocks: seq<Block>, t: nat, all: set<set<int>>, s: nat, chosen: seq<Block>,
                             r: seq<Block>, end: nat) {
    GreedyEnds(blocks, t, all, s, chosen) && r == KeptBy([], chosen, t) && end == StateAfter(blocks, s, |chosen|)
  }

  /** The restarts run one after the other from state s. */
  ghost predicate RestartsFrom(blocks: seq<Block>, t: nat, all: set<set<int>>, tried: seq<seq<Block>>,
                               states: seq<nat>) {
    && |states| == |tried| + 1
    && forall i :: 0 <= i < |tried| ==> Searched(blocks, t, all, states[i], tried[i], states[i + 1])
  }

  lemma RestartsGrow(blocks: seq<Block>, t: nat, all: set<set<int>>, tried: seq<seq<Block>>, states: seq<nat>,
                     r: seq<Block>, end: nat)
    requires RestartsFrom(blocks, t, all, tried, states) && Searched(blocks, t, all, states[|tried|], r, end)
    ensures RestartsFrom(blocks, t, all, tried + [r], states + [end])
  {
  }

  method SearchOnce(rng: Lcg, v: nat, k: nat, t: nat, blocks: seq<Block>, allT: set<set<int>>) returns (r: seq<Block>)
    requires t <= k <= v && Candidates(blocks, Points(v), k) && allT == Choose(Points(v), t)
    modifies rng
    ensures Found(r, v, k, t) && Searched(blocks, t, allT, old(rng.s), r, rng.s)
  {
    var chosen := Greedy(rng, v, k, t, blocks, allT);
    r := Prune(chosen, t);
    assert SearchedBy(blocks, t, allT, old(rng.s), chosen, r, rng.s);
    PrunedIsMinimal(chosen, r, Points(v), k, t);
    SubMultisetLength(r, chosen);
    GreedyBoundFewer(|chosen|, |r|, Comb(v, t), Points(v), k, t);
  }

  lemma SubMultisetLength<T>(a: seq<T>, b: seq<T>)
    requires multiset(a) <= multiset(b)
    ensures |a| <= |b|
  {
    assert multiset(b) == multiset(a) + (multiset(b) - multiset(a));
    assert |multiset(a)| == |a| && |multiset(b)| == |b|;
  }

  /** best is the first of the shortest. */
  ghost predicate Shortest(tried: seq<seq<Block>>, best: seq<Block>) {
    exists at: nat :: at < |tried| && FirstShortest(tried, at) && tried[at] == best
  }

  ghost predicate FirstShortest(tried: seq<seq<Block>>, at: nat)
    requires at < |tried|
  {
    forall i :: 0 <= i < |tried| ==> if i < at then |tried[at]| < |tried[i]| else |tried[at]| <= |tried[i]|
  }

  lemma TryOne(tried: seq<seq<Block>>, best: seq<Block>, found: seq<Block>)
    requires Shortest(tried, best)
    ensures Shortest(tried + [found], if |found| < |best| then found else best)
  {
    var at: nat :| at < |tried| && FirstShortest(tried, at) && tried[at] == best;
    var next := tried + [found];
    if |found| < |best| {
      assert FirstShortest(next, |tried|);
    } else {
      assert FirstShortest(next, at) && next[at] == best;
    }
  }

  ghost predicate AllFound(tried: seq<seq<Block>>, v: nat, k: nat, t: nat) {
    forall i :: 0 <= i < |tried| ==> Found(tried[i], v, k, t)
  }

  lemma FoundWithin(best: seq<Block>, v: nat, k: nat, t: nat)
    requires Found(best, v, k, t) && 1 <= t <= k <= v
    ensures |best| >= Schonheim(v, k, t) && |best| >= CountingBound(v, k, t)
  {
    RangeElements(v);
    SchonheimBoundsCoverings(best, Points(v), k, t);
    CountingBoundsCoverings(best, Points(v), k, t);
  }

  /** The restarts tried one after the other from state s to end, and the first shortest of them. */
  ghost predicate ProbeState(v: nat, k: nat, t: nat, tried: seq<seq<Block>>, states: seq<nat>, best: seq<Block>,
                             s: nat, end: nat) {
    && AllFound(tried, v, k, t) && Shortest(tried, best)
    && RestartsFrom(Blocks(Combs(k, Range(v))), t, Choose(Points(v), t), tried, states)
    && states[0] == s && states[|tried|] == end
  }

  lemma ProbeStarts(v: nat, k: nat, t: nat, r: seq<Block>, s: nat, end: nat)
    requires Found(r, v, k, t) && Searched(Blocks(Combs(k, Range(v))), t, Choose(Points(v), t), s, r, end)
    ensures ProbeState(v, k, t, [r], [s, end], r, s, end)
  {
    assert FirstShortest([r], 0);
  }

  lemma ProbeGoesOn(v: nat, k: nat, t: nat, tried: seq<seq<Block>>, states: seq<nat>, best: seq<Block>, s: nat,
                    next: nat, r: seq<Block>, end: nat)
    requires ProbeState(v, k, t, tried, states, best, s, next) && Found(r, v, k, t)
    requires Searched(Blocks(Combs(k, Range(v))), t, Choose(Points(v), t), next, r, end)
    ensures ProbeState(v, k, t, tried + [r], states + [end], if |r| < |best| then r else best, s, end)
  {
    TryOne(tried, best, r);
    RestartsGrow(Blocks(Combs(k, Range(v))), t, Choose(Points(v), t), tried, states, r, end);
  }

  lemma BestIsFound(v: nat, k: nat, t: nat, tried: seq<seq<Block>>, states: seq<nat>, best: seq<Block>, s: nat,
                    end: nat)
    requires ProbeState(v, k, t, tried, states, best, s, end)
    ensures Found(best, v, k, t)
  {
  }

  /** The first shortest of the restarts, each of which goes on with the generator where the one before left
      it. The check always accepts it, and it never beats the bounds. */
  method ProbeCell(rng: Lcg, v: nat, k: nat, t: nat, restarts: nat)
    returns (best: seq<Block>, verdict: Verdict, ghost tried: seq<seq<Block>>, ghost states: seq<nat>)
    requires 1 <= t <= k <= v && restarts > 0
    modifies rng
    ensures |tried| == restarts && ProbeState(v, k, t, tried, states, best, old(rng.s), rng.s)
    ensures Found(best, v, k, t) && verdict.Accepted?
    ensures |best| >= Schonheim(v, k, t) && |best| >= CountingBound(v, k, t)
  {
    var blocks, allT := Blocks(Combs(k, Range(v))), Choose(Points(v), t);
    AllCandidates(v, k);
    best := SearchOnce(rng, v, k, t, blocks, allT);
    tried, states := [best], [old(rng.s), rng.s];
    ProbeStarts(v, k, t, best, old(rng.s), rng.s);
    for r := 1 to restarts
      invariant |tried| == r && ProbeState(v, k, t, tried, states, best, old(rng.s), rng.s)
    {
      ghost var before := rng.s;
      var found := SearchOnce(rng, v, k, t, blocks, allT);
      ProbeGoesOn(v, k, t, tried, states, best, old(rng.s), before, found, rng.s);
      tried, states := tried + [found], states + [rng.s];
      if |found| < |best| {
        best := found;
      }
    }
    BestIsFound(v, k, t, tried, states, best, old(rng.s), rng.s);
    verdict := VerifyCovering(best, v, k, t);
    FoundWithin(best, v, k, t);
  }
}
