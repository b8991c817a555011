/** Subsets of a given size, counted and enumerated. */
module Subsets {
  // Subsets of a given size: how many there are, and the lexicographic enumeration of them.

  import opened Collections
  import opened Binomial

  /** The t-element subsets of s. */
  function Choose(s: set<int>, t: nat): set<set<int>> {
    set x | x <= s && |x| == t
  }

  ghost function WithPoint(sets: set<set<int>>, x: int): set<set<int>> {
    set y | y in sets :: y + {x}
  }

  lemma {:induction false} WithPointSize(sets: set<set<int>>, x: int)
    requires forall y :: y in sets ==> x !in y
    ensures |WithPoint(sets, x)| == |sets|
    decreases |sets|
  {
    if sets == {} {
      assert WithPoint(sets, x) == {};
    } else {
      var y :| y in sets;
      WithPointSize(sets - {y}, x);
      assert WithPoint(sets, x) == WithPoint(sets - {y}, x) + {y + {x}};
      forall z | z in sets - {y} ensures z + {x} != y + {x} {
        assert (z + {x}) - {x} == z && (y + {x}) - {x} == y;
      }
    }
  }

  /** The subsets that avoid x, and those that hold it. */
  lemma ChooseSplit(s: set<int>, t: nat, x: int)
    requires x in s && t > 0
    ensures Choose(s, t) == Choose(s - {x}, t) + WithPoint(Choose(s - {x}, t - 1), x)
  {
    forall y | y in Choose(s, t) ensures y in Choose(s - {x}, t) + WithPoint(Choose(s - {x}, t - 1), x) {
      if x in y {
        assert y - {x} in Choose(s - {x}, t - 1) && (y - {x}) + {x} == y;
      }
    }
  }

  lemma ChooseGrows(s: set<int>, t: nat, x: int)
    requires x in s && t > 0
    ensures |Choose(s, t)| == |Choose(s - {x}, t)| + |Choose(s - {x}, t - 1)|
  {
    ChooseSplit(s, t, x);
    WithPointSize(Choose(s - {x}, t - 1), x);
    assert Choose(s - {x}, t) !! WithPoint(Choose(s - {x}, t - 1), x);
  }

  lemma {:induction false} ChooseSize(s: set<int>, t: nat)
    ensures |Choose(s, t)| == Comb(|s|, t)
    decreases |s|
  {
    if t == 0 {
      assert Choose(s, 0) == {{}};
    } else if s == {} {
      assert Choose(s, t) == {};
    } else {
      var x := Member(s);
      ChooseSize(s - {x}, t);
      ChooseSize(s - {x}, t - 1);
      ChooseGrows(s, t, x);
      assert |s - {x}| == |s| - 1;
    }
  }

  // ----- The enumeration

  /** The t-element selections from xs, in lexicographic order of positions. */
  function Combs(t: nat, xs: seq<int>): seq<seq<int>> {
    if t == 0 then [[]]
    else if xs == [] then []
    else Fronted(xs[0], Combs(t - 1, xs[1..])) + Combs(t, xs[1..])
  }

  lemma {:induction false} CombsCount(t: nat, xs: seq<int>)
    ensures |Combs(t, xs)| == Comb(|xs|, t)
    decreases |xs|
  {
    if t > 0 && xs != [] {
      CombsCount(t - 1, xs[1..]);
      CombsCount(t, xs[1..]);
    }
  }

  /** The lists agree up to a position where the first has the smaller entry. */
  ghost predicate ListedBefore(a: seq<int>, b: seq<int>) {
    exists p :: SmallerAt(a, b, p)
  }

  ghost predicate SmallerAt(a: seq<int>, b: seq<int>, p: int) {
    0 <= p < |a| && p < |b| && a[..p] == b[..p] && a[p] < b[p]
  }

  lemma BehindKeepsOrder(x: int, a: seq<int>, b: seq<int>)
    requires ListedBefore(a, b)
    ensures ListedBefore([x] + a, [x] + b)
  {
    var p :| SmallerAt(a, b, p);
    assert ([x] + a)[..p + 1] == [x] + a[..p] && ([x] + b)[..p + 1] == [x] + b[..p];
    assert SmallerAt([x] + a, [x] + b, p + 1);
  }

  ghost predicate InOrder(lists: seq<seq<int>>) {
    forall i, j :: 0 <= i < j < |lists| ==> ListedBefore(lists[i], lists[j])
  }

  lemma FrontedInOrder(x: int, lists: seq<seq<int>>)
    requires InOrder(lists)
    ensures InOrder(Fronted(x, lists))
  {
    var r := Fronted(x, lists);
    forall i, j | 0 <= i < j < |r| ensures ListedBefore(r[i], r[j]) {
      BehindKeepsOrder(x, lists[i], lists[j]);
    }
  }

  lemma ConcatInOrder(a: seq<seq<int>>, b: seq<seq<int>>)
    requires InOrder(a) && InOrder(b)
    requires forall i, j :: 0 <= i < |a| && 0 <= j < |b| ==> ListedBefore(a[i], b[j])
    ensures InOrder(a + b)
  {
  }

  lemma FirstGroupBefore(xs: seq<int>, a: seq<int>, b: seq<int>, t: nat)
    requires xs != [] && Increasing(xs) && t > 0 && Selects(b, t, xs[1..])
    ensures ListedBefore([xs[0]] + a, b)
  {
    assert b[0] in b && b[0] in xs[1..];
    assert SmallerAt([xs[0]] + a, b, 0);
  }

  /** The enumeration is in lexicographic order. */
  lemma {:induction false} CombsInOrder(t: nat, xs: seq<int>)
    requires Increasing(xs)
    ensures InOrder(Combs(t, xs))
    decreases |xs|
  {
    if t > 0 && xs != [] {
      var fewer, rest := Combs(t - 1, xs[1..]), Combs(t, xs[1..]);
      CombsInOrder(t - 1, xs[1..]);
      CombsInOrder(t, xs[1..]);
      FrontedInOrder(xs[0], fewer);
      forall i, j | 0 <= i < |fewer| && 0 <= j < |rest| ensures ListedBefore(Fronted(xs[0], fewer)[i], rest[j]) {
        CombsSelect(t, xs[1..], j);
        FirstGroupBefore(xs, fewer[i], rest[j], t);
      }
      ConcatInOrder(Fronted(xs[0], fewer), rest);
    }
  }

  lemma IncreasingSize(xs: seq<int>)
    requires Increasing(xs)
    ensures |Elements(xs)| == |xs|
    decreases |xs|
  {
    if xs == [] {
      assert Elements(xs) == {};
    } else {
      IncreasingSize(xs[1..]);
      assert Elements(xs) == {xs[0]} + Elements(xs[1..]);
    }
  }

  ghost predicate Selects(e: seq<int>, t: nat, xs: seq<int>) {
    |e| == t && Increasing(e) && forall x :: x in e ==> x in xs
  }

  lemma SelectBehind(t: nat, xs: seq<int>, e: seq<int>)
    requires xs != [] && Increasing(xs) && Selects(e, t, xs[1..])
    ensures Selects([xs[0]] + e, t + 1, xs)
  {
    forall x | x in e ensures x > xs[0] {
      assert x in xs[1..];
    }
    assert forall j :: 0 <= j < |e| ==> e[j] in e;
  }

  lemma {:induction false} CombsSelect(t: nat, xs: seq<int>, i: nat)
    requires Increasing(xs) && i < |Combs(t, xs)|
    ensures Selects(Combs(t, xs)[i], t, xs)
    decreases |xs|
  {
    if t > 0 {
      var first := Combs(t - 1, xs[1..]);
      if i < |first| {
        CombsSelect(t - 1, xs[1..], i);
        SelectBehind(t - 1, xs, first[i]);
      } else {
        CombsSelect(t, xs[1..], i - |first|);
      }
    }
  }

  ghost predicate Drawn(s: set<int>, t: nat, xs: seq<int>) {
    |s| == t && forall x :: x in s ==> x in xs
  }

  lemma ElementsBehind(x: int, e: seq<int>, s: set<int>)
    requires x in s && Elements(e) == s - {x}
    ensures Elements([x] + e) == s
  {
    forall y ensures y in Elements([x] + e) <==> y in s {
      assert y in [x] + e <==> y == x || y in e;
      assert y in e <==> y in Elements(e);
    }
  }

  lemma TakeFirst(t: nat, xs: seq<int>, s: set<int>)
    requires Increasing(xs) && xs != [] && t > 0 && Drawn(s, t, xs)
    ensures if xs[0] in s then Drawn(s - {xs[0]}, t - 1, xs[1..]) else Drawn(s, t, xs[1..])
  {
    assert forall x :: x in xs <==> x == xs[0] || x in xs[1..];
  }

  lemma CombsAt(t: nat, xs: seq<int>, i: nat)
    requires t > 0 && xs != []
    ensures |Combs(t, xs)| == |Combs(t - 1, xs[1..])| + |Combs(t, xs[1..])|
    ensures i < |Combs(t - 1, xs[1..])| ==> Combs(t, xs)[i] == [xs[0]] + Combs(t - 1, xs[1..])[i]
    ensures |Combs(t - 1, xs[1..])| <= i < |Combs(t, xs)| ==>
      Combs(t, xs)[i] == Combs(t, xs[1..])[i - |Combs(t - 1, xs[1..])|]
  {
  }

  lemma SelectedFirst(t: nat, xs: seq<int>, s: set<int>, i: nat)
    requires t > 0 && xs != [] && xs[0] in s
    requires i < |Combs(t - 1, xs[1..])| && Elements(Combs(t - 1, xs[1..])[i]) == s - {xs[0]}
    ensures i < |Combs(t, xs)| && Elements(Combs(t, xs)[i]) == s
  {
    CombsAt(t, xs, i);
    ElementsBehind(xs[0], Combs(t - 1, xs[1..])[i], s);
  }

  lemma SelectedLater(t: nat, xs: seq<int>, s: set<int>, at: nat, i: nat)
    requires t > 0 && xs != [] && i == |Combs(t - 1, xs[1..])| + at
    requires at < |Combs(t, xs[1..])| && Elements(Combs(t, xs[1..])[at]) == s
    ensures i < |Combs(t, xs)| && Elements(Combs(t, xs)[i]) == s
  {
    CombsAt(t, xs, i);
  }

  lemma NothingSelected(s: set<int>, xs: seq<int>)
    requires |s| == 0
    ensures |Combs(0, xs)| == 1 && Elements(Combs(0, xs)[0]) == s
  {
  }

  lemma NothingDrawn(s: set<int>, t: nat)
    requires Drawn(s, t, [])
    ensures t == 0
  {
    if t > 0 {
      var x := Member(s);
    }
  }

  lemma {:induction false} FindSelection(t: nat, xs: seq<int>, s: set<int>) returns (i: nat)
    requires Increasing(xs) && Drawn(s, t, xs)
    ensures i < |Combs(t, xs)| && Elements(Combs(t, xs)[i]) == s
    decreases |xs|
  {
    if xs == [] {
      NothingDrawn(s, t);
    }
    if t == 0 {
      i := 0;
      NothingSelected(s, xs);
    } else {
      TakeFirst(t, xs, s);
      if xs[0] in s {
        i := FindSelection(t - 1, xs[1..], s - {xs[0]});
        SelectedFirst(t, xs, s, i);
      } else {
        var at := FindSelection(t, xs[1..], s);
        i := |Combs(t - 1, xs[1..])| + at;
        SelectedLater(t, xs, s, at, i);
      }
    }
  }

  /** The enumeration lists every t-subset of the points. */
  lemma CombsComplete(t: nat, xs: seq<int>)
    requires Increasing(xs)
    ensures Choose(Elements(xs), t) == set i | 0 <= i < |Combs(t, xs)| :: Elements(Combs(t, xs)[i])
  {
    forall s | s in Choose(Elements(xs), t)
      ensures exists i :: 0 <= i < |Combs(t, xs)| && Elements(Combs(t, xs)[i]) == s
    {
      var i := FindSelection(t, xs, s);
    }
    forall i | 0 <= i < |Combs(t, xs)| ensures Elements(Combs(t, xs)[i]) in Choose(Elements(xs), t) {
      CombsSelect(t, xs, i);
      IncreasingSize(Combs(t, xs)[i]);
    }
  }

  lemma RangeElements(v: nat)
    ensures Increasing(Range(v)) && |Elements(Range(v))| == v
    ensures forall x :: x in Elements(Range(v)) <==> 0 <= x < v
  {
    IncreasingSize(Range(v));
    forall x | 0 <= x < v ensures x in Range(v) {
      assert Range(v)[x] == x;
    }
  }
}
