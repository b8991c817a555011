/** The canonical form of a morphism under relabelling, and one representative for each class. */
module Canon {
  import opened Collections
  import opened Morphisms

  // ----- Lexicographic order

  predicate LexLess<T(==)>(less: (T, T) -> bool, a: seq<T>, b: seq<T>) {
    if b == [] then false
    else if a == [] then true
    else if a[0] != b[0] then less(a[0], b[0])
    else LexLess(less, a[1..], b[1..])
  }

  ghost predicate OrderAt<T>(less: (T, T) -> bool, x: T, y: T, z: T) {
    && !less(x, x)
    && (less(x, y) && less(y, z) ==> less(x, z))
    && (x != y ==> less(x, y) || less(y, x))
  }

  ghost predicate Orders<T(!new)>(less: (T, T) -> bool) {
    forall x, y, z :: OrderAt(less, x, y, z)
  }

  lemma {:induction false} LexAt<T(!new)>(less: (T, T) -> bool, a: seq<T>, b: seq<T>, c: seq<T>)
    requires Orders(less)
    ensures !LexLess(less, a, a)
    ensures LexLess(less, a, b) && LexLess(less, b, c) ==> LexLess(less, a, c)
    ensures a != b ==> LexLess(less, a, b) || LexLess(less, b, a)
    decreases |a| + |b| + |c|
  {
    if a != [] && b != [] {
      assert OrderAt(less, a[0], b[0], a[0]);
      if c != [] {
        assert OrderAt(less, a[0], b[0], c[0]);
        LexAt(less, a[1..], b[1..], c[1..]);
      } else {
        LexAt(less, a[1..], b[1..], []);
      }
      assert a == [a[0]] + a[1..] && b == [b[0]] + b[1..];
    } else if a != [] {
      LexAt(less, a[1..], [], []);
    }
  }

  function NatLess(): (nat, nat) -> bool {
    (x: nat, y: nat) => x < y
  }

  function WordLess(): (Word, Word) -> bool {
    (a: Word, b: Word) => LexLess(NatLess(), a, b)
  }

  predicate KeyLess(a: Morphism, b: Morphism) {
    LexLess(WordLess(), a, b)
  }

  lemma KeysOrdered(a: Morphism, b: Morphism)
    ensures !KeyLess(a, a) && (a != b ==> KeyLess(a, b) || KeyLess(b, a))
  {
    KeysTransitive(a, b, a);
  }

  lemma KeysTransitive(a: Morphism, b: Morphism, c: Morphism)
    ensures !KeyLess(a, a) && (a != b ==> KeyLess(a, b) || KeyLess(b, a))
    ensures KeyLess(a, b) && KeyLess(b, c) ==> KeyLess(a, c)
  {
    forall x, y, z ensures OrderAt(NatLess(), x, y, z) {
    }
    forall u, v, w ensures OrderAt(WordLess(), u, v, w) {
      LexAt(NatLess(), u, v, w);
    }
    LexAt(WordLess(), a, b, c);
  }

  // ----- Permutations

  /** All arrangements of xs, by the position of their first element. */
  function Permutations(xs: seq<nat>): seq<seq<nat>>
    decreases |xs|, 1, 0
  {
    if xs == [] then [[]] else StartingFrom(xs, 0)
  }

  function StartingFrom(xs: seq<nat>, i: nat): seq<seq<nat>>
    requires xs != [] && i <= |xs|
    decreases |xs|, 0, |xs| + 1 - i
  {
    if i == |xs| then []
    else Fronted(xs[i], Permutations(Without(xs, i))) + StartingFrom(xs, i + 1)
  }

  lemma {:induction false} PermutationsSound(xs: seq<nat>, p: seq<nat>)
    requires p in Permutations(xs)
    ensures multiset(p) == multiset(xs)
    decreases |xs|, 1, 0
  {
    if xs != [] {
      StartingSound(xs, 0, p);
    }
  }

  lemma {:induction false} StartingSound(xs: seq<nat>, i: nat, p: seq<nat>)
    requires xs != [] && i <= |xs| && p in StartingFrom(xs, i)
    ensures multiset(p) == multiset(xs)
    decreases |xs|, 0, |xs| + 1 - i
  {
    if i < |xs| {
      var lists := Permutations(Without(xs, i));
      if p in Fronted(xs[i], lists) {
        var j :| 0 <= j < |lists| && p == [xs[i]] + lists[j];
        PermutationsSound(Without(xs, i), lists[j]);
        RemoveAt(xs, i);
      } else {
        StartingSound(xs, i + 1, p);
      }
    }
  }

  lemma {:induction false} PermutationsComplete(xs: seq<nat>, p: seq<nat>)
    requires multiset(p) == multiset(xs)
    ensures p in Permutations(xs)
    decreases |xs|
  {
    Rearranged(p, xs);
    if xs != [] {
      var i := TakeFirst(p, xs);
      PermutationsComplete(Without(xs, i), p[1..]);
      FoundFrom(xs, 0, i, p);
    }
  }

  lemma {:induction false} FoundFrom(xs: seq<nat>, l: nat, i: nat, p: seq<nat>)
    requires l <= i < |xs| && p != [] && p[0] == xs[i] && p[1..] in Permutations(Without(xs, i))
    ensures p in StartingFrom(xs, l)
    decreases i - l
  {
    if l == i {
      var lists := Permutations(Without(xs, i));
      var j :| 0 <= j < |lists| && lists[j] == p[1..];
      assert Fronted(xs[i], lists)[j] == p;
    } else {
      FoundFrom(xs, l + 1, i, p);
    }
  }

  // ----- Relabellings form a group

  lemma {:induction false} DistinctSize(s: seq<nat>)
    requires forall a, b :: 0 <= a < b < |s| ==> s[a] != s[b]
    ensures |Elements(s)| == |s|
  {
    if s == [] {
      assert Elements(s) == {};
    } else {
      DistinctSize(s[1..]);
      assert Elements(s) == {s[0]} + Elements(s[1..]);
    }
  }

  lemma SameSizeSubset<T>(a: set<T>, b: set<T>)
    requires a <= b && |a| == |b|
    ensures a == b
  {
    assert |b - a| == 0;
    assert b == a + (b - a);
  }

  /** A relabelling reaches every letter. */
  lemma Onto(s: seq<nat>, m: nat, b: nat)
    requires Relabelling(s, m) && b < m
    ensures b in s
  {
    DistinctSize(s);
    BelowSize(m);
    assert Elements(s) <= Below(m);
    SameSizeSubset(Elements(s), Below(m));
    assert b in Elements(s);
  }

  function IndexIn(s: seq<nat>, b: nat): (a: nat)
    requires b in s
    ensures a < |s| && s[a] == b
  {
    if s[0] == b then 0 else 1 + IndexIn(s[1..], b)
  }

  /** The images under the new names, in the order of the new names. */
  function Relabelled(s: seq<nat>, h: Morphism): (g: Morphism)
    requires Relabelling(s, |h|) && Closed(h)
    ensures |g| == |h|
  {
    seq(|h|, b requires 0 <= b < |h| => (Onto(s, |h|, b); Rename(s, h[IndexIn(s, b)])))
  }

  lemma RelabelledRelabels(s: seq<nat>, h: Morphism)
    requires Relabelling(s, |h|) && Closed(h)
    ensures Relabels(s, h, Relabelled(s, h)) && Closed(Relabelled(s, h))
  {
    forall a | 0 <= a < |h| ensures Relabelled(s, h)[s[a]] == Rename(s, h[a]) {
      Onto(s, |h|, s[a]);
      assert IndexIn(s, s[a]) == a;
    }
    forall b | 0 <= b < |h| ensures Over(Relabelled(s, h)[b], |h|) {
      Onto(s, |h|, b);
    }
  }

  lemma RelabelsUnique(s: seq<nat>, h: Morphism, g: Morphism)
    requires Relabels(s, h, g)
    ensures g == Relabelled(s, h)
  {
    RelabelledRelabels(s, h);
    forall b | 0 <= b < |h| ensures g[b] == Relabelled(s, h)[b] {
      Onto(s, |h|, b);
      var a := IndexIn(s, b);
      assert g[s[a]] == Rename(s, h[a]) == Relabelled(s, h)[s[a]];
    }
  }

  function Compose(t: seq<nat>, s: seq<nat>, m: nat): (r: seq<nat>)
    requires Relabelling(s, m) && Relabelling(t, m)
    ensures Relabelling(r, m)
  {
    seq(m, a requires 0 <= a < m => t[s[a]])
  }

  function Inverted(s: seq<nat>, m: nat): (r: seq<nat>)
    requires Relabelling(s, m)
    ensures |r| == m && forall b :: 0 <= b < m ==> r[b] < m && s[r[b]] == b
  {
    seq(m, b requires 0 <= b < m => (Onto(s, m, b); IndexIn(s, b)))
  }

  lemma InvertedRelabels(s: seq<nat>, m: nat)
    requires Relabelling(s, m)
    ensures Relabelling(Inverted(s, m), m) && forall a :: 0 <= a < m ==> Inverted(s, m)[s[a]] == a
  {
    var r := Inverted(s, m);
    forall a | 0 <= a < m ensures r[s[a]] == a {
      assert s[r[s[a]]] == s[a];
    }
  }

  lemma ComposeRelabels(t: seq<nat>, s: seq<nat>, h: Morphism, g: Morphism, f: Morphism)
    requires Relabels(s, h, g) && Relabels(t, g, f)
    ensures Relabels(Compose(t, s, |h|), h, f)
  {
    var r := Compose(t, s, |h|);
    forall a | 0 <= a < |h| ensures f[r[a]] == Rename(r, h[a]) {
      assert f[t[s[a]]] == Rename(t, g[s[a]]);
      assert Rename(t, Rename(s, h[a])) == Rename(r, h[a]);
    }
  }

  lemma InvertRelabels(s: seq<nat>, h: Morphism, g: Morphism)
    requires Relabels(s, h, g)
    ensures Closed(g) && Relabels(Inverted(s, |h|), g, h)
  {
    var m := |h|;
    var r := Inverted(s, m);
    InvertedRelabels(s, m);
    RelabelsUnique(s, h, g);
    RelabelledRelabels(s, h);
    forall b | 0 <= b < m ensures h[r[b]] == Rename(r, g[b]) {
      assert g[s[r[b]]] == Rename(s, h[r[b]]);
      assert Rename(r, Rename(s, h[r[b]])) == h[r[b]];
    }
  }

  // ----- The canonical form

  ghost predicate Related(h: Morphism, g: Morphism) {
    exists s :: Relabels(s, h, g)
  }

  /** c is a relabelling of h, and none comes before it. */
  ghost predicate IsCanon(h: Morphism, c: Morphism) {
    Related(h, c) && forall g :: Related(h, g) ==> !KeyLess(g, c)
  }

  lemma RelatedComposes(h: Morphism, g: Morphism, f: Morphism)
    requires Related(h, g) && Related(g, f)
    ensures Related(h, f)
  {
    var s :| Relabels(s, h, g);
    var t :| Relabels(t, g, f);
    ComposeRelabels(t, s, h, g, f);
  }

  lemma RelatedInverts(h: Morphism, g: Morphism)
    requires Related(h, g)
    ensures Related(g, h)
  {
    var s :| Relabels(s, h, g);
    InvertRelabels(s, h, g);
  }

  /** Two morphisms have the same canonical form exactly if one relabels the other. */
  lemma CanonDecides(h: Morphism, g: Morphism, c: Morphism, d: Morphism)
    requires IsCanon(h, c) && IsCanon(g, d)
    ensures c == d <==> Related(h, g)
  {
    if c == d {
      RelatedInverts(g, d);
      RelatedComposes(h, c, g);
    }
    if Related(h, g) {
      RelatedInverts(h, g);
      RelatedComposes(h, g, d);
      RelatedComposes(g, h, c);
      KeysOrdered(c, d);
    }
  }

  function From1(m: nat): (r: seq<nat>)
    requires m >= 1
    ensures |r| == m - 1 && forall i :: 0 <= i < m - 1 ==> r[i] == i + 1
  {
    seq(m - 1, i => i + 1)
  }

  lemma {:induction false} UpToMultiset(m: nat, xs: seq<nat>)
    requires |xs| == m && forall i :: 0 <= i < m ==> xs[i] == i + 1
    ensures forall x: nat :: multiset(xs)[x] == if 1 <= x <= m then 1 else 0
  {
    if m > 0 {
      UpToMultiset(m - 1, xs[..m - 1]);
      assert xs == xs[..m - 1] + [m];
    } else {
      assert xs == [];
    }
  }

  lemma {:induction false} CountAtMostOne(s: seq<nat>, x: nat)
    requires forall a, b :: 0 <= a < b < |s| ==> s[a] != s[b]
    ensures multiset(s)[x] == if x in s then 1 else 0
  {
    if s != [] {
      CountAtMostOne(s[1..], x);
      assert s == [s[0]] + s[1..];
    }
  }

  /** The permutations of the letters but 0 are the relabellings. */
  lemma RelabellingsListed(s: seq<nat>, m: nat)
    requires m >= 1
    ensures Relabelling(s, m) <==> s != [] && s[0] == 0 && s[1..] in Permutations(From1(m))
  {
    var xs: seq<nat> := From1(m);
    UpToMultiset(m - 1, xs);
    if Relabelling(s, m) {
      forall x: nat ensures multiset(s[1..])[x] == multiset(xs)[x] {
        CountAtMostOne(s[1..], x);
        if 1 <= x < m {
          Onto(s, m, x);
        }
      }
      assert multiset(s[1..]) == multiset(xs);
      PermutationsComplete(xs, s[1..]);
    }
    if s != [] && s[0] == 0 && s[1..] in Permutations(xs) {
      PermutationsSound(xs, s[1..]);
      ArrangedRelabels(s, m, xs);
    }
  }

  lemma ArrangedRelabels(s: seq<nat>, m: nat, xs: seq<nat>)
    requires m >= 1 && s != [] && s[0] == 0 && multiset(s[1..]) == multiset(xs) && |xs| == m - 1
    requires forall x: nat :: multiset(xs)[x] == if 1 <= x <= m - 1 then 1 else 0
    ensures Relabelling(s, m)
  {
    assert |multiset(s[1..])| == m - 1;
    forall a | 1 <= a < m ensures 1 <= s[a] < m {
      assert s[a] == s[1..][a - 1];
      assert s[a] in multiset(s[1..]);
    }
    forall a, b | 0 <= a < b < m ensures s[a] != s[b] {
      if a > 0 && s[a] == s[b] {
        OccursTwice(s[1..], a - 1, b - 1);
      }
    }
  }

  ghost predicate LeastSoFar(h: Morphism, perms: seq<seq<nat>>, upto: nat, best: Morphism)
    requires upto <= |perms|
  {
    Related(h, best) && forall i, g :: 0 <= i < upto && Relabels([0] + perms[i], h, g) ==> !KeyLess(g, best)
  }

  lemma KeepLeast(h: Morphism, perms: seq<seq<nat>>, i: nat, best: Morphism, key: Morphism)
    requires i < |perms| && Relabels([0] + perms[i], h, key) && (i == 0 || LeastSoFar(h, perms, i, best))
    ensures LeastSoFar(h, perms, i + 1, if i == 0 || KeyLess(key, best) then key else best)
  {
    var next := if i == 0 || KeyLess(key, best) then key else best;
    forall j, g | 0 <= j < i + 1 && Relabels([0] + perms[j], h, g) ensures !KeyLess(g, next) {
      if j == i {
        RelabelsUnique([0] + perms[i], h, g);
        RelabelsUnique([0] + perms[i], h, key);
        KeysOrdered(key, best);
      } else {
        KeysTransitive(g, key, best);
      }
    }
  }

  lemma ListedIsRelabelling(perms: seq<seq<nat>>, i: nat, m: nat)
    requires m >= 1 && perms == Permutations(From1(m)) && i < |perms|
    ensures Relabelling([0] + perms[i], m)
  {
    assert ([0] + perms[i])[1..] == perms[i];
    RelabellingsListed([0] + perms[i], m);
  }

  lemma LeastIsCanon(h: Morphism, perms: seq<seq<nat>>, best: Morphism)
    requires |h| >= 1 && perms == Permutations(From1(|h|)) && LeastSoFar(h, perms, |perms|, best)
    ensures IsCanon(h, best)
  {
    forall g | Related(h, g) ensures !KeyLess(g, best) {
      var s :| Relabels(s, h, g);
      RelabellingsListed(s, |h|);
      var i :| 0 <= i < |perms| && perms[i] == s[1..];
      assert s == [0] + perms[i];
    }
  }

  /** The least relabelling, by trying them all. */
  method Canonical(h: Morphism) returns (best: Morphism)
    requires Closed(h) && |h| >= 1
    ensures IsCanon(h, best)
  {
    var perms := Permutations(From1(|h|));
    best := h;
    ghost var identity := seq(|h|, a => a);
    assert Relabelling(identity, |h|);
    RelabellingsListed(identity, |h|);
    for i := 0 to |perms|
      invariant i > 0 ==> LeastSoFar(h, perms, i, best)
    {
      ListedIsRelabelling(perms, i, |h|);
      var key := Relabelled([0] + perms[i], h);
      RelabelledRelabels([0] + perms[i], h);
      KeepLeast(h, perms, i, best, key);
      if i == 0 || KeyLess(key, best) {
        best := key;
      }
    }
    LeastIsCanon(h, perms, best);
  }

  // ----- One morphism for each class

  ghost predicate HasRelative(chosen: seq<Morphism>, h: Morphism) {
    exists j: nat :: j < |chosen| && Related(chosen[j], h)
  }

  /** The chosen morphisms represent the classes of the candidates, each once. */
  ghost predicate Represents(candidates: seq<Morphism>, chosen: seq<Morphism>) {
    && (forall h :: h in chosen ==> h in candidates)
    && (forall i, j :: 0 <= i < j < |chosen| ==> !Related(chosen[i], chosen[j]))
    && (forall i :: 0 <= i < |candidates| ==> HasRelative(chosen, candidates[i]))
  }

  ghost predicate KeysOf(chosen: seq<Morphism>, keys: seq<Morphism>) {
    |keys| == |chosen| && forall j :: 0 <= j < |chosen| ==> IsCanon(chosen[j], keys[j])
  }

  lemma KnownKey(chosen: seq<Morphism>, keys: seq<Morphism>, h: Morphism, key: Morphism)
    requires KeysOf(chosen, keys) && IsCanon(h, key)
    ensures key in keys <==> HasRelative(chosen, h)
  {
    if key in keys {
      var j :| 0 <= j < |keys| && keys[j] == key;
      CanonDecides(chosen[j], h, keys[j], key);
    }
    if HasRelative(chosen, h) {
      var j: nat :| j < |chosen| && Related(chosen[j], h);
      CanonDecides(chosen[j], h, keys[j], key);
    }
  }

  lemma ExtendCandidates(candidates: seq<Morphism>, chosen: seq<Morphism>, h: Morphism)
    requires Represents(candidates, chosen) && Closed(h) && |h| >= 1
    ensures HasRelative(chosen, h) ==> Represents(candidates + [h], chosen)
    ensures !HasRelative(chosen, h) ==> Represents(candidates + [h], chosen + [h])
  {
    var all, more := candidates + [h], chosen + [h];
    RelatedToSelf(h);
    if !HasRelative(chosen, h) {
      forall i | 0 <= i < |all| ensures HasRelative(more, all[i]) {
        if i < |candidates| {
          assert HasRelative(chosen, candidates[i]);
          var j: nat :| j < |chosen| && Related(chosen[j], candidates[i]);
          assert more[j] == chosen[j];
        } else {
          assert more[|chosen|] == h;
        }
      }
    }
  }

  lemma RelatedToSelf(h: Morphism)
    requires Closed(h) && |h| >= 1
    ensures Related(h, h)
  {
    var identity := seq(|h|, a => a);
    forall a | 0 <= a < |h| ensures h[identity[a]] == Rename(identity, h[a]) {
    }
    assert Relabels(identity, h, h);
  }

  lemma RepresentStep(candidates: seq<Morphism>, chosen: seq<Morphism>, keys: seq<Morphism>, h: Morphism, key: Morphism)
    requires KeysOf(chosen, keys) && Represents(candidates, chosen) && IsCanon(h, key) && Closed(h) && |h| >= 1
    ensures key in keys ==> Represents(candidates + [h], chosen)
    ensures key !in keys ==> Represents(candidates + [h], chosen + [h]) && KeysOf(chosen + [h], keys + [key])
  {
    KnownKey(chosen, keys, h, key);
    ExtendCandidates(candidates, chosen, h);
  }

  /** The morphisms of the list that relabel none before them. */
  ghost function Firsts(candidates: seq<Morphism>): seq<Morphism> {
    if candidates == [] then []
    else
      var front, last := candidates[..|candidates| - 1], candidates[|candidates| - 1];
      Firsts(front) + if HasRelative(front, last) then [] else [last]
  }

  lemma SameRelatives(candidates: seq<Morphism>, chosen: seq<Morphism>, h: Morphism)
    requires Represents(candidates, chosen)
    ensures HasRelative(chosen, h) <==> HasRelative(candidates, h)
  {
    if HasRelative(chosen, h) {
      var j: nat :| j < |chosen| && Related(chosen[j], h);
      assert chosen[j] in chosen;
      var i :| 0 <= i < |candidates| && candidates[i] == chosen[j];
    }
    if HasRelative(candidates, h) {
      var i: nat :| i < |candidates| && Related(candidates[i], h);
      assert HasRelative(chosen, candidates[i]);
      var j: nat :| j < |chosen| && Related(chosen[j], candidates[i]);
      RelatedComposes(chosen[j], candidates[i], h);
    }
  }

  lemma FirstsNext(candidates: seq<Morphism>, h: Morphism)
    ensures Firsts(candidates + [h]) == Firsts(candidates) + if HasRelative(candidates, h) then [] else [h]
  {
    var all := candidates + [h];
    assert all[..|all| - 1] == candidates && all[|all| - 1] == h;
  }

  lemma RepresentFirsts(candidates: seq<Morphism>, chosen: seq<Morphism>, keys: seq<Morphism>, h: Morphism,
                        key: Morphism)
    requires KeysOf(chosen, keys) && Represents(candidates, chosen) && IsCanon(h, key) && chosen == Firsts(candidates)
    ensures Firsts(candidates + [h]) == if key in keys then chosen else chosen + [h]
  {
    KnownKey(chosen, keys, h, key);
    SameRelatives(candidates, chosen, h);
    FirstsNext(candidates, h);
  }

  /** Going through the candidates and keeping those whose canonical form is new leaves exactly the first
      morphism of each class. */
  method Representatives(candidates: seq<Morphism>) returns (chosen: seq<Morphism>)
    requires forall h :: h in candidates ==> Closed(h) && |h| >= 1
    ensures Represents(candidates, chosen) && chosen == Firsts(candidates)
  {
    chosen := [];
    var keys: seq<Morphism> := [];
    ghost var done: seq<Morphism> := [];
    for i := 0 to |candidates|
      invariant KeysOf(chosen, keys) && Represents(done, chosen) && done == candidates[..i]
      invariant chosen == Firsts(done)
    {
      var h := candidates[i];
      assert h in candidates;
      var key := Canonical(h);
      RepresentStep(done, chosen, keys, h, key);
      RepresentFirsts(done, chosen, keys, h, key);
      TakeNext(candidates, i);
      done := done + [h];
      if key !in keys {
        keys, chosen := keys + [key], chosen + [h];
      }
    }
    assert candidates[..|candidates|] == candidates;
  }

  lemma {:induction false} FirstsMembers(candidates: seq<Morphism>, h: Morphism)
    ensures h in Firsts(candidates) <==> exists i :: FirstOfClass(candidates, i, h)
    decreases |candidates|
  {
    if candidates != [] {
      var front, last := candidates[..|candidates| - 1], candidates[|candidates| - 1];
      FirstsMembers(front, h);
      forall i | 0 <= i < |front| ensures FirstOfClass(candidates, i, h) <==> FirstOfClass(front, i, h) {
        assert candidates[..i] == front[..i];
      }
      assert candidates[..|front|] == front;
      assert FirstOfClass(candidates, |front|, h) <==> last == h && !HasRelative(front, h);
    }
  }

  ghost predicate FirstOfClass(candidates: seq<Morphism>, i: int, h: Morphism) {
    0 <= i < |candidates| && candidates[i] == h && !HasRelative(candidates[..i], h)
  }

  // ----- In lexicographic order the first of a class is its canonical form

  ghost predicate Sorted<T(!new)>(less: (T, T) -> bool, s: seq<T>) {
    forall i, j :: 0 <= i < j < |s| ==> less(s[i], s[j])
  }

  ghost predicate KeysSorted(s: seq<Morphism>) {
    forall i, j :: 0 <= i < j < |s| ==> KeyLess(s[i], s[j])
  }

  ghost predicate WholeClasses(s: seq<Morphism>) {
    forall h, g :: h in s && Related(h, g) ==> g in s
  }

  lemma FirstIsLeast(candidates: seq<Morphism>, i: nat)
    requires KeysSorted(candidates) && WholeClasses(candidates) && i < |candidates|
    requires Closed(candidates[i]) && |candidates[i]| >= 1
    ensures FirstOfClass(candidates, i, candidates[i]) <==> IsCanon(candidates[i], candidates[i])
  {
    var h := candidates[i];
    RelatedToSelf(h);
    if FirstOfClass(candidates, i, h) {
      forall g | Related(h, g) ensures !KeyLess(g, h) {
        assert h in candidates && g in candidates;
        var j :| 0 <= j < |candidates| && candidates[j] == g;
        RelatedInverts(h, g);
        NotEarlier(candidates, i, j);
      }
    }
    if IsCanon(h, h) {
      forall j: nat | j < i ensures !Related(candidates[..i][j], h) {
        assert KeyLess(candidates[j], h);
        if Related(candidates[j], h) {
          RelatedInverts(candidates[j], h);
        }
      }
    }
  }

  lemma EarlierIsRelative(candidates: seq<Morphism>, i: nat, j: nat, h: Morphism)
    requires i < |candidates| && j < |candidates|
    ensures j < i && Related(candidates[j], h) ==> HasRelative(candidates[..i], h)
  {
    if j < i {
      assert candidates[..i][j] == candidates[j];
    }
  }

  lemma NotEarlier(candidates: seq<Morphism>, i: nat, j: nat)
    requires KeysSorted(candidates) && i < |candidates| && j < |candidates|
    requires Related(candidates[j], candidates[i]) && !HasRelative(candidates[..i], candidates[i])
    ensures !KeyLess(candidates[j], candidates[i])
  {
    EarlierIsRelative(candidates, i, j, candidates[i]);
    KeysTransitive(candidates[i], candidates[j], candidates[i]);
  }

  lemma {:induction false} FirstsSorted(candidates: seq<Morphism>)
    requires KeysSorted(candidates)
    ensures KeysSorted(Firsts(candidates)) && forall h :: h in Firsts(candidates) ==> h in candidates
  {
    if candidates != [] {
      var front, last := candidates[..|candidates| - 1], candidates[|candidates| - 1];
      FirstsSorted(front);
      forall h | h in Firsts(front) ensures KeyLess(h, last) {
        assert h in front;
        var j :| 0 <= j < |front| && front[j] == h;
        assert front[j] == candidates[j];
      }
    }
  }

  // ----- The candidates

  function Letters(m: nat): (r: seq<nat>)
    ensures |r| == m && forall i :: 0 <= i < m ==> r[i] == i
  {
    seq(m, i => i)
  }

  /** Every item in front of every list, items first. */
  function Product<T>(items: seq<T>, lists: seq<seq<T>>): seq<seq<T>> {
    if items == [] then [] else Fronted(items[0], lists) + Product(items[1..], lists)
  }

  /** All tuples of n items. */
  function Tuples<T>(items: seq<T>, n: nat): seq<seq<T>> {
    if n == 0 then [[]] else Product(items, Tuples(items, n - 1))
  }

  lemma {:induction false} ProductMembers<T>(items: seq<T>, lists: seq<seq<T>>, t: seq<T>)
    ensures t in Product(items, lists) <==> t != [] && t[0] in items && t[1..] in lists
  {
    if items != [] {
      ProductMembers(items[1..], lists, t);
      FrontedMembers(items[0], lists, t);
    }
  }

  lemma FrontedMembers<T>(x: T, lists: seq<seq<T>>, t: seq<T>)
    ensures t in Fronted(x, lists) <==> t != [] && t[0] == x && t[1..] in lists
  {
    if t != [] && t[0] == x && t[1..] in lists {
      var i :| 0 <= i < |lists| && lists[i] == t[1..];
      assert Fronted(x, lists)[i] == t;
    }
    if t in Fronted(x, lists) {
      var i :| 0 <= i < |lists| && t == [x] + lists[i];
      assert t[1..] == lists[i];
    }
  }

  lemma {:induction false} TuplesMembers<T>(items: seq<T>, n: nat, t: seq<T>)
    ensures t in Tuples(items, n) <==> |t| == n && forall i :: 0 <= i < |t| ==> t[i] in items
  {
    if n > 0 {
      ProductMembers(items, Tuples(items, n - 1), t);
      if t != [] {
        TuplesMembers(items, n - 1, t[1..]);
        assert forall i :: 0 < i < |t| ==> t[i] == t[1..][i - 1];
      }
    }
  }

  function StartingAtZero(words: seq<Word>): seq<Word> {
    if words == [] then []
    else (if words[0] != [] && words[0][0] == 0 then [words[0]] else []) + StartingAtZero(words[1..])
  }

  lemma {:induction false} StartingMembers(words: seq<Word>, w: Word)
    ensures w in StartingAtZero(words) <==> w in words && w != [] && w[0] == 0
  {
    if words != [] {
      StartingMembers(words[1..], w);
    }
  }

  /** The images of 0 that start with 0, each with all images of the other letters. */
  function Candidates(k: nat, m: nat): seq<Morphism>
    requires m >= 1
  {
    var words := Tuples(Letters(m), k);
    Product(StartingAtZero(words), Tuples(words, m - 1))
  }

  lemma WordsListed(k: nat, m: nat, w: Word)
    ensures w in Tuples(Letters(m), k) <==> |w| == k && Over(w, m)
  {
    TuplesMembers(Letters(m), k, w);
    forall x: nat ensures x in Letters(m) <==> x < m {
      if x < m {
        assert Letters(m)[x] == x;
      }
    }
  }

  /** A uniform morphism whose fixed point starts with 0. */
  predicate Candidate(h: Morphism, k: nat, m: nat) {
    |h| == m && Uniform(h, k) && h != [] && h[0] != [] && h[0][0] == 0
  }

  lemma WordsUniform(k: nat, m: nat, h: Morphism)
    requires |h| == m
    ensures (forall i :: 0 <= i < |h| ==> h[i] in Tuples(Letters(m), k)) <==> Uniform(h, k)
  {
    forall i | 0 <= i < |h| ensures h[i] in Tuples(Letters(m), k) <==> |h[i]| == k && Over(h[i], m) {
      WordsListed(k, m, h[i]);
    }
  }

  lemma HeadAndRest(k: nat, m: nat, h: Morphism)
    requires m >= 1
    ensures h in Candidates(k, m) <==>
      |h| == m && (forall i :: 0 <= i < |h| ==> h[i] in Tuples(Letters(m), k)) && h[0] != [] && h[0][0] == 0
  {
    var words := Tuples(Letters(m), k);
    ProductMembers(StartingAtZero(words), Tuples(words, m - 1), h);
    if h != [] {
      StartingMembers(words, h[0]);
      TuplesMembers(words, m - 1, h[1..]);
      assert forall i :: 0 < i < |h| ==> h[i] == h[1..][i - 1];
    }
  }

  /** The candidates are just those. */
  lemma CandidatesListed(k: nat, m: nat, h: Morphism)
    requires m >= 1
    ensures h in Candidates(k, m) <==> Candidate(h, k, m)
  {
    HeadAndRest(k, m, h);
    if |h| == m {
      WordsUniform(k, m, h);
    }
  }

  // ----- The candidates come in lexicographic order

  lemma {:induction false} ProductSorted<T(!new)>(less: (T, T) -> bool, items: seq<T>, lists: seq<seq<T>>)
    requires Orders(less) && Sorted(less, items) && ListsSorted(less, lists)
    ensures ListsSorted(less, Product(items, lists))
  {
    if items != [] {
      var x, rest := items[0], items[1..];
      ProductSorted(less, rest, lists);
      FrontedSorted(less, x, lists);
      var a, b := Fronted(x, lists), Product(rest, lists);
      forall i, j | 0 <= i < |a| && 0 <= j < |b| ensures LexLess(less, a[i], b[j]) {
        ProductMembers(rest, lists, b[j]);
        assert b[j] in b && b[j][0] in rest;
        assert OrderAt(less, x, b[j][0], x);
      }
      ConcatSorted(less, a, b);
    }
  }

  ghost predicate ListsSorted<T(!new)>(less: (T, T) -> bool, lists: seq<seq<T>>) {
    forall i, j :: 0 <= i < j < |lists| ==> LexLess(less, lists[i], lists[j])
  }

  lemma FrontedSorted<T(!new)>(less: (T, T) -> bool, x: T, lists: seq<seq<T>>)
    requires ListsSorted(less, lists)
    ensures ListsSorted(less, Fronted(x, lists))
  {
    var r := Fronted(x, lists);
    forall i, j | 0 <= i < j < |r| ensures LexLess(less, r[i], r[j]) {
      assert r[i][1..] == lists[i] && r[j][1..] == lists[j];
    }
  }

  lemma ConcatSorted<T(!new)>(less: (T, T) -> bool, a: seq<seq<T>>, b: seq<seq<T>>)
    requires ListsSorted(less, a) && ListsSorted(less, b)
    requires forall i, j :: 0 <= i < |a| && 0 <= j < |b| ==> LexLess(less, a[i], b[j])
    ensures ListsSorted(less, a + b)
  {
  }

  lemma {:induction false} TuplesSorted<T(!new)>(less: (T, T) -> bool, items: seq<T>, n: nat)
    requires Orders(less) && Sorted(less, items)
    ensures ListsSorted(less, Tuples(items, n))
  {
    if n > 0 {
      TuplesSorted(less, items, n - 1);
      ProductSorted(less, items, Tuples(items, n - 1));
    }
  }

  lemma {:induction false} StartingSorted(words: seq<Word>)
    requires Sorted(WordLess(), words)
    ensures Sorted(WordLess(), StartingAtZero(words))
  {
    if words != [] {
      StartingSorted(words[1..]);
      forall w | w in StartingAtZero(words[1..]) ensures WordLess()(words[0], w) {
        StartingMembers(words[1..], w);
      }
      var rest := StartingAtZero(words[1..]);
      assert forall j :: 0 <= j < |rest| ==> rest[j] in rest;
    }
  }

  lemma WordsOrdered()
    ensures Orders(NatLess()) && Orders(WordLess())
  {
    forall x, y, z ensures OrderAt(NatLess(), x, y, z) {
    }
    forall u, v, w ensures OrderAt(WordLess(), u, v, w) {
      LexAt(NatLess(), u, v, w);
    }
  }

  lemma CandidatesSorted(k: nat, m: nat)
    requires m >= 1
    ensures KeysSorted(Candidates(k, m))
  {
    WordsOrdered();
    var words := Tuples(Letters(m), k);
    TuplesSorted(NatLess(), Letters(m), k);
    forall i, j | 0 <= i < j < |words| ensures WordLess()(words[i], words[j]) {
      assert LexLess(NatLess(), words[i], words[j]);
    }
    StartingSorted(words);
    TuplesSorted(WordLess(), words, m - 1);
    ProductSorted(WordLess(), StartingAtZero(words), Tuples(words, m - 1));
    var all := Candidates(k, m);
    forall i, j | 0 <= i < j < |all| ensures KeyLess(all[i], all[j]) {
      assert LexLess(WordLess(), all[i], all[j]);
    }
  }

  lemma RelativesAreCandidates(k: nat, m: nat, h: Morphism, g: Morphism)
    requires Candidate(h, k, m) && Related(h, g)
    ensures Candidate(g, k, m)
  {
    var s :| Relabels(s, h, g);
    InvertRelabels(s, h, g);
    forall b | 0 <= b < |g| ensures |g[b]| == k {
      Onto(s, m, b);
      var a := IndexIn(s, b);
      assert g[s[a]] == Rename(s, h[a]);
    }
    assert g[s[0]] == Rename(s, h[0]);
  }

  /** What is chosen are the candidates that are their own canonical form, in lexicographic order. */
  lemma ChosenAreCanonical(k: nat, m: nat, h: Morphism)
    requires m >= 1
    ensures h in Firsts(Candidates(k, m)) <==> Candidate(h, k, m) && IsCanon(h, h)
    ensures KeysSorted(Firsts(Candidates(k, m)))
  {
    var all := Candidates(k, m);
    CandidatesSorted(k, m);
    FirstsSorted(all);
    FirstsMembers(all, h);
    CandidatesListed(k, m, h);
    forall f, g | f in all && Related(f, g) ensures g in all {
      CandidatesListed(k, m, f);
      RelativesAreCandidates(k, m, f, g);
      CandidatesListed(k, m, g);
    }
    forall i | 0 <= i < |all| ensures FirstOfClass(all, i, all[i]) <==> IsCanon(all[i], all[i]) {
      assert all[i] in all;
      CandidatesListed(k, m, all[i]);
      FirstIsLeast(all, i);
    }
  }

  /** One uniform morphism for each class under relabelling: the one that is its own canonical form. */
  method UniformMorphisms(k: nat, m: nat) returns (chosen: seq<Morphism>)
    requires m >= 1
    ensures Represents(Candidates(k, m), chosen)
    ensures forall h :: h in chosen <==> Candidate(h, k, m) && IsCanon(h, h)
    ensures KeysSorted(chosen)
    ensures forall h :: Candidate(h, k, m) ==> HasRelative(chosen, h)
  {
    var candidates := Candidates(k, m);
    forall h ensures h in candidates <==> Candidate(h, k, m) {
      CandidatesListed(k, m, h);
    }
    chosen := Representatives(candidates);
    forall h ensures h in chosen <==> Candidate(h, k, m) && IsCanon(h, h) {
      ChosenAreCanonical(k, m, h);
    }
    ChosenAreCanonical(k, m, []);
    forall h | Candidate(h, k, m) ensures HasRelative(chosen, h) {
      var i :| 0 <= i < |candidates| && candidates[i] == h;
    }
  }
}
