/** Words grown by substitution: the prefixes are those of one infinite word, which relabelling the
    letters relabels. */
module Morphisms {
  import opened Arith

  type Word = seq<nat>

  /** The image of each letter. */
  type Morphism = seq<Word>

  predicate Closed(h: Morphism) {
    forall a :: 0 <= a < |h| ==> Over(h[a], |h|)
  }

  predicate Over(w: Word, m: nat) {
    forall i :: 0 <= i < |w| ==> w[i] < m
  }

  /** The images of the letters of w, one after the other. */
  function Substitute(h: Morphism, w: Word): Word
    requires Over(w, |h|)
  {
    if w == [] then [] else h[w[0]] + Substitute(h, w[1..])
  }

  lemma {:induction false} SubstituteClosed(h: Morphism, w: Word)
    requires Closed(h) && Over(w, |h|)
    ensures Over(Substitute(h, w), |h|)
  {
    if w != [] {
      SubstituteClosed(h, w[1..]);
    }
  }

  lemma {:induction false} SubstituteConcat(h: Morphism, u: Word, w: Word)
    requires Over(u, |h|) && Over(w, |h|) && Over(u + w, |h|)
    ensures Substitute(h, u + w) == Substitute(h, u) + Substitute(h, w)
  {
    if u == [] {
      assert u + w == w;
    } else {
      assert (u + w)[0] == u[0] && (u + w)[1..] == u[1..] + w;
      SubstituteConcat(h, u[1..], w);
    }
  }

  /** The start letter begins its own image. */
  predicate Prolongable(h: Morphism, start: nat) {
    Closed(h) && start < |h| && h[start] != [] && h[start][0] == start
  }

  /** The start letter substituted j times. */
  function Iterate(h: Morphism, start: nat, j: nat): (w: Word)
    requires Closed(h) && start < |h|
    ensures Over(w, |h|)
  {
    if j == 0 then [start]
    else
      SubstituteClosed(h, Iterate(h, start, j - 1));
      Substitute(h, Iterate(h, start, j - 1))
  }

  lemma PrefixSubstitutes(h: Morphism, u: Word, w: Word)
    requires Over(w, |h|) && u <= w
    ensures Over(u, |h|) && Substitute(h, u) <= Substitute(h, w)
  {
    assert w == u + w[|u|..];
    assert u == w[..|u|];
    SubstituteConcat(h, u, w[|u|..]);
  }

  lemma SubstituteOne(h: Morphism, a: nat)
    requires a < |h|
    ensures Over([a], |h|) && Substitute(h, [a]) == h[a]
  {
    assert [a][0] == a && [a][1..] == [];
    assert Substitute(h, []) == [];
    assert h[a] + [] == h[a];
  }

  /** Each round extends the one before. */
  lemma {:induction false} IteratesExtend(h: Morphism, start: nat, j: nat)
    requires Prolongable(h, start)
    ensures Iterate(h, start, j) <= Iterate(h, start, j + 1)
  {
    if j == 0 {
      SubstituteOne(h, start);
    } else {
      IteratesExtend(h, start, j - 1);
      PrefixSubstitutes(h, Iterate(h, start, j - 1), Iterate(h, start, j));
    }
  }

  lemma {:induction false} LaterIterates(h: Morphism, start: nat, j: nat, l: nat)
    requires Prolongable(h, start) && j <= l
    ensures Iterate(h, start, j) <= Iterate(h, start, l)
    decreases l
  {
    if j < l {
      LaterIterates(h, start, j, l - 1);
      IteratesExtend(h, start, l - 1);
    }
  }

  /** r is the start of all later rounds, n letters of it or the whole word if that is shorter. */
  ghost predicate PrefixOfLimit(h: Morphism, start: nat, n: nat, r: Word)
    requires Prolongable(h, start)
  {
    exists j :: Reaches(h, start, n, r, j) && StartsLater(h, start, r, j)
  }

  ghost predicate Reaches(h: Morphism, start: nat, n: nat, r: Word, j: nat)
    requires Prolongable(h, start)
  {
    var w := Iterate(h, start, j);
    if n <= |w| then r == w[..n] else r == w && Iterate(h, start, j + 1) == w
  }

  ghost predicate StartsLater(h: Morphism, start: nat, r: Word, j: nat)
    requires Prolongable(h, start)
  {
    forall l: nat :: l >= j ==> r <= Iterate(h, start, l)
  }

  /** The round at which the loop stops: long enough, or as long as the next. */
  ghost predicate StopsAt(h: Morphism, start: nat, n: nat, j: nat)
    requires Closed(h) && start < |h|
  {
    StopsIn(h, start, n, j) && forall i: nat :: i < j ==> !StopsIn(h, start, n, i)
  }

  ghost predicate StopsIn(h: Morphism, start: nat, n: nat, j: nat)
    requires Closed(h) && start < |h|
  {
    |Iterate(h, start, j)| >= n || |Iterate(h, start, j + 1)| == |Iterate(h, start, j)|
  }

  ghost predicate FirstStop(h: Morphism, start: nat, n: nat, r: Word)
    requires Closed(h) && start < |h|
  {
    exists j :: StopsAt(h, start, n, j) && r == Start(Iterate(h, start, j), n)
  }

  function Start(w: Word, n: nat): Word {
    if n <= |w| then w[..n] else w
  }

  predicate NonErasing(h: Morphism) {
    forall a :: 0 <= a < |h| ==> h[a] != []
  }

  lemma {:induction false} SubstituteNoShorter(h: Morphism, w: Word)
    requires Over(w, |h|) && NonErasing(h)
    ensures |Substitute(h, w)| >= |w|
  {
    if w != [] {
      SubstituteNoShorter(h, w[1..]);
    }
  }

  lemma NoShorter(h: Morphism, start: nat, j: nat)
    requires Closed(h) && start < |h| && (Prolongable(h, start) || NonErasing(h))
    ensures |Iterate(h, start, j + 1)| >= |Iterate(h, start, j)|
  {
    if Prolongable(h, start) {
      IteratesExtend(h, start, j);
    } else {
      SubstituteNoShorter(h, Iterate(h, start, j));
    }
  }

  /** The substitution of one round, image by image. */
  method OneRound(h: Morphism, w: Word) returns (next: Word)
    requires Over(w, |h|)
    ensures next == Substitute(h, w)
  {
    next := [];
    for i := 0 to |w|
      invariant next + Substitute(h, w[i..]) == Substitute(h, w)
    {
      next := next + h[w[i]];
    }
  }

  lemma StoppedPrefix(h: Morphism, start: nat, n: nat, j: nat)
    requires Prolongable(h, start) && StopsIn(h, start, n, j)
    ensures PrefixOfLimit(h, start, n, Start(Iterate(h, start, j), n))
  {
    var w := Iterate(h, start, j);
    IteratesExtend(h, start, j);
    forall l: nat | l >= j ensures Start(w, n) <= Iterate(h, start, l) {
      LaterIterates(h, start, j, l);
    }
    assert Reaches(h, start, n, Start(w, n), j) && StartsLater(h, start, Start(w, n), j);
  }

  /** The first n letters of the word that substitution grows from the start letter. */
  method Morphic(n: nat, h: Morphism, start: nat) returns (r: Word)
    requires Closed(h) && start < |h| && (Prolongable(h, start) || NonErasing(h))
    ensures FirstStop(h, start, n, r)
    ensures Prolongable(h, start) ==> PrefixOfLimit(h, start, n, r)
  {
    var w := [start];
    var growing := true;
    ghost var j := 0;
    while |w| < n && growing
      invariant w == Iterate(h, start, j)
      invariant !growing ==> StopsIn(h, start, n, j)
      invariant forall i: nat :: i < j ==> !StopsIn(h, start, n, i)
      decreases growing, n - |w|
    {
      var next := OneRound(h, w);
      NoShorter(h, start, j);
      if |next| == |w| {
        growing := false;
      } else {
        w := next;
        j := j + 1;
      }
    }
    r := Start(w, n);
    assert StopsAt(h, start, n, j);
    if Prolongable(h, start) {
      StoppedPrefix(h, start, n, j);
    }
  }

  /** A morphism that erases a letter, and whose start letter does not begin its own image. */
  predicate Swings(h: Morphism) {
    |h| == 3 && h[0] == [1, 2] && h[1] == [0] && h[2] == []
  }

  lemma SwingsBack(h: Morphism)
    requires Swings(h)
    ensures Closed(h) && Substitute(h, [0]) == [1, 2] && Substitute(h, [1, 2]) == [0]
  {
    SubstituteOne(h, 0);
    SubstituteOne(h, 2);
    assert [1, 2][1..] == [2];
  }

  lemma NextRound(h: Morphism, j: nat, w: Word, next: Word)
    requires Closed(h) && |h| == 3 && Over(w, 3) && Iterate(h, 0, j) == w && Substitute(h, w) == next
    ensures Iterate(h, 0, j + 1) == next
  {
  }

  lemma {:induction false} SwingingRounds(h: Morphism, j: nat)
    requires Swings(h)
    ensures Closed(h) && Iterate(h, 0, 2 * j) == [0] && Iterate(h, 0, 2 * j + 1) == [1, 2]
  {
    SwingsBack(h);
    if j > 0 {
      SwingingRounds(h, j - 1);
      NextRound(h, 2 * j - 1, [1, 2], [0]);
    }
    NextRound(h, 2 * j, [0], [1, 2]);
  }

  /** Its rounds are [0] and [1, 2] in turn, so that for n > 2 the loop would not end. */
  lemma ErasingMaySwing(h: Morphism, n: nat, j: nat)
    requires Swings(h) && n > 2
    ensures Closed(h) && !StopsIn(h, 0, n, j)
  {
    SwingingRounds(h, j / 2);
    SwingingRounds(h, j / 2 + 1);
    assert j == 2 * (j / 2) || j == 2 * (j / 2) + 1;
  }

  // ----- Uniform morphisms

  predicate Uniform(h: Morphism, k: nat) {
    Closed(h) && forall a :: 0 <= a < |h| ==> |h[a]| == k
  }

  predicate FromZero(h: Morphism, k: nat) {
    Uniform(h, k) && k >= 2 && |h| > 0 && h[0][0] == 0
  }

  /** The letter at position i of the fixed point. */
  function LetterAt(h: Morphism, k: nat, i: nat): (a: nat)
    requires FromZero(h, k)
    ensures a < |h|
    decreases i
  {
    if i == 0 then 0 else h[LetterAt(h, k, i / k)][i % k]
  }

  lemma {:induction false} SubstituteLength(h: Morphism, k: nat, w: Word)
    requires Uniform(h, k) && Over(w, |h|)
    ensures |Substitute(h, w)| == k * |w|
  {
    if w != [] {
      SubstituteLength(h, k, w[1..]);
      Distribute(k, |w[1..]|, 1);
    }
  }

  lemma {:induction false} SubstituteAt(h: Morphism, k: nat, w: Word, q: nat, o: nat, r: nat)
    requires Uniform(h, k) && Over(w, |h|) && q < |w| && r < k && o == k * q
    ensures o + r < |Substitute(h, w)| && Substitute(h, w)[o + r] == h[w[q]][r]
    decreases q
  {
    if q > 0 {
      Distribute(k, q - 1, 1);
      SubstituteAt(h, k, w[1..], q - 1, o - k, r);
    }
  }

  ghost predicate Spells(h: Morphism, k: nat, w: Word)
    requires FromZero(h, k)
  {
    forall i :: 0 <= i < |w| ==> w[i] == LetterAt(h, k, i)
  }

  lemma LetterUnfolds(h: Morphism, k: nat, i: nat)
    requires FromZero(h, k)
    ensures LetterAt(h, k, i) == h[LetterAt(h, k, i / k)][i % k]
  {
    if i == 0 {
      assert i / k == 0 && i % k == 0;
    }
  }

  lemma SplitIndex(i: nat, k: nat, length: nat) returns (q: nat, r: nat)
    requires k > 0 && i < k * length
    ensures q == i / k && r == i % k < k && i == k * q + r && q < length
  {
    q, r := i / k, i % k;
    CancelLt(k, q, length);
  }

  lemma SubstituteSpellsAt(h: Morphism, k: nat, w: Word, i: nat)
    requires FromZero(h, k) && Over(w, |h|) && Spells(h, k, w) && i < k * |w|
    ensures i < |Substitute(h, w)| && Substitute(h, w)[i] == LetterAt(h, k, i)
  {
    var q, r := SplitIndex(i, k, |w|);
    SubstituteAt(h, k, w, q, k * q, r);
    LetterUnfolds(h, k, i);
    assert w[q] == LetterAt(h, k, q);
  }

  lemma SubstituteSpells(h: Morphism, k: nat, w: Word)
    requires FromZero(h, k) && Over(w, |h|) && Spells(h, k, w)
    ensures Spells(h, k, Substitute(h, w)) && |Substitute(h, w)| == k * |w|
  {
    SubstituteLength(h, k, w);
    forall i | 0 <= i < |Substitute(h, w)| ensures Substitute(h, w)[i] == LetterAt(h, k, i) {
      SubstituteSpellsAt(h, k, w, i);
    }
  }

  lemma {:induction false} IterateSpells(h: Morphism, k: nat, j: nat)
    requires FromZero(h, k)
    ensures Spells(h, k, Iterate(h, 0, j)) && |Iterate(h, 0, j)| > j
  {
    if j > 0 {
      IterateSpells(h, k, j - 1);
      SubstituteSpells(h, k, Iterate(h, 0, j - 1));
      Grows(|Iterate(h, 0, j - 1)|, k, j);
    }
  }

  lemma Grows(length: nat, k: nat, j: nat)
    requires length >= j >= 1 && k >= 2
    ensures k * length > j && k * length > length
  {
    ProductNonNegative(k - 2, length);
    assert k * length == (k - 2) * length + 2 * length;
  }

  lemma RoundsGrow(h: Morphism, k: nat, j: nat)
    requires FromZero(h, k)
    ensures |Iterate(h, 0, j + 1)| > |Iterate(h, 0, j)|
  {
    IterateSpells(h, k, j);
    SubstituteLength(h, k, Iterate(h, 0, j));
    Grows(|Iterate(h, 0, j)|, k, 1);
  }

  /** Of a uniform morphism the loop returns n letters of one fixed point, for every n. */
  lemma UniformPrefix(h: Morphism, k: nat, n: nat, r: Word)
    requires FromZero(h, k) && PrefixOfLimit(h, 0, n, r)
    ensures |r| == n && Spells(h, k, r)
  {
    var j :| Reaches(h, 0, n, r, j);
    IterateSpells(h, k, j);
    RoundsGrow(h, k, j);
  }

  method FixedPointPrefix(h: Morphism, n: nat, ghost k: nat) returns (r: Word)
    requires FromZero(h, k)
    ensures |r| == n && Spells(h, k, r)
  {
    r := Morphic(n, h, 0);
    UniformPrefix(h, k, n, r);
  }

  // ----- Relabelling

  /** A rearrangement of the m letters that keeps 0. */
  predicate Relabelling(s: seq<nat>, m: nat) {
    && |s| == m && Over(s, m) && (m > 0 ==> s[0] == 0)
    && forall a, b :: 0 <= a < b < m ==> s[a] != s[b]
  }

  function Rename(s: seq<nat>, w: Word): (r: Word)
    requires Over(w, |s|)
    ensures |r| == |w| && forall i :: 0 <= i < |w| ==> r[i] == s[w[i]]
  {
    seq(|w|, i requires 0 <= i < |w| => s[w[i]])
  }

  /** g substitutes the renamed letters as h does the letters. */
  ghost predicate Relabels(s: seq<nat>, h: Morphism, g: Morphism) {
    && Relabelling(s, |h|) && |g| == |h| && Closed(h)
    && forall a :: 0 <= a < |h| ==> g[s[a]] == Rename(s, h[a])
  }

  /** The fixed point of a relabelled morphism is the relabelled fixed point. */
  lemma {:induction false} FixedPointRelabels(s: seq<nat>, h: Morphism, g: Morphism, k: nat, i: nat)
    requires Relabels(s, h, g) && FromZero(h, k) && FromZero(g, k)
    ensures LetterAt(g, k, i) == s[LetterAt(h, k, i)]
    decreases i
  {
    if i > 0 {
      FixedPointRelabels(s, h, g, k, i / k);
      var a := LetterAt(h, k, i / k);
      assert g[s[a]] == Rename(s, h[a]);
    }
  }
}
