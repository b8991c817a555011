/** Krawtchouk polynomials are character sums. */
module Krawtchouk {
  // Krawtchouk polynomials as `krawtchouk` sums them, and their meaning: the value at i is the sum of
  // the characters of all weight-k words at any word of weight i.

  import opened Collections
  import opened Arith
  import opened Binomial
  import opened Codes

  /** (-1)^j v. */
  function Signed(j: nat, v: int): int {
    if j % 2 == 0 then v else -v
  }

  function Term(k: nat, i: nat, m: nat, j: nat): int
    requires j <= k
  {
    Signed(j, Comb(i, j) * Comb(m, k - j))
  }

  /** The sum over j <= upto of (-1)^j C(i,j) C(m,k-j). */
  function PartialSum(k: nat, i: nat, m: nat, upto: nat): int
    requires upto <= k
  {
    Term(k, i, m, upto) + if upto == 0 then 0 else PartialSum(k, i, m, upto - 1)
  }

  function K(k: nat, i: nat, n: nat): int
    requires i <= n
  {
    PartialSum(k, i, n - i, k)
  }

  lemma TermInM(k: nat, i: nat, m: nat, j: nat)
    requires j < k
    ensures Term(k, i, m + 1, j) == Term(k, i, m, j) + Term(k - 1, i, m, j)
  {
    Distribute(Comb(i, j), Comb(m, k - j - 1), Comb(m, k - j));
  }

  lemma {:induction false} PascalInM(k: nat, i: nat, m: nat, upto: nat)
    requires upto < k
    ensures PartialSum(k, i, m + 1, upto) == PartialSum(k, i, m, upto) + PartialSum(k - 1, i, m, upto)
  {
    TermInM(k, i, m, upto);
    if upto > 0 {
      PascalInM(k, i, m, upto - 1);
    }
  }

  lemma TermInI(k: nat, i: nat, m: nat, j: nat)
    requires 0 < j <= k
    ensures Term(k, i + 1, m, j) == Term(k, i, m, j) - Term(k - 1, i, m, j - 1)
  {
    var c, a, b := Comb(m, k - j), Comb(i, j - 1), Comb(i, j);
    assert Comb(i + 1, j) == a + b;
    SplitTerm(c, a, b, j);
  }

  lemma SplitTerm(c: int, a: int, b: int, j: nat)
    requires j > 0
    ensures Signed(j, (a + b) * c) == Signed(j, b * c) - Signed(j - 1, a * c)
  {
    Distribute(c, a, b);
  }

  lemma {:induction false} PascalInI(k: nat, i: nat, m: nat, upto: nat)
    requires upto <= k
    ensures PartialSum(k, i + 1, m, upto)
         == PartialSum(k, i, m, upto) - (if upto == 0 then 0 else PartialSum(k - 1, i, m, upto - 1))
  {
    if upto > 0 {
      PascalInI(k, i, m, upto - 1);
      TermInI(k, i, m, upto);
    }
  }

  /** Prepending a 0 to a word of weight i and length n. */
  lemma StepZero(k: nat, i: nat, n: nat)
    requires i <= n
    ensures K(k, i, n + 1) == K(k, i, n) + (if k == 0 then 0 else K(k - 1, i, n))
  {
    if k > 0 {
      PascalInM(k, i, n - i, k - 1);
    }
  }

  /** Prepending a 1 to a word of weight i and length n. */
  lemma StepOne(k: nat, i: nat, n: nat)
    requires i <= n
    ensures K(k, i + 1, n + 1) == K(k, i, n) - (if k == 0 then 0 else K(k - 1, i, n))
  {
    PascalInI(k, i, n - i, k);
  }

  lemma {:induction false} PartialAtZero(k: nat, m: nat, upto: nat)
    requires upto <= k
    ensures PartialSum(k, 0, m, upto) == Comb(m, k)
  {
    if upto > 0 {
      PartialAtZero(k, m, upto - 1);
    }
  }

  /** K_k(0) is the number of weight-k words. */
  lemma AtZero(k: nat, n: nat)
    ensures K(k, 0, n) == Comb(n, k)
  {
    PartialAtZero(k, n, k);
  }

  /** Whether u and x are both set in an odd number of positions. */
  predicate OddOverlap(u: Word, x: Word) {
    u != [] && x != [] && ((u[0] && x[0]) != OddOverlap(u[1..], x[1..]))
  }

  /** The character of u at x. */
  function Chi(u: Word, x: Word): int {
    if OddOverlap(u, x) then -1 else 1
  }

  lemma {:induction false} OddOverlapXor(u: Word, x: Word, y: Word)
    requires |x| == |y|
    ensures OddOverlap(u, Xor(x, y)) == (OddOverlap(u, x) != OddOverlap(u, y))
  {
    if u != [] && x != [] {
      OddOverlapXor(u[1..], x[1..], y[1..]);
      assert Xor(x, y)[1..] == Xor(x[1..], y[1..]);
    }
  }

  lemma ChiXor(u: Word, x: Word, y: Word)
    requires |x| == |y|
    ensures Chi(u, Xor(x, y)) == Chi(u, x) * Chi(u, y)
  {
    OddOverlapXor(u, x, y);
  }

  /** The words whose tail is in zeros, behind a 0, then those whose tail is in ones, behind a 1. */
  function Join(zeros: seq<Word>, ones: seq<Word>): (r: seq<Word>) {
    Fronted(false, zeros) + Fronted(true, ones)
  }

  /** Every word of length n and weight k, once. */
  function Words(n: nat, k: nat): seq<Word> {
    if n == 0 then (if k == 0 then [[]] else [])
    else Join(Words(n - 1, k), if k == 0 then [] else Words(n - 1, k - 1))
  }

  ghost predicate Lists(ws: seq<Word>, n: nat, k: nat) {
    && (forall i :: 0 <= i < |ws| ==> |ws[i]| == n && Weight(ws[i]) == k)
    && (forall w :: |w| == n && Weight(w) == k ==> w in ws)
    && (forall i, j :: 0 <= i < j < |ws| ==> ws[i] != ws[j])
  }

  lemma FrontedAt(b: bool, ws: seq<Word>, i: nat)
    requires i < |ws|
    ensures Fronted(b, ws)[i] != [] && Fronted(b, ws)[i][0] == b && Fronted(b, ws)[i][1..] == ws[i]
  {
  }

  lemma FrontedMember(b: bool, ws: seq<Word>, w: Word)
    requires w in ws
    ensures [b] + w in Fronted(b, ws)
  {
    var i :| 0 <= i < |ws| && ws[i] == w;
    assert Fronted(b, ws)[i] == [b] + w;
  }

  lemma JoinAt(zeros: seq<Word>, ones: seq<Word>, i: nat)
    requires i < |zeros| + |ones|
    ensures var w := Join(zeros, ones)[i];
      w != [] && w[0] == (i >= |zeros|) && w[1..] == if i < |zeros| then zeros[i] else ones[i - |zeros|]
  {
    if i < |zeros| {
      FrontedAt(false, zeros, i);
    } else {
      FrontedAt(true, ones, i - |zeros|);
    }
  }

  lemma JoinMember(zeros: seq<Word>, ones: seq<Word>, w: Word)
    requires w != [] && w[1..] in if w[0] then ones else zeros
    ensures w in Join(zeros, ones)
  {
    assert w == [w[0]] + w[1..];
    FrontedMember(w[0], if w[0] then ones else zeros, w[1..]);
  }

  lemma JoinLists(zeros: seq<Word>, ones: seq<Word>, n: nat, k: nat)
    requires Lists(zeros, n, k)
    requires if k == 0 then ones == [] else Lists(ones, n, k - 1)
    ensures Lists(Join(zeros, ones), n + 1, k)
  {
    var r := Join(zeros, ones);
    assert |r| == |zeros| + |ones|;
    forall i | 0 <= i < |r| ensures |r[i]| == n + 1 && Weight(r[i]) == k {
      JoinAt(zeros, ones, i);
    }
    forall i, j | 0 <= i < j < |r| ensures r[i] != r[j] {
      JoinAt(zeros, ones, i);
      JoinAt(zeros, ones, j);
    }
    forall w: Word | |w| == n + 1 && Weight(w) == k ensures w in r {
      JoinMember(zeros, ones, w);
    }
  }

  lemma WordsBase(k: nat)
    ensures Lists(Words(0, k), 0, k)
  {
    assert k == 0 ==> [] in Words(0, k);
    assert forall w: Word :: |w| == 0 ==> w == [];
  }

  lemma WordsStep(n: nat, k: nat)
    requires n > 0 && Lists(Words(n - 1, k), n - 1, k) && (k > 0 ==> Lists(Words(n - 1, k - 1), n - 1, k - 1))
    ensures Lists(Words(n, k), n, k)
  {
    var zeros, ones := Words(n - 1, k), if k == 0 then [] else Words(n - 1, k - 1);
    assert Words(n, k) == Join(zeros, ones);
    JoinLists(zeros, ones, n - 1, k);
  }

  /** Words(n, k) lists the words of length n and weight k, all of them, each once. */
  lemma {:induction false} WordsComplete(n: nat, k: nat)
    ensures Lists(Words(n, k), n, k)
    decreases n
  {
    if n == 0 {
      WordsBase(k);
    } else {
      WordsComplete(n - 1, k);
      if k > 0 {
        WordsComplete(n - 1, k - 1);
      }
      WordsStep(n, k);
    }
  }

  function CharSum(us: seq<Word>, x: Word): int {
    if us == [] then 0 else Chi(us[0], x) + CharSum(us[1..], x)
  }

  lemma {:induction false} CharSumConcat(us: seq<Word>, vs: seq<Word>, x: Word)
    ensures CharSum(us + vs, x) == CharSum(us, x) + CharSum(vs, x)
  {
    if us == [] {
      assert us + vs == vs;
    } else {
      CharSumConcat(us[1..], vs, x);
      assert (us + vs)[1..] == us[1..] + vs;
    }
  }

  lemma {:induction false} CharSumFronted(b: bool, ws: seq<Word>, x: Word)
    requires x != []
    ensures CharSum(Fronted(b, ws), x) == if b && x[0] then -CharSum(ws, x[1..]) else CharSum(ws, x[1..])
  {
    if ws != [] {
      CharSumFronted(b, ws[1..], x);
      assert ([b] + ws[0])[1..] == ws[0];
      assert Fronted(b, ws)[1..] == Fronted(b, ws[1..]);
    }
  }

  lemma CharSumJoin(zeros: seq<Word>, ones: seq<Word>, x: Word)
    requires x != []
    ensures CharSum(Join(zeros, ones), x)
         == CharSum(zeros, x[1..]) + if x[0] then -CharSum(ones, x[1..]) else CharSum(ones, x[1..])
  {
    CharSumConcat(Fronted(false, zeros), Fronted(true, ones), x);
    CharSumFronted(false, zeros, x);
    CharSumFronted(true, ones, x);
  }

  function CharTable(k: nat, x: Word): int {
    CharSum(Words(|x|, k), x)
  }

  /** What prepending the first letter of x does to a table of values indexed by words. */
  ghost predicate WordStep(g: (nat, Word) -> int, k: nat, x: Word)
    requires x != []
  {
    if x[0] then g(k, x) == g(k, x[1..]) - if k == 0 then 0 else g(k - 1, x[1..])
    else g(k, x) == g(k, x[1..]) + if k == 0 then 0 else g(k - 1, x[1..])
  }

  lemma CharTableSplits(k: nat, x: Word)
    requires x != []
    ensures var before := if k == 0 then 0 else CharTable(k - 1, x[1..]);
      CharTable(k, x) == CharTable(k, x[1..]) + if x[0] then -before else before
  {
    var zeros, ones := Words(|x| - 1, k), if k == 0 then [] else Words(|x| - 1, k - 1);
    assert Words(|x|, k) == Join(zeros, ones);
    CharSumJoin(zeros, ones, x);
    assert k == 0 ==> CharSum(ones, x[1..]) == 0;
  }

  lemma CharTableSteps(k: nat, x: Word)
    requires x != []
    ensures WordStep(CharTable, k, x)
  {
    CharTableSplits(k, x);
  }

  /** What prepending the letter b to a word of weight i and length n does to a table of values. */
  ghost predicate Step(f: (nat, nat, nat) -> int, b: bool, k: nat, i: nat, n: nat) {
    if b then f(k, i + 1, n + 1) == f(k, i, n) - if k == 0 then 0 else f(k - 1, i, n)
    else f(k, i, n + 1) == f(k, i, n) + if k == 0 then 0 else f(k - 1, i, n)
  }

  /** Two tables that start alike and follow these recurrences agree. */
  lemma {:induction false} TablesAgree(f: (nat, nat, nat) -> int, g: (nat, Word) -> int, k: nat, x: Word)
    requires forall k :: f(k, 0, 0) == g(k, [])
    requires forall b, k, i, n :: i <= n ==> Step(f, b, k, i, n)
    requires forall k, x :: x != [] ==> WordStep(g, k, x)
    ensures f(k, Weight(x), |x|) == g(k, x)
    decreases x, k
  {
    if x == [] {
    } else {
      TablesAgree(f, g, k, x[1..]);
      if k > 0 {
        TablesAgree(f, g, k - 1, x[1..]);
      }
      assert Step(f, x[0], k, Weight(x[1..]), |x[1..]|);
      assert WordStep(g, k, x);
    }
  }

  function KTable(k: nat, i: nat, n: nat): int {
    if i <= n then K(k, i, n) else 0
  }

  lemma {:induction false} PartialAtOrigin(k: nat, upto: nat)
    requires upto <= k
    ensures PartialSum(k, 0, 0, upto) == if k == 0 then 1 else 0
  {
    if upto > 0 {
      PartialAtOrigin(k, upto - 1);
    }
  }

  lemma KTableSteps(b: bool, k: nat, i: nat, n: nat)
    requires i <= n
    ensures Step(KTable, b, k, i, n)
  {
    if b {
      StepOne(k, i, n);
    } else {
      StepZero(k, i, n);
    }
  }

  lemma TablesStartAlike(k: nat)
    ensures KTable(k, 0, 0) == CharTable(k, [])
  {
    PartialAtOrigin(k, k);
    assert Words(0, k) == if k == 0 then [[]] else [];
    if k == 0 {
      assert CharSum([[]], []) == Chi([], []) + CharSum([[]][1..], []);
    }
  }

  /** The Krawtchouk value at i is the character sum over weight-k words at any word of weight i. */
  lemma KIsCharSum(k: nat, x: Word)
    ensures K(k, Weight(x), |x|) == CharSum(Words(|x|, k), x)
  {
    forall k ensures KTable(k, 0, 0) == CharTable(k, []) {
      TablesStartAlike(k);
    }
    forall b, k, i, n | i <= n ensures Step(KTable, b, k, i, n) {
      KTableSteps(b, k, i, n);
    }
    forall k, x | x != [] ensures WordStep(CharTable, k, x) {
      CharTableSteps(k, x);
    }
    TablesAgree(KTable, CharTable, k, x);
  }
}
