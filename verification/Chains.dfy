/** Chains that show their states, and the necklace. */
module Chains {
  // Chains that emit the label of every state they visit: the products of transitions are the
  // probabilities of a valid model, and the necklace is a chain that needs all its four states.

  import opened Collections
  import opened Determinant
  import opened Elimination
  import opened Quadratic
  import opened Processes

  /** The transition matrix a and the start vector pi of a chain with n states. */
  ghost predicate IsChain(a: Matrix, pi: Vector, n: nat) {
    && NonNegative(pi, n) && Sum(pi, n) == 1.0 && NonNegativeMatrix(a, n)
    && forall i :: 0 <= i < n ==> Sum(a(i), n) == 1.0
  }

  predicate Visits(w: seq<nat>, n: nat) {
    forall i :: 0 <= i < |w| ==> w[i] < n
  }

  /** Emitting s is possible in state s only; then the chain moves on. */
  function Emission(a: Matrix, s: int): Matrix {
    (i: nat) => (j: nat) => if i == s then a(i)(j) else 0.0
  }

  function Showing(a: Matrix, pi: Vector, n: nat): Hmm {
    Hmm(n, pi, Range(n), (s: int) => Emission(a, s))
  }

  lemma {:induction false} EntriesToLabel(a: Matrix, pi: Vector, n: nat, i: nat, j: nat, k: nat)
    requires i < n && k <= n
    ensures TotalEntry(Showing(a, pi, n), i, j, k) == if i < k then a(i)(j) else 0.0
  {
    if k > 0 {
      EntriesToLabel(a, pi, n, i, j, k - 1);
    }
  }

  /** The model is valid. */
  lemma ShowingValid(a: Matrix, pi: Vector, n: nat)
    requires IsChain(a, pi, n)
    ensures HmmValid(Showing(a, pi, n))
  {
    var h := Showing(a, pi, n);
    forall i | 0 <= i < n ensures Sum(TotalRow(h, i, n), n) == 1.0 {
      forall j | 0 <= j < n ensures TotalRow(h, i, n)(j) == a(i)(j) {
        EntriesToLabel(a, pi, n, i, j, n);
      }
      SumSame(TotalRow(h, i, n), a(i), n);
    }
  }

  /** P(w) of a chain that shows its states: the start, then one transition a symbol. */
  function ChainProbability(a: Matrix, pi: Vector, w: seq<nat>, k: nat): real
    requires k < |w|
  {
    if k == 0 then pi(w[0]) else Mul(ChainProbability(a, pi, w, k - 1), a(w[k - 1])(w[k]))
  }

  /** Only the state that is shown goes on. */
  lemma StepFrom(a: Matrix, x: Vector, n: nat, s: nat, j: nat)
    requires s < n
    ensures VecMat(Mul, x, Emission(a, s), n)(j) == Mul(x(s), a(s)(j))
  {
    DotSingle(Mul, x, Column(Emission(a, s), j), n, s);
  }

  lemma OneMore(h: Hmm, w: Word, s: int)
    ensures Through(Mul, h, h.initial, w + [s]) == VecMat(Mul, Through(Mul, h, h.initial, w), h.emits(s), h.states)
  {
    ThroughConcat(Mul, h, h.initial, w, [s]);
    assert [s][0] == s && [s][1..] == [];
  }

  /** After the first k + 1 symbols the chain is on its way from the last of them. */
  lemma {:induction false} ReachedFrom(a: Matrix, pi: Vector, n: nat, w: seq<nat>, k: nat, j: nat)
    requires Visits(w, n) && k < |w|
    ensures var h := Showing(a, pi, n);
      Through(Mul, h, pi, w[..k + 1])(j) == Mul(ChainProbability(a, pi, w, k), a(w[k])(j))
  {
    var h := Showing(a, pi, n);
    assert w[..k + 1] == w[..k] + [w[k]];
    OneMore(h, w[..k], w[k]);
    var x := Through(Mul, h, pi, w[..k]);
    StepFrom(a, x, n, w[k], j);
    if k == 0 {
      assert x == pi;
    } else {
      ReachedFrom(a, pi, n, w, k - 1, w[k]);
    }
  }

  /** The product of transitions is the probability of the word in the model. */
  lemma PathsAreWords(a: Matrix, pi: Vector, n: nat, w: seq<nat>)
    requires IsChain(a, pi, n) && Visits(w, n) && w != []
    ensures Probability(Mul, Showing(a, pi, n), w) == ChainProbability(a, pi, w, |w| - 1)
  {
    var x, p := Through(Mul, Showing(a, pi, n), pi, w), ChainProbability(a, pi, w, |w| - 1);
    assert w[..|w|] == w;
    forall j | 0 <= j < n ensures x(j) == Mul(p, a(w[|w| - 1])(j)) {
      ReachedFrom(a, pi, n, w, |w| - 1, j);
    }
    SharedOut(x, p, a(w[|w| - 1]), n);
  }

  lemma SharedOut(x: Vector, p: real, row: Vector, n: nat)
    requires Sum(row, n) == 1.0 && forall j :: 0 <= j < n ==> x(j) == Mul(p, row(j))
    ensures Sum(x, n) == p
  {
    MulIsField();
    assert Combination(Mul, x, Zero(), p, row, n);
    SumScaled(Mul, x, p, row, n);
    assert Mul(p, 1.0) == p;
  }

  /** The loop computes the probability of the word in every model of that kind. */
  method WordProb(a: Matrix, pi: Vector, w: seq<nat>, ghost n: nat) returns (p: real)
    requires w != []
    ensures p == ChainProbability(a, pi, w, |w| - 1)
    ensures IsChain(a, pi, n) && Visits(w, n) ==> p == Probability(Mul, Showing(a, pi, n), w)
  {
    p := pi(w[0]);
    for i := 1 to |w|
      invariant p == ChainProbability(a, pi, w, i - 1)
    {
      p := Mul(p, a(w[i - 1])(w[i]));
    }
    if IsChain(a, pi, n) && Visits(w, n) {
      PathsAreWords(a, pi, n, w);
    }
  }

  // ----- The necklace

  const NECKLACE: Table := [
    [0.125, 0.125, 0.0, 0.0],
    [0.125, 0.0, 0.125, 0.0],
    [0.0, 0.125, 0.0, 0.125],
    [0.0, 0.0, 0.125, 0.125]
  ]

  /** Four states in a ring, the ends with a loop. */
  function Necklace(): Matrix {
    (i: nat) => (j: nat) => if i < 4 && j < 4 then Bead(i, j) else 0.0
  }

  function Bead(i: nat, j: nat): real {
    if i == 0 then (if j < 2 then 0.5 else 0.0)
    else if i == 1 then (if j == 0 || j == 2 then 0.5 else 0.0)
    else if i == 2 then (if j == 1 || j == 3 then 0.5 else 0.0)
    else if j >= 2 then 0.5 else 0.0
  }

  function Quarters(): Vector {
    (i: nat) => 0.25
  }

  lemma SumFour(f: Vector)
    ensures Sum(f, 4) == f(0) + f(1) + f(2) + f(3)
  {
    assert Sum(f, 2) == Sum(f, 1) + f(1);
    assert Sum(f, 1) == Sum(f, 0) + f(0);
    assert Sum(f, 3) == Sum(f, 2) + f(2);
  }

  lemma NecklaceIsChain()
    ensures IsChain(Necklace(), Quarters(), 4)
  {
    SumFour(Quarters());
    forall i: nat | 0 <= i < 4 ensures Sum(Necklace()(i), 4) == 1.0 {
      SumFour(Necklace()(i));
    }
  }

  /** The necklace, with its four states, has the table's probabilities. */
  lemma NecklaceAttains(s: nat, t: nat)
    requires s < 4 && t < 4
    ensures HmmValid(Showing(Necklace(), Quarters(), 4)) && Showing(Necklace(), Quarters(), 4).states == 4
    ensures Probability(Mul, Showing(Necklace(), Quarters(), 4), [s, t]) == NECKLACE[s][t]
  {
    NecklaceIsChain();
    ShowingValid(Necklace(), Quarters(), 4);
    PathsAreWords(Necklace(), Quarters(), 4, [s, t]);
    assert ChainProbability(Necklace(), Quarters(), [s, t], 0) == 0.25;
    assert ChainProbability(Necklace(), Quarters(), [s, t], 1) == Mul(0.25, Bead(s, t));
  }

  function Singles(): seq<Word> {
    [[0], [1], [2], [3]]
  }

  const ROWS: seq<nat> := [0, 1, 2, 3]
  const COLS: seq<nat> := [0, 2, 1, 3]

  lemma NecklaceFools()
    ensures Inside(NECKLACE, ROWS, COLS) && FoolingOk(NECKLACE, ROWS, COLS)
  {
  }

  /** No valid model with fewer than four states gives the two-letter words the necklace's probabilities. */
  lemma NecklaceNeedsFourStates(h: Hmm)
    requires HmmValid(h) && forall s :: 0 <= s < 4 ==> s in h.symbols
    requires forall s: nat, t: nat :: s < 4 && t < 4 ==> Probability(Mul, h, [s, t]) == NECKLACE[s][t]
    ensures h.states >= 4
  {
    NecklaceFools();
    forall a | 0 <= a < 4 ensures ROWS[a] < 4 && Emits(h, Singles()[ROWS[a]]) && Emits(h, Singles()[COLS[a]]) {
    }
    forall a, b | 0 <= a < 4 && 0 <= b < 4
      ensures Chosen(NECKLACE, ROWS, COLS, a, b) == Probability(Mul, h, Singles()[ROWS[a]] + Singles()[COLS[b]])
    {
      var s, t := ROWS[a], COLS[b];
      assert Singles()[s] + Singles()[t] == [s, t];
      assert NECKLACE[s][t] == Probability(Mul, h, [s, t]);
    }
    HmmNeedsStates(h, NECKLACE, ROWS, COLS, Singles(), Singles());
  }
}
