/** Hidden Markov models and the fooling-set bound. */
module Processes {
  // Hidden Markov models in observable-operator form: word probabilities, their consistency, and the
  // fooling-set bound on the number of hidden states.

  import opened Collections
  import opened Determinant
  import opened Elimination
  import opened Quadratic

  type Word = seq<int>

  /** The first `states` coordinates of the vectors and matrices count. */
  datatype Hmm = Hmm(states: nat, initial: Vector, symbols: seq<int>, emits: int -> Matrix)

  function Column(m: Matrix, j: nat): Vector {
    (i: nat) => m(i)(j)
  }

  /** The row vector v times m. */
  function VecMat(mul: Product, v: Vector, m: Matrix, n: nat): Vector {
    (j: nat) => Dot(mul, v, Column(m, j), n)
  }

  function Ones(): Vector {
    (i: nat) => 1.0
  }

  /** The row vector v after the operators of a word. */
  function Through(mul: Product, h: Hmm, v: Vector, w: Word): Vector {
    if w == [] then v else Through(mul, h, VecMat(mul, v, h.emits(w[0]), h.states), w[1..])
  }

  /** The probability of emitting a word, by the state it starts from. */
  function Ahead(mul: Product, h: Hmm, w: Word): Vector {
    if w == [] then Ones() else Apply(mul, h.emits(w[0]), Ahead(mul, h, w[1..]), h.states)
  }

  /** P(w). */
  function Probability(mul: Product, h: Hmm, w: Word): real {
    Sum(Through(mul, h, h.initial, w), h.states)
  }

  method Prob(h: Hmm, w: Word) returns (p: real)
    ensures p == Probability(Mul, h, w)
  {
    var v := h.initial;
    for i := 0 to |w|
      invariant Through(Mul, h, v, w[i..]) == Through(Mul, h, h.initial, w)
    {
      v := VecMat(Mul, v, h.emits(w[i]), h.states);
    }
    p := Sum(v, h.states);
  }

  // ----- Validity

  predicate NonNegativeMatrix(m: Matrix, n: nat) {
    forall i: nat, j: nat :: i < n && j < n ==> m(i)(j) >= 0.0
  }

  /** The entry (i, j) of the sum of all operators. */
  function TotalEntry(h: Hmm, i: nat, j: nat, k: nat): real
    requires k <= |h.symbols|
  {
    if k == 0 then 0.0 else TotalEntry(h, i, j, k - 1) + h.emits(h.symbols[k - 1])(i)(j)
  }

  function TotalRow(h: Hmm, i: nat, k: nat): Vector
    requires k <= |h.symbols|
  {
    (j: nat) => TotalEntry(h, i, j, k)
  }

  predicate HmmValid(h: Hmm) {
    && (forall i :: 0 <= i < h.states ==> h.initial(i) >= 0.0) && Sum(h.initial, h.states) == 1.0
    && (forall k :: 0 <= k < |h.symbols| ==> NonNegativeMatrix(h.emits(h.symbols[k]), h.states))
    && (forall i :: 0 <= i < h.states ==> Sum(TotalRow(h, i, |h.symbols|), h.states) == 1.0)
  }

  // ----- Forwards and backwards

  lemma {:induction false} SumIsDot(mul: Product, f: Vector, n: nat)
    requires Multiplies(mul)
    ensures Sum(f, n) == Dot(mul, f, Ones(), n)
  {
    if n > 0 {
      SumIsDot(mul, f, n - 1);
      assert Laws(mul, 0.0, 0.0, f(n - 1));
    }
  }

  function RowsTo(mul: Product, x: Vector, m: Matrix, r: nat): Vector {
    (j: nat) => Dot(mul, x, Column(m, j), r)
  }

  lemma {:induction false} ExchangeTo(mul: Product, x: Vector, m: Matrix, y: Vector, r: nat, n: nat)
    requires Multiplies(mul)
    ensures Dot(mul, RowsTo(mul, x, m, r), y, n) == Dot(mul, x, Apply(mul, m, y, n), r)
  {
    if r == 0 {
      forall j | 0 <= j < n ensures mul(RowsTo(mul, x, m, 0)(j), y(j)) == 0.0 {
        assert Laws(mul, 0.0, 0.0, y(j));
      }
      DotZero(mul, RowsTo(mul, x, m, 0), y, n);
    } else {
      ExchangeTo(mul, x, m, y, r - 1, n);
      DotCombine(mul, RowsTo(mul, x, m, r), RowsTo(mul, x, m, r - 1), x(r - 1), m(r - 1), y, n);
    }
  }

  /** (x m) y = x (m y). */
  lemma Exchange(mul: Product, x: Vector, m: Matrix, y: Vector, n: nat)
    requires Multiplies(mul)
    ensures Dot(mul, VecMat(mul, x, m, n), y, n) == Dot(mul, x, Apply(mul, m, y, n), n)
  {
    ExchangeTo(mul, x, m, y, n, n);
    DotSame(mul, VecMat(mul, x, m, n), RowsTo(mul, x, m, n), y, n);
  }

  lemma {:induction false} ThroughIsDot(mul: Product, h: Hmm, x: Vector, w: Word)
    requires Multiplies(mul)
    ensures Sum(Through(mul, h, x, w), h.states) == Dot(mul, x, Ahead(mul, h, w), h.states)
    decreases |w|
  {
    if w == [] {
      SumIsDot(mul, x, h.states);
    } else {
      ThroughIsDot(mul, h, VecMat(mul, x, h.emits(w[0]), h.states), w[1..]);
      Exchange(mul, x, h.emits(w[0]), Ahead(mul, h, w[1..]), h.states);
    }
  }

  lemma {:induction false} ThroughConcat(mul: Product, h: Hmm, x: Vector, u: Word, w: Word)
    ensures Through(mul, h, x, u + w) == Through(mul, h, Through(mul, h, x, u), w)
    decreases |u|
  {
    if u == [] {
      assert u + w == w;
    } else {
      assert (u + w)[0] == u[0] && (u + w)[1..] == u[1..] + w;
      ThroughConcat(mul, h, VecMat(mul, x, h.emits(u[0]), h.states), u[1..], w);
    }
  }

  /** A word split in two: the states reached by the past against what they emit next. */
  lemma SplitProbability(mul: Product, h: Hmm, u: Word, w: Word)
    requires Multiplies(mul)
    ensures Probability(mul, h, u + w) == Dot(mul, Through(mul, h, h.initial, u), Ahead(mul, h, w), h.states)
  {
    ThroughConcat(mul, h, h.initial, u, w);
    ThroughIsDot(mul, h, Through(mul, h, h.initial, u), w);
  }

  // ----- Signs

  ghost predicate SignLaws(mul: Product, a: real, b: real) {
    && (a >= 0.0 && b >= 0.0 ==> mul(a, b) >= 0.0)
    && (a > 0.0 && b > 0.0 ==> mul(a, b) > 0.0)
  }

  ghost predicate Signed(mul: Product) {
    Multiplies(mul) && forall a, b :: SignLaws(mul, a, b)
  }

  lemma RealsSigned()
    ensures Signed(Mul)
  {
    MulIsField();
    forall a, b ensures SignLaws(Mul, a, b) {
      ProductSign(a, b);
    }
  }

  lemma {:induction false} DotNonNegative(mul: Product, u: Vector, x: Vector, n: nat)
    requires Signed(mul) && NonNegative(u, n) && NonNegative(x, n)
    ensures Dot(mul, u, x, n) >= 0.0
  {
    if n > 0 {
      DotNonNegative(mul, u, x, n - 1);
      assert SignLaws(mul, u(n - 1), x(n - 1));
    }
  }

  /** A positive product shares a coordinate; and sharing one makes the product positive. */
  lemma {:induction false} SharedCoordinate(mul: Product, u: Vector, x: Vector, n: nat) returns (s: nat)
    requires Signed(mul) && NonNegative(u, n) && NonNegative(x, n) && Dot(mul, u, x, n) > 0.0
    ensures s < n && u(s) > 0.0 && x(s) > 0.0
  {
    if u(n - 1) > 0.0 && x(n - 1) > 0.0 {
      s := n - 1;
    } else {
      assert Laws(mul, 0.0, 0.0, u(n - 1)) && Laws(mul, 0.0, 0.0, x(n - 1));
      s := SharedCoordinate(mul, u, x, n - 1);
    }
  }

  lemma {:induction false} SharingIsPositive(mul: Product, u: Vector, x: Vector, n: nat, s: nat)
    requires Signed(mul) && NonNegative(u, n) && NonNegative(x, n) && s < n && u(s) > 0.0 && x(s) > 0.0
    ensures Dot(mul, u, x, n) > 0.0
  {
    assert SignLaws(mul, u(n - 1), x(n - 1));
    if s == n - 1 {
      DotNonNegative(mul, u, x, n - 1);
    } else {
      SharingIsPositive(mul, u, x, n - 1, s);
    }
  }

  predicate Emits(h: Hmm, w: Word) {
    forall i :: 0 <= i < |w| ==> w[i] in h.symbols
  }

  lemma OperatorNonNegative(h: Hmm, a: int)
    requires HmmValid(h) && a in h.symbols
    ensures NonNegativeMatrix(h.emits(a), h.states)
  {
    var k :| 0 <= k < |h.symbols| && h.symbols[k] == a;
  }

  lemma {:induction false} ThroughNonNegative(mul: Product, h: Hmm, x: Vector, w: Word)
    requires Signed(mul) && HmmValid(h) && Emits(h, w) && NonNegative(x, h.states)
    ensures NonNegative(Through(mul, h, x, w), h.states)
    decreases |w|
  {
    if w != [] {
      var m := h.emits(w[0]);
      OperatorNonNegative(h, w[0]);
      var y := VecMat(mul, x, m, h.states);
      forall j | 0 <= j < h.states ensures y(j) >= 0.0 {
        forall i | 0 <= i < h.states ensures Column(m, j)(i) >= 0.0 {
          assert m(i)(j) >= 0.0;
        }
        DotNonNegative(mul, x, Column(m, j), h.states);
      }
      assert Emits(h, w[1..]) by {
        forall i | 0 <= i < |w[1..]| ensures w[1..][i] in h.symbols {
          assert w[i + 1] in h.symbols;
        }
      }
      ThroughNonNegative(mul, h, y, w[1..]);
    }
  }

  lemma {:induction false} AheadNonNegative(mul: Product, h: Hmm, w: Word)
    requires Signed(mul) && HmmValid(h) && Emits(h, w)
    ensures NonNegative(Ahead(mul, h, w), h.states)
  {
    if w != [] {
      assert Emits(h, w[1..]) by {
        forall i | 0 <= i < |w[1..]| ensures w[1..][i] in h.symbols {
          assert w[i + 1] in h.symbols;
        }
      }
      AheadNonNegative(mul, h, w[1..]);
      OperatorNonNegative(h, w[0]);
      forall i | 0 <= i < h.states ensures Ahead(mul, h, w)(i) >= 0.0 {
        forall j | 0 <= j < h.states ensures h.emits(w[0])(i)(j) >= 0.0 {
        }
        DotNonNegative(mul, h.emits(w[0])(i), Ahead(mul, h, w[1..]), h.states);
      }
    }
  }

  // ----- A valid model is a stochastic process

  /** The sum of P(w a) over the symbols a. */
  function NextTotal(mul: Product, h: Hmm, w: Word, k: nat): real
    requires k <= |h.symbols|
  {
    if k == 0 then 0.0 else NextTotal(mul, h, w, k - 1) + Probability(mul, h, w + [h.symbols[k - 1]])
  }

  /** The total weight of a state's outgoing emissions of the first k symbols. */
  function Outgoing(h: Hmm, k: nat): Vector
    requires k <= |h.symbols|
  {
    (i: nat) => Sum(TotalRow(h, i, k), h.states)
  }

  lemma {:induction false} TotalRowGrows(h: Hmm, i: nat, k: nat, n: nat)
    requires k < |h.symbols|
    ensures Sum(TotalRow(h, i, k + 1), n) == Sum(TotalRow(h, i, k), n) + Sum(h.emits(h.symbols[k])(i), n)
    decreases n
  {
    if n > 0 {
      TotalRowGrows(h, i, k, n - 1);
    }
  }

  lemma OutgoingGrows(mul: Product, h: Hmm, k: nat)
    requires Multiplies(mul) && k < |h.symbols|
    ensures Combination(mul, Outgoing(h, k + 1), Outgoing(h, k), 1.0, Ahead(mul, h, [h.symbols[k]]), h.states)
  {
    var a := h.symbols[k];
    var next := Ahead(mul, h, [a]);
    forall i | 0 <= i < h.states ensures Outgoing(h, k + 1)(i) == Outgoing(h, k)(i) + mul(1.0, next(i)) {
      TotalRowGrows(h, i, k, h.states);
      SumIsDot(mul, h.emits(a)(i), h.states);
      assert [a][0] == a && [a][1..] == [];
      assert Ahead(mul, h, []) == Ones();
      assert next == Apply(mul, h.emits(a), Ones(), h.states);
      assert next(i) == Dot(mul, h.emits(a)(i), Ones(), h.states);
      assert Laws(mul, 0.0, 0.0, next(i));
    }
  }

  lemma {:induction false} NextTotalIsDot(mul: Product, h: Hmm, w: Word, k: nat)
    requires Multiplies(mul) && k <= |h.symbols|
    ensures NextTotal(mul, h, w, k) == Dot(mul, Through(mul, h, h.initial, w), Outgoing(h, k), h.states)
  {
    var x := Through(mul, h, h.initial, w);
    DotSymmetric(mul, x, Outgoing(h, k), h.states);
    if k == 0 {
      forall i | 0 <= i < h.states ensures mul(Outgoing(h, 0)(i), x(i)) == 0.0 {
        SumZero(TotalRow(h, i, 0), h.states);
        assert Laws(mul, 0.0, 0.0, x(i));
      }
      DotZero(mul, Outgoing(h, 0), x, h.states);
    } else {
      var a := h.symbols[k - 1];
      NextTotalIsDot(mul, h, w, k - 1);
      OutgoingGrows(mul, h, k - 1);
      DotCombine(mul, Outgoing(h, k), Outgoing(h, k - 1), 1.0, Ahead(mul, h, [a]), x, h.states);
      SplitProbability(mul, h, w, [a]);
      DotSymmetric(mul, x, Outgoing(h, k - 1), h.states);
      DotSymmetric(mul, x, Ahead(mul, h, [a]), h.states);
      assert Laws(mul, 0.0, 0.0, Dot(mul, Ahead(mul, h, [a]), x, h.states));
    }
  }

  lemma ConsistentAt(mul: Product, h: Hmm, w: Word)
    requires Multiplies(mul) && HmmValid(h)
    ensures NextTotal(mul, h, w, |h.symbols|) == Probability(mul, h, w)
  {
    var x := Through(mul, h, h.initial, w);
    NextTotalIsDot(mul, h, w, |h.symbols|);
    DotSymmetric(mul, x, Outgoing(h, |h.symbols|), h.states);
    DotSymmetric(mul, x, Ones(), h.states);
    DotSame(mul, Outgoing(h, |h.symbols|), Ones(), x, h.states);
    SumIsDot(mul, x, h.states);
  }

  /** The probabilities of a valid model are those of a stochastic process: they are not negative, the
      empty word has probability one, and each word shares its probability among its extensions. */
  lemma ValidIsProcess(h: Hmm, w: Word)
    requires HmmValid(h) && Emits(h, w)
    ensures Probability(Mul, h, w) >= 0.0 && Probability(Mul, h, []) == 1.0
    ensures NextTotal(Mul, h, w, |h.symbols|) == Probability(Mul, h, w)
  {
    RealsSigned();
    ConsistentAt(Mul, h, w);
    ThroughNonNegative(Mul, h, h.initial, w);
    SumNonNegative(Through(Mul, h, h.initial, w), h.states);
  }

  // ----- Fooling sets

  type Table = seq<seq<real>>

  predicate Inside(m: Table, rows: seq<nat>, cols: seq<nat>) {
    && |rows| == |cols|
    && (forall a :: 0 <= a < |rows| ==> rows[a] < |m|)
    && (forall i, b :: 0 <= i < |m| && 0 <= b < |cols| ==> cols[b] < |m[i]|)
  }

  /** The entry in the a-th chosen row and the b-th chosen column. */
  function Chosen(m: Table, rows: seq<nat>, cols: seq<nat>, a: nat, b: nat): real
    requires Inside(m, rows, cols) && a < |rows| && b < |cols|
  {
    m[rows[a]][cols[b]]
  }

  /** The chosen entries are positive, and no two of them span a rectangle of nonzero entries. */
  predicate FoolingOk(m: Table, rows: seq<nat>, cols: seq<nat>)
    requires Inside(m, rows, cols)
  {
    && (forall a :: 0 <= a < |rows| ==> Chosen(m, rows, cols, a, a) > 0.0)
    && (forall a, b :: 0 <= a < b < |rows| ==> Mul(Chosen(m, rows, cols, a, b), Chosen(m, rows, cols, b, a)) == 0.0)
  }

  /** The chosen part of m is a product of non-negative factors with inner dimension r. */
  ghost predicate Factors(mul: Product, m: Table, rows: seq<nat>, cols: seq<nat>, f: seq<Vector>, g: seq<Vector>,
                          r: nat)
    requires Inside(m, rows, cols)
  {
    && |f| == |g| == |rows|
    && (forall a :: 0 <= a < |rows| ==> NonNegative(f[a], r) && NonNegative(g[a], r))
    && (forall a, b :: 0 <= a < |rows| && 0 <= b < |cols| ==> Chosen(m, rows, cols, a, b) == Dot(mul, f[a], g[b], r))
  }

  ghost predicate Fooled(mul: Product, m: Table, rows: seq<nat>, cols: seq<nat>, f: seq<Vector>, g: seq<Vector>,
                         r: nat) {
    Signed(mul) && Inside(m, rows, cols) && FoolingOk(m, rows, cols) && Factors(mul, m, rows, cols, f, g, r)
  }

  /** Coordinate s contributes to the a-th chosen entry. */
  ghost predicate Serves(f: seq<Vector>, g: seq<Vector>, a: nat, s: nat) {
    a < |f| && a < |g| && f[a](s) > 0.0 && g[a](s) > 0.0
  }

  lemma OwnCoordinate(mul: Product, m: Table, rows: seq<nat>, cols: seq<nat>, f: seq<Vector>, g: seq<Vector>, r: nat,
                      a: nat)
    returns (s: nat)
    requires Fooled(mul, m, rows, cols, f, g, r) && a < |rows|
    ensures s < r && Serves(f, g, a, s)
  {
    assert Chosen(m, rows, cols, a, a) == Dot(mul, f[a], g[a], r);
    s := SharedCoordinate(mul, f[a], g[a], r);
  }

  lemma ZeroProduct(x: real, y: real)
    requires x > 0.0 && y > 0.0
    ensures Mul(x, y) != 0.0
  {
  }

  /** No coordinate serves two of the chosen entries. */
  lemma CoordinatesDiffer(mul: Product, m: Table, rows: seq<nat>, cols: seq<nat>, f: seq<Vector>, g: seq<Vector>,
                          r: nat,
                          a: nat, b: nat, s: nat)
    requires Fooled(mul, m, rows, cols, f, g, r) && a < b < |rows| && s < r && Serves(f, g, a, s)
    ensures !Serves(f, g, b, s)
  {
    if Serves(f, g, b, s) {
      SharingIsPositive(mul, f[a], g[b], r, s);
      SharingIsPositive(mul, f[b], g[a], r, s);
      ZeroProduct(Chosen(m, rows, cols, a, b), Chosen(m, rows, cols, b, a));
    }
  }

  ghost predicate ServedBelow(f: seq<Vector>, g: seq<Vector>, k: nat, s: nat) {
    exists a: nat :: a < k && Serves(f, g, a, s)
  }

  lemma FreshCoordinate(mul: Product, m: Table, rows: seq<nat>, cols: seq<nat>, f: seq<Vector>, g: seq<Vector>, r: nat,
                        k: nat, s: nat)
    requires Fooled(mul, m, rows, cols, f, g, r) && k < |rows| && s < r && Serves(f, g, k, s)
    ensures !ServedBelow(f, g, k, s) && ServedBelow(f, g, k + 1, s)
  {
    if ServedBelow(f, g, k, s) {
      var a: nat :| a < k && Serves(f, g, a, s);
      CoordinatesDiffer(mul, m, rows, cols, f, g, r, a, k, s);
    }
  }

  ghost predicate Distinguished(used: set<nat>, f: seq<Vector>, g: seq<Vector>, r: nat, k: nat) {
    |used| == k && forall s :: s in used ==> s < r && ServedBelow(f, g, k, s)
  }

  lemma ServedLater(f: seq<Vector>, g: seq<Vector>, k: nat, s: nat)
    requires ServedBelow(f, g, k, s)
    ensures ServedBelow(f, g, k + 1, s)
  {
  }

  lemma {:induction false} Coordinates(mul: Product, m: Table, rows: seq<nat>, cols: seq<nat>, f: seq<Vector>,
                                       g: seq<Vector>, r: nat, k: nat)
    returns (used: set<nat>)
    requires Fooled(mul, m, rows, cols, f, g, r) && k <= |rows|
    ensures Distinguished(used, f, g, r, k)
  {
    used := {};
    if k > 0 {
      var before := Coordinates(mul, m, rows, cols, f, g, r, k - 1);
      var s := OwnCoordinate(mul, m, rows, cols, f, g, r, k - 1);
      FreshCoordinate(mul, m, rows, cols, f, g, r, k - 1, s);
      used := before + {s};
      forall c | c in used ensures c < r && ServedBelow(f, g, k, c) {
        if c in before {
          ServedLater(f, g, k - 1, c);
        }
      }
      assert s !in before;
    }
  }

  /** A fooling set bounds the inner dimension of every non-negative factorization. */
  lemma FoolingBound(mul: Product, m: Table, rows: seq<nat>, cols: seq<nat>, f: seq<Vector>, g: seq<Vector>, r: nat)
    requires Fooled(mul, m, rows, cols, f, g, r)
    ensures r >= |rows|
  {
    var used := Coordinates(mul, m, rows, cols, f, g, r, |rows|);
    BelowSize(r);
    SubsetSize(used, Below(r));
  }

  /** The pasts and futures of the table are words of the model, with the table's probabilities. */
  ghost predicate Realizes(h: Hmm, m: Table, rows: seq<nat>, cols: seq<nat>, pasts: seq<Word>, futures: seq<Word>)
    requires Inside(m, rows, cols)
  {
    && (forall a :: 0 <= a < |rows| ==> rows[a] < |pasts| && Emits(h, pasts[rows[a]]))
    && (forall b :: 0 <= b < |cols| ==> cols[b] < |futures| && Emits(h, futures[cols[b]]))
    && (forall a, b :: 0 <= a < |rows| && 0 <= b < |cols| ==>
          Chosen(m, rows, cols, a, b) == Probability(Mul, h, pasts[rows[a]] + futures[cols[b]]))
  }

  function Reached(h: Hmm, words: seq<Word>): (r: seq<Vector>)
    ensures |r| == |words| && forall a :: 0 <= a < |r| ==> r[a] == Through(Mul, h, h.initial, words[a])
  {
    seq(|words|, a requires 0 <= a < |words| => Through(Mul, h, h.initial, words[a]))
  }

  function Foreseen(h: Hmm, words: seq<Word>): (r: seq<Vector>)
    ensures |r| == |words| && forall a :: 0 <= a < |r| ==> r[a] == Ahead(Mul, h, words[a])
  {
    seq(|words|, a requires 0 <= a < |words| => Ahead(Mul, h, words[a]))
  }

  function Select(words: seq<Word>, at: seq<nat>): (r: seq<Word>)
    requires forall a :: 0 <= a < |at| ==> at[a] < |words|
    ensures |r| == |at| && forall a :: 0 <= a < |r| ==> r[a] == words[at[a]]
  {
    seq(|at|, a requires 0 <= a < |at| => words[at[a]])
  }

  /** Every valid model of a process whose table has a fooling set of t entries has at least t states. */
  lemma HmmNeedsStates(h: Hmm, m: Table, rows: seq<nat>, cols: seq<nat>, pasts: seq<Word>, futures: seq<Word>)
    requires HmmValid(h) && Inside(m, rows, cols) && FoolingOk(m, rows, cols)
    requires Realizes(h, m, rows, cols, pasts, futures)
    ensures h.states >= |rows|
  {
    RealsSigned();
    var us, ws := Select(pasts, rows), Select(futures, cols);
    var f, g := Reached(h, us), Foreseen(h, ws);
    forall a | 0 <= a < |rows| ensures NonNegative(f[a], h.states) && NonNegative(g[a], h.states) {
      ThroughNonNegative(Mul, h, h.initial, us[a]);
      AheadNonNegative(Mul, h, ws[a]);
    }
    forall a, b | 0 <= a < |rows| && 0 <= b < |cols|
      ensures Chosen(m, rows, cols, a, b) == Dot(Mul, f[a], g[b], h.states)
    {
      SplitProbability(Mul, h, us[a], ws[b]);
    }
    FoolingBound(Mul, m, rows, cols, f, g, h.states);
  }
}
