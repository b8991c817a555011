/** The witness processes: the even process and the two-mode process, for which parameters the
    certificates of every order accept, and a chain that needs four states. */
module Witnesses {
  import opened Determinant
  import opened Elimination
  import opened Quadratic
  import opened Processes
  import opened OrderSeparation

  function Matrix2(a: real, b: real, c: real, d: real): Matrix {
    (i: nat) => (j: nat) => if i == 0 then (if j == 0 then a else b) else (if j == 0 then c else d)
  }

  function Vector2(a: real, b: real): Vector {
    (i: nat) => if i == 0 then a else b
  }

  function TwoStates(p0: real, p1: real, t0: Matrix, t1: Matrix): Hmm {
    Hmm(2, Vector2(p0, p1), [0, 1], (s: int) => if s == 0 then t0 else t1)
  }

  lemma RowTotal(h: Hmm, i: nat)
    requires h.states == 2 && h.symbols == [0, 1]
    ensures Sum(TotalRow(h, i, 2), 2) == h.emits(0)(i)(0) + h.emits(1)(i)(0) + h.emits(0)(i)(1) + h.emits(1)(i)(1)
  {
    SumTwo(TotalRow(h, i, 2));
    forall j: nat ensures TotalRow(h, i, 2)(j) == h.emits(0)(i)(j) + h.emits(1)(i)(j) {
      assert TotalEntry(h, i, j, 1) == TotalEntry(h, i, j, 0) + h.emits(h.symbols[0])(i)(j);
    }
  }

  lemma TwoStatesValid(h: Hmm)
    requires h.states == 2 && h.symbols == [0, 1]
    requires NonNegativeMatrix(h.emits(0), 2) && NonNegativeMatrix(h.emits(1), 2)
    requires h.initial(0) >= 0.0 && h.initial(1) >= 0.0 && h.initial(0) + h.initial(1) == 1.0
    requires forall i: nat :: i < 2 ==>
      h.emits(0)(i)(0) + h.emits(1)(i)(0) + h.emits(0)(i)(1) + h.emits(1)(i)(1) == 1.0
    ensures HmmValid(h)
  {
    SumTwo(h.initial);
    RowTotal(h, 0);
    RowTotal(h, 1);
  }

  lemma AheadTwo(h: Hmm, s: int, i: nat)
    requires h.states == 2
    ensures Ahead(Mul, h, [s])(i) == h.emits(s)(i)(0) + h.emits(s)(i)(1)
  {
    assert [s][0] == s && [s][1..] == [];
    assert Ahead(Mul, h, []) == Ones();
    assert Ahead(Mul, h, [s]) == Apply(Mul, h.emits(s), Ones(), 2);
    DotTwo(h.emits(s)(i), Ones());
  }

  lemma ReachOne(h: Hmm, s: int, j: nat)
    requires h.states == 2
    ensures Reach(h, [s])(j) == Mul(h.initial(0), h.emits(s)(0)(j)) + Mul(h.initial(1), h.emits(s)(1)(j))
  {
    assert [s][0] == s && [s][1..] == [];
    assert Through(Mul, h, h.initial, [s]) == Through(Mul, h, VecMat(Mul, h.initial, h.emits(s), 2), []);
    DotTwo(h.initial, Column(h.emits(s), j));
  }

  lemma ProbabilityOne(h: Hmm, s: int)
    requires h.states == 2
    ensures Probability(Mul, h, [s]) == Reach(h, [s])(0) + Reach(h, [s])(1)
  {
    SumTwo(Reach(h, [s]));
  }

  /** Two pasts of one symbol each. */
  lemma FirstCertificate(h: Hmm, c: Separation, s: int, t: int, cross: real)
    requires h.states == 2 && c.pre1 == [s] && c.pre2 == [t]
    requires cross == Cross(Reach(h, [s]), Reach(h, [t]))
    requires Probability(Mul, h, [s]) > 0.0 && Probability(Mul, h, [t]) > 0.0
    ensures Gap(h, [s], [t], c.a) == Mul(Contrast(h, c.a), cross)
    ensures Separates(h, c, 0) <==> Contrast(h, c.a) != 0.0 && cross != 0.0
  {
    assert Past1(c, 0) == [s] && Past2(c, 0) == [t];
    GapIsCross(h, [s], [t], c.a);
    NonzeroProduct(Contrast(h, c.a), cross);
  }

  // ----- The even process

  function EvenProcess(): Hmm {
    TwoStates(2.0 / 3.0, 1.0 / 3.0, Matrix2(0.5, 0.0, 0.0, 0.0), Matrix2(0.0, 0.5, 1.0, 0.0))
  }

  const EVEN: Separation := Separation(1, [0], [1], 1)

  lemma EvenValid()
    ensures HmmValid(EvenProcess())
  {
    TwoStatesValid(EvenProcess());
  }

  lemma EvenReaches()
    ensures Reach(EvenProcess(), [0])(0) == 1.0 / 3.0 && Reach(EvenProcess(), [0])(1) == 0.0
    ensures Reach(EvenProcess(), [1])(0) == 1.0 / 3.0 && Reach(EvenProcess(), [1])(1) == 1.0 / 3.0
    ensures Probability(Mul, EvenProcess(), [0]) > 0.0 && Probability(Mul, EvenProcess(), [1]) > 0.0
  {
    var h := EvenProcess();
    ReachOne(h, 0, 0);
    ReachOne(h, 0, 1);
    ReachOne(h, 1, 0);
    ReachOne(h, 1, 1);
    ProbabilityOne(h, 0);
    ProbabilityOne(h, 1);
  }

  lemma EvenFirst()
    ensures Separates(EvenProcess(), EVEN, 0)
  {
    var h := EvenProcess();
    EvenReaches();
    AheadTwo(h, 1, 0);
    AheadTwo(h, 1, 1);
    FirstCertificate(h, EVEN, 0, 1, Cross(Reach(h, [0]), Reach(h, [1])));
  }

  lemma EvenGoesOn()
    ensures AlwaysEmits(EvenProcess(), 1) && Det2(EvenProcess().emits(1)) != 0.0
  {
    AheadTwo(EvenProcess(), 1, 0);
    AheadTwo(EvenProcess(), 1, 1);
  }

  /** The even process is valid, and its certificate of every order accepts. */
  lemma EvenProcessSeparates(k: nat)
    ensures HmmValid(EvenProcess()) && Separates(EvenProcess(), EVEN, k) && !MarkovOfOrder(EvenProcess(), k)
  {
    EvenValid();
    EvenFirst();
    EvenGoesOn();
    SeparatesForever(EvenProcess(), EVEN, k);
  }

  // ----- The symmetric two-mode process

  /** Mode 0 emits 1 with probability q, mode 1 with probability 1 - q; the mode flips with probability e. */
  function TwoMode(q: real, e: real): Hmm {
    TwoStates(0.5, 0.5,
      Matrix2((1.0 - q) * (1.0 - e), (1.0 - q) * e, q * e, q * (1.0 - e)),
      Matrix2(q * (1.0 - e), q * e, (1.0 - q) * e, (1.0 - q) * (1.0 - e)))
  }

  const TWO_MODE: Separation := Separation(0, [0], [1], 0)

  lemma ShareOut(x: real, e: real)
    ensures x * (1.0 - e) + x * e == x == x * e + x * (1.0 - e)
  {
  }

  lemma TwoModeSigns(q: real, e: real)
    requires 0.0 <= q <= 1.0 && 0.0 <= e <= 1.0
    ensures q * e >= 0.0 && q * (1.0 - e) >= 0.0 && (1.0 - q) * e >= 0.0 && (1.0 - q) * (1.0 - e) >= 0.0
  {
    ProductSign(q, e);
    ProductSign(q, 1.0 - e);
    ProductSign(1.0 - q, e);
    ProductSign(1.0 - q, 1.0 - e);
  }

  lemma TwoModeValid(q: real, e: real)
    requires 0.0 <= q <= 1.0 && 0.0 <= e <= 1.0
    ensures HmmValid(TwoMode(q, e))
  {
    TwoModeSigns(q, e);
    ShareOut(q, e);
    ShareOut(1.0 - q, e);
    TwoStatesValid(TwoMode(q, e));
  }

  lemma TwoModeContrast(q: real, e: real)
    ensures Contrast(TwoMode(q, e), 0) == 1.0 - 2.0 * q
    ensures Ahead(Mul, TwoMode(q, e), [0])(0) == 1.0 - q && Ahead(Mul, TwoMode(q, e), [0])(1) == q
  {
    AheadTwo(TwoMode(q, e), 0, 0);
    AheadTwo(TwoMode(q, e), 0, 1);
    ShareOut(q, e);
    ShareOut(1.0 - q, e);
  }

  /** After one symbol: the two modes' posterior weights. */
  lemma TwoModeReach(q: real, e: real, big: real, small: real)
    requires big == ((1.0 - q) * (1.0 - e) + q * e) / 2.0 && small == ((1.0 - q) * e + q * (1.0 - e)) / 2.0
    ensures Reach(TwoMode(q, e), [0])(0) == big && Reach(TwoMode(q, e), [0])(1) == small
    ensures Reach(TwoMode(q, e), [1])(0) == small && Reach(TwoMode(q, e), [1])(1) == big
  {
    var h := TwoMode(q, e);
    ReachOne(h, 0, 0);
    ReachOne(h, 0, 1);
    ReachOne(h, 1, 0);
    ReachOne(h, 1, 1);
  }

  lemma TwoModeWeights(q: real, e: real)
    ensures ((1.0 - q) * (1.0 - e) + q * e) + ((1.0 - q) * e + q * (1.0 - e)) == 1.0
    ensures ((1.0 - q) * (1.0 - e) + q * e) - ((1.0 - q) * e + q * (1.0 - e)) == (1.0 - 2.0 * q) * (1.0 - 2.0 * e)
  {
  }

  lemma TwoModeCross(q: real, e: real)
    ensures Cross(Reach(TwoMode(q, e), [0]), Reach(TwoMode(q, e), [1])) == ((1.0 - 2.0 * q) * (1.0 - 2.0 * e)) / 4.0
    ensures Probability(Mul, TwoMode(q, e), [0]) == 0.5 && Probability(Mul, TwoMode(q, e), [1]) == 0.5
  {
    var big, small := ((1.0 - q) * (1.0 - e) + q * e) / 2.0, ((1.0 - q) * e + q * (1.0 - e)) / 2.0;
    TwoModeReach(q, e, big, small);
    TwoModeWeights(q, e);
    ProbabilityOne(TwoMode(q, e), 0);
    ProbabilityOne(TwoMode(q, e), 1);
    DifferenceOfSquares(big, small);
  }

  lemma DifferenceOfSquares(big: real, small: real)
    requires big + small == 0.5
    ensures Mul(big, big) - Mul(small, small) == (big - small) / 2.0
  {
    assert big * big - small * small == (big - small) * (big + small);
  }

  lemma TwoModeDeterminant(q: real, e: real)
    ensures Det2(TwoMode(q, e).emits(0)) == (q * (1.0 - q)) * (1.0 - 2.0 * e)
  {
    var p, f := 1.0 - q, 1.0 - e;
    assert (p * f) * (q * f) == (q * p) * (f * f);
    assert (p * e) * (q * e) == (q * p) * (e * e);
    assert f * f - e * e == 1.0 - 2.0 * e;
    assert (q * p) * (f * f) - (q * p) * (e * e) == (q * p) * (f * f - e * e);
  }

  lemma ZeroCases(q: real, e: real)
    ensures (1.0 - 2.0 * q) * (1.0 - 2.0 * e) != 0.0 <==> q != 0.5 && e != 0.5
    ensures (q * (1.0 - q)) * (1.0 - 2.0 * e) != 0.0 <==> q != 0.0 && q != 1.0 && e != 0.5
  {
    NonzeroProduct(1.0 - 2.0 * q, 1.0 - 2.0 * e);
    NonzeroProduct(q * (1.0 - q), 1.0 - 2.0 * e);
    NonzeroProduct(q, 1.0 - q);
  }

  lemma TwoModeFirst(q: real, e: real)
    requires 0.0 <= q <= 1.0 && 0.0 <= e <= 1.0
    ensures Separates(TwoMode(q, e), TWO_MODE, 0) <==> q != 0.5 && e != 0.5
  {
    var h := TwoMode(q, e);
    TwoModeContrast(q, e);
    TwoModeCross(q, e);
    ZeroCases(q, e);
    FirstCertificate(h, TWO_MODE, 0, 1, Cross(Reach(h, [0]), Reach(h, [1])));
  }

  lemma TwoModeSecondFails(q: real, e: real)
    requires q == 0.0 || q == 1.0
    ensures !Separates(TwoMode(q, e), TWO_MODE, 1)
  {
    var h := TwoMode(q, e);
    TwoModeDeterminant(q, e);
    ZeroCases(q, e);
    GapPower(h, TWO_MODE, 1);
    NonzeroPower(Det2(h.emits(0)), 1);
    NonzeroProduct(Gap(h, [0], [1], 0), RealPower(Det2(h.emits(0)), 1));
  }

  lemma TwoModeEmits(q: real, e: real)
    requires 0.0 < q < 1.0
    ensures AlwaysEmits(TwoMode(q, e), 0)
  {
    TwoModeContrast(q, e);
  }

  lemma TwoModeInvertible(q: real, e: real)
    requires 0.0 < q < 1.0 && e != 0.5
    ensures Det2(TwoMode(q, e).emits(0)) != 0.0
  {
    TwoModeDeterminant(q, e);
    NonzeroProduct(q, 1.0 - q);
    NonzeroProduct(q * (1.0 - q), 1.0 - 2.0 * e);
    assert Mul(q * (1.0 - q), 1.0 - 2.0 * e) == (q * (1.0 - q)) * (1.0 - 2.0 * e);
  }

  lemma SeparatesFromStart(h: Hmm, k: nat)
    requires HmmValid(h) && h.states == 2 && h.symbols == [0, 1] && AlwaysEmits(h, 0)
    requires Separates(h, TWO_MODE, 0) && Det2(h.emits(0)) != 0.0
    ensures Separates(h, TWO_MODE, k) && !MarkovOfOrder(h, k)
  {
    assert Emits(h, [0]) && Emits(h, [1]);
    SeparatesForever(h, TWO_MODE, k);
  }

  lemma TwoModeSeparatesAll(q: real, e: real, k: nat)
    requires 0.0 < q < 1.0 && 0.0 <= e <= 1.0 && q != 0.5 && e != 0.5
    ensures Separates(TwoMode(q, e), TWO_MODE, k) && !MarkovOfOrder(TwoMode(q, e), k)
  {
    TwoModeValid(q, e);
    TwoModeFirst(q, e);
    TwoModeEmits(q, e);
    TwoModeInvertible(q, e);
    SeparatesFromStart(TwoMode(q, e), k);
  }

  /** The certificates of all orders accept exactly when both symbols are uncertain, the modes emit
      differently and the mode has memory. The default q = 3/4, e = 1/8 is such a case. */
  lemma TwoModeSeparates(q: real, e: real)
    requires 0.0 <= q <= 1.0 && 0.0 <= e <= 1.0
    ensures (forall k: nat :: Separates(TwoMode(q, e), TWO_MODE, k)) <==> 0.0 < q < 1.0 && q != 0.5 && e != 0.5
  {
    if 0.0 < q < 1.0 && q != 0.5 && e != 0.5 {
      forall k: nat ensures Separates(TwoMode(q, e), TWO_MODE, k) {
        TwoModeSeparatesAll(q, e, k);
      }
    } else if q == 0.0 || q == 1.0 {
      TwoModeSecondFails(q, e);
    } else {
      TwoModeFirst(q, e);
    }
  }
}
