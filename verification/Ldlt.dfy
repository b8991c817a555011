/** The LDL^T certificate. */
module Ldlt {
  // The integer LDL^T certificate read off the fraction-free tableaux: it reproduces the matrix, it is
  // found exactly for the positive definite matrices, and a checked certificate proves definiteness.

  import opened Arith
  import opened Congruence
  import opened Determinant
  import opened Elimination
  import opened Bareiss
  import Q = Quadratic

  // ----- The minors of a symmetric matrix

  ghost predicate SymmetricAt(b: Minors, k: nat) {
    forall i, j :: b(k, i, j) == b(k, j, i)
  }

  /** The reals, as far as these proofs see them. */
  ghost predicate Setting(mul: Product, div: Product) {
    && Q.Ordered(mul)
    && Telescoping(mul, div)
    && forall x, p :: DivisionLaws(div, x, p)
  }

  ghost predicate DivisionLaws(div: Product, x: real, p: real) {
    div(0.0, p) == 0.0 && div(x, 1.0) == x && (p > 0.0 && div(x, p) > 0.0 ==> x > 0.0)
  }

  /** What Sylvester's identity becomes when divided through by two nonzero leading minors. */
  ghost predicate TelescopesAt(mul: Product, div: Product, p: real, q: real, x: real, y: real, u: real, v: real) {
    (p != 0.0 && q != 0.0 && mul(p, y) == mul(x, q) - mul(u, v))
    ==> mul(div(1.0, mul(p, q)), mul(u, v)) == div(x, p) - div(y, q)
  }

  ghost predicate Telescoping(mul: Product, div: Product) {
    forall p, q, x, y, u, v :: TelescopesAt(mul, div, p, q, x, y, u, v)
  }

  lemma CancelLeft(mul: Product, p: real, x: real, y: real)
    requires Q.Ordered(mul) && p != 0.0 && mul(p, x) == mul(p, y)
    ensures x == y
  {
    assert Laws(mul, x, -y, p) && Laws(mul, y, 0.0, p);
    assert Q.OrderLaws(mul, p, x - y);
    assert x - y == x + -y;
  }

  lemma NextSymmetric(mul: Product, b: Minors, k: nat, i: nat, j: nat)
    requires Q.Ordered(mul) && Fits(mul, b) && NonzeroTo(b, k) && SymmetricAt(b, k)
    ensures b(k + 1, i, j) == b(k + 1, j, i)
  {
    assert SylvesterAt(mul, b, k, i, j) && SylvesterAt(mul, b, k, j, i);
    assert b(k, i, j) == b(k, j, i) && b(k, i, k) == b(k, k, i) && b(k, k, j) == b(k, j, k);
    assert Laws(mul, b(k, i, k), b(k, k, j), 0.0);
    assert k == 0 || Leading(b, k) != 0.0;
    CancelLeft(mul, Leading(b, k), b(k + 1, i, j), b(k + 1, j, i));
  }

  lemma {:induction false} SymmetryKept(mul: Product, b: Minors, k: nat)
    requires Q.Ordered(mul) && Fits(mul, b) && NonzeroTo(b, k - 1) && SymmetricAt(b, 0)
    ensures SymmetricAt(b, k)
  {
    if k > 0 {
      SymmetryKept(mul, b, k - 1);
      forall i, j ensures b(k, i, j) == b(k, j, i) {
        NextSymmetric(mul, b, k - 1, i, j);
      }
    }
  }

  /** A minor that borders the block with one of its own rows or columns is zero. */
  lemma {:induction false} RepeatedIsZero(mul: Product, b: Minors, k: nat, i: nat, j: nat)
    requires Q.Ordered(mul) && Fits(mul, b) && NonzeroTo(b, k - 1) && (i < k || j < k)
    ensures b(k, i, j) == 0.0
    decreases k
  {
    var l := k - 1;
    assert SylvesterAt(mul, b, l, i, j);
    if i < l {
      RepeatedIsZero(mul, b, l, i, j);
      RepeatedIsZero(mul, b, l, i, l);
      assert Laws(mul, 0.0, 0.0, b(l, l, l)) && Laws(mul, 0.0, 0.0, b(l, l, j));
    } else if j < l {
      RepeatedIsZero(mul, b, l, i, j);
      RepeatedIsZero(mul, b, l, l, j);
      assert Laws(mul, 0.0, 0.0, b(l, l, l)) && Laws(mul, 0.0, 0.0, b(l, i, l));
    } else {
      assert Laws(mul, b(l, i, j), b(l, l, l), 0.0);
    }
    assert Laws(mul, 0.0, 0.0, Leading(b, l));
    assert l == 0 || Leading(b, l) != 0.0;
    CancelLeft(mul, Leading(b, l), b(k, i, j), 0.0);
  }

  // ----- The decomposition

  function Columns(b: Minors): Q.Vectors {
    (l: nat) => (i: nat) => b(l, i, l)
  }

  function Weights(mul: Product, div: Product, b: Minors): Q.Vector {
    (l: nat) => div(1.0, mul(Leading(b, l), Leading(b, l + 1)))
  }

  function Remainder(div: Product, b: Minors, i: nat, j: nat): Q.Vector {
    (k: nat) => div(b(k, i, j), Leading(b, k))
  }

  lemma QuotientIs(x: real, p: real, r: real)
    requires p != 0.0 && r * p == x
    ensures x / p == r
  {
    assert (x / p - r) * p == 0.0;
  }

  lemma TelescopeStep(p: real, q: real, x: real, y: real, u: real, v: real)
    requires p != 0.0 && q != 0.0 && Mul(p, y) == Mul(x, q) - Mul(u, v)
    ensures Mul(Ratio(1.0, Mul(p, q)), Mul(u, v)) == Ratio(x, p) - Ratio(y, q)
  {
    assert p * q != 0.0;
    var w := 1.0 / (p * q);
    assert w * (p * q) == 1.0;
    QuotientIs(x, p, (x * q) * w) by {
      assert ((x * q) * w) * p == x * (w * (p * q));
    }
    QuotientIs(y, q, (y * p) * w) by {
      assert ((y * p) * w) * q == y * (w * (p * q));
    }
    assert w * (u * v) == w * (x * q - p * y);
    assert w * (x * q - p * y) == (x * q) * w - (y * p) * w;
  }

  lemma RealsSetting()
    ensures Setting(Mul, Ratio)
  {
    Q.RealsOrdered();
    forall p, q, x, y, u, v ensures TelescopesAt(Mul, Ratio, p, q, x, y, u, v) {
      if p != 0.0 && q != 0.0 && Mul(p, y) == Mul(x, q) - Mul(u, v) {
        TelescopeStep(p, q, x, y, u, v);
      }
    }
    forall x, p ensures DivisionLaws(Ratio, x, p) {
      if p > 0.0 && Ratio(x, p) > 0.0 {
        assert x == (x / p) * p;
        Q.ProductSign(x / p, p);
      }
    }
  }

  ghost predicate ChainAt(mul: Product, b: Minors, l: nat, i: nat, j: nat) {
    SylvesterAt(mul, b, l, i, j) && b(l, l, j) == b(l, j, l)
  }

  /** Sylvester's identity along the leading minors, all of them nonzero up to k. */
  ghost predicate Chain(mul: Product, b: Minors, k: nat, i: nat, j: nat) {
    NonzeroTo(b, k) && forall l :: 0 <= l < k ==> ChainAt(mul, b, l, i, j)
  }

  lemma ChainStep(mul: Product, div: Product, b: Minors, i: nat, j: nat, l: nat)
    requires Telescoping(mul, div) && ChainAt(mul, b, l, i, j) && Leading(b, l) != 0.0 && Leading(b, l + 1) != 0.0
    ensures Q.SquareTerms(mul, Weights(mul, div, b), Columns(b), i, j)(l)
         == Remainder(div, b, i, j)(l) - Remainder(div, b, i, j)(l + 1)
  {
    var p, q, x, y, u, v := Leading(b, l), Leading(b, l + 1), b(l, i, j), b(l + 1, i, j), b(l, i, l), b(l, l, j);
    assert mul(p, y) == mul(x, q) - mul(u, v);
    assert TelescopesAt(mul, div, p, q, x, y, u, v);
  }

  lemma ChainLink(mul: Product, b: Minors, k: nat, i: nat, j: nat, l: nat)
    requires Chain(mul, b, k, i, j) && l < k
    ensures ChainAt(mul, b, l, i, j) && Leading(b, l) != 0.0 && Leading(b, l + 1) != 0.0
  {
    assert l == 0 || 1 <= l <= k;
  }

  lemma ChainTelescopes(mul: Product, div: Product, b: Minors, k: nat, i: nat, j: nat, f: Q.Vector, r: Q.Vector)
    requires Telescoping(mul, div) && Chain(mul, b, k, i, j)
    requires f == Q.SquareTerms(mul, Weights(mul, div, b), Columns(b), i, j) && r == Remainder(div, b, i, j)
    ensures Q.Differences(f, r, k)
  {
    forall l | 0 <= l < k ensures f(l) == r(l) - r(l + 1) {
      ChainLink(mul, b, k, i, j, l);
      ChainStep(mul, div, b, i, j, l);
    }
  }

  lemma FitsChain(mul: Product, b: Minors, k: nat, i: nat, j: nat)
    requires Q.Ordered(mul) && Fits(mul, b) && NonzeroTo(b, k) && SymmetricAt(b, 0)
    ensures Chain(mul, b, k, i, j)
  {
    forall l | 0 <= l < k ensures ChainAt(mul, b, l, i, j) {
      SymmetryKept(mul, b, l);
      assert SylvesterAt(mul, b, l, i, j);
    }
  }

  ghost predicate Decomposed(mul: Product, div: Product, b: Minors, k: nat, i: nat, j: nat) {
    b(0, i, j) == Q.Sum(Q.SquareTerms(mul, Weights(mul, div, b), Columns(b), i, j), k) + Remainder(div, b, i, j)(k)
  }

  /** After k squares, what is left of the matrix are its bordered minors over the leading one. */
  lemma Decomposition(mul: Product, div: Product, b: Minors, k: nat, i: nat, j: nat)
    requires Setting(mul, div) && Fits(mul, b) && NonzeroTo(b, k) && SymmetricAt(b, 0)
    ensures Decomposed(mul, div, b, k, i, j)
  {
    FitsChain(mul, b, k, i, j);
    var f, r := Q.SquareTerms(mul, Weights(mul, div, b), Columns(b), i, j), Remainder(div, b, i, j);
    ChainTelescopes(mul, div, b, k, i, j, f, r);
    Q.SumTelescopes(f, r, k);
    assert DivisionLaws(div, b(0, i, j), 1.0);
  }

  lemma FullDecomposition(mul: Product, div: Product, b: Minors, n: nat, i: nat, j: nat)
    requires Setting(mul, div) && Fits(mul, b) && NonzeroTo(b, n) && SymmetricAt(b, 0) && i < n && j < n
    ensures b(0, i, j) == Q.Sum(Q.SquareTerms(mul, Weights(mul, div, b), Columns(b), i, j), n)
  {
    Decomposition(mul, div, b, n, i, j);
    RepeatedIsZero(mul, b, n, i, j);
    assert DivisionLaws(div, 0.0, Leading(b, n));
  }

  // ----- Integer certificates

  function RowProduct(l: IntMatrix, d: seq<int>, i: nat, j: nat, k: nat): int
    requires i < |l| && j < |l| && k <= |l[i]| && k <= |l[j]| && k <= |d|
  {
    if k == 0 then 0 else RowProduct(l, d, i, j, k - 1) + l[i][k - 1] * d[k - 1] * l[j][k - 1]
  }

  /** L diag(d) L^T = scale M. */
  ghost predicate Reproduces(m: IntMatrix, l: IntMatrix, d: seq<int>, scale: int) {
    && Square(m) && Square(l) && |l| == |d| == |m| && scale > 0
    && forall i, j :: 0 <= i < |m| && 0 <= j < |m| ==> RowProduct(l, d, i, j, |m|) == scale * m[i][j]
  }

  ghost predicate LowerTriangular(l: IntMatrix)
    requires Square(l)
  {
    && (forall i :: 0 <= i < |l| ==> l[i][i] > 0)
    && (forall i, j :: 0 <= i < j < |l| ==> l[i][j] == 0)
  }

  function ColumnsOf(l: IntMatrix): Q.Vectors {
    (k: nat) => (i: nat) => if i < |l| && k < |l[i]| then l[i][k] as real else 0.0
  }

  function WeightsOf(d: seq<int>): Q.Vector {
    (k: nat) => if k < |d| then d[k] as real else 0.0
  }

  lemma CastTriple(a: int, b: int, c: int)
    ensures (a * b * c) as real == Mul(b as real, Mul(a as real, c as real))
  {
    assert a * b * c == b * (a * c);
    CastProduct(b, a * c);
    CastProduct(a, c);
  }

  lemma {:induction false} RowProductIsGram(l: IntMatrix, d: seq<int>, i: nat, j: nat, k: nat)
    requires i < |l| && j < |l| && k <= |l[i]| && k <= |l[j]| && k <= |d|
    ensures RowProduct(l, d, i, j, k) as real == Q.Gram(Mul, WeightsOf(d), ColumnsOf(l), k)(i)(j)
  {
    if k > 0 {
      RowProductIsGram(l, d, i, j, k - 1);
      CastTriple(l[i][k - 1], d[k - 1], l[j][k - 1]);
    }
  }

  lemma ReproducedEntries(m: IntMatrix, l: IntMatrix, d: seq<int>, scale: int)
    requires Reproduces(m, l, d, scale)
    ensures Q.SameForm(Q.Scaled(Mul, scale as real, Cast(m)), Q.Gram(Mul, WeightsOf(d), ColumnsOf(l), |m|), |m|)
  {
    var a, gram := Q.Scaled(Mul, scale as real, Cast(m)), Q.Gram(Mul, WeightsOf(d), ColumnsOf(l), |m|);
    forall i, j | 0 <= i < |m| && 0 <= j < |m| ensures a(i)(j) == gram(i)(j) {
      RowProductIsGram(l, d, i, j, |m|);
      CastProduct(scale, m[i][j]);
    }
  }

  /** A multiple c of the matrix a is, on n coordinates, the sum of the weighted squares. */
  ghost predicate SumsSquares(mul: Product, c: real, a: Matrix, w: Q.Vector, v: Q.Vectors, n: nat) {
    c > 0.0 && Q.SameForm(Q.Scaled(mul, c, a), Q.Gram(mul, w, v, n), n)
  }

  lemma FormOfSquares(mul: Product, c: real, a: Matrix, w: Q.Vector, v: Q.Vectors, x: Q.Vector, n: nat)
    requires Q.Ordered(mul) && SumsSquares(mul, c, a, w, v, n)
    ensures mul(c, Q.Quad(mul, a, x, n)) == Q.Sum(Q.WeightedSquares(mul, w, v, x, n), n)
  {
    Q.QuadScaled(mul, c, a, x, n);
    Q.QuadSame(mul, Q.Scaled(mul, c, a), Q.Gram(mul, w, v, n), x, n);
    Q.GramQuad(mul, w, v, x, n, n);
  }

  lemma SquaresNonNegative(mul: Product, w: Q.Vector, v: Q.Vectors, x: Q.Vector, n: nat)
    requires Q.Ordered(mul) && Q.NonNegative(w, n)
    ensures Q.NonNegative(Q.WeightedSquares(mul, w, v, x, n), n)
  {
    forall k | 0 <= k < n ensures Q.WeightedSquares(mul, w, v, x, n)(k) >= 0.0 {
      assert Q.OrderLaws(mul, w(k), Q.Dot(mul, v(k), x, n));
    }
  }

  lemma SquaresSemidefinite(mul: Product, c: real, a: Matrix, w: Q.Vector, v: Q.Vectors, x: Q.Vector, n: nat)
    requires Q.Ordered(mul) && SumsSquares(mul, c, a, w, v, n) && Q.NonNegative(w, n)
    ensures Q.Quad(mul, a, x, n) >= 0.0
  {
    FormOfSquares(mul, c, a, w, v, x, n);
    SquaresNonNegative(mul, w, v, x, n);
    Q.SumNonNegative(Q.WeightedSquares(mul, w, v, x, n), n);
    assert Q.OrderLaws(mul, c, Q.Quad(mul, a, x, n));
  }

  /** What the checker accepts is positive semidefinite. */
  lemma AcceptedIsSemidefinite(m: IntMatrix, l: IntMatrix, d: seq<int>, scale: int, x: Q.Vector)
    requires Reproduces(m, l, d, scale) && forall k :: 0 <= k < |d| ==> d[k] >= 0
    ensures Q.Quad(Mul, Cast(m), x, |m|) >= 0.0
  {
    Q.RealsOrdered();
    ReproducedEntries(m, l, d, scale);
    SquaresSemidefinite(Mul, scale as real, Cast(m), WeightsOf(d), ColumnsOf(l), x, |m|);
  }

  /** Column k has a nonzero entry k, and nothing above it. */
  ghost predicate Triangular(v: Q.Vectors, n: nat) {
    && (forall k :: 0 <= k < n ==> v(k)(k) != 0.0)
    && (forall i, k :: 0 <= i < k < n ==> v(k)(i) == 0.0)
  }

  lemma {:induction false} FindLast(x: Q.Vector, n: nat) returns (k: nat)
    requires Q.Nonzero(x, n)
    ensures k < n && x(k) != 0.0 && forall i :: k < i < n ==> x(i) == 0.0
  {
    if x(n - 1) != 0.0 {
      k := n - 1;
    } else {
      assert Q.Nonzero(x, n - 1);
      k := FindLast(x, n - 1);
    }
  }

  /** The last nonzero coordinate of x is seen by its own column alone. */
  lemma LastNonzero(mul: Product, v: Q.Vectors, x: Q.Vector, n: nat, k: nat)
    requires Q.Ordered(mul) && Triangular(v, n) && k < n
    requires x(k) != 0.0 && forall i :: k < i < n ==> x(i) == 0.0
    ensures Q.Dot(mul, v(k), x, n) != 0.0
  {
    forall i | 0 <= i < n && i != k ensures mul(v(k)(i), x(i)) == 0.0 {
      assert Laws(mul, 0.0, 0.0, x(i)) && Laws(mul, 0.0, 0.0, v(k)(i));
    }
    Q.DotSingle(mul, v(k), x, n, k);
    assert Q.OrderLaws(mul, v(k)(k), x(k));
  }

  ghost predicate Positive(w: Q.Vector, n: nat) {
    forall k :: 0 <= k < n ==> w(k) > 0.0
  }

  lemma SquaresDefinite(mul: Product, c: real, a: Matrix, w: Q.Vector, v: Q.Vectors, x: Q.Vector, n: nat)
    requires Q.Ordered(mul) && SumsSquares(mul, c, a, w, v, n) && Positive(w, n) && Triangular(v, n)
    requires Q.Nonzero(x, n)
    ensures Q.Quad(mul, a, x, n) > 0.0
  {
    var k := FindLast(x, n);
    LastNonzero(mul, v, x, n, k);
    assert Q.OrderLaws(mul, w(k), Q.Dot(mul, v(k), x, n));
    SquaresNonNegative(mul, w, v, x, n);
    Q.SumPositive(Q.WeightedSquares(mul, w, v, x, n), n, k);
    FormOfSquares(mul, c, a, w, v, x, n);
    assert Q.OrderLaws(mul, c, Q.Quad(mul, a, x, n));
  }

  /** A certificate with a positive diagonal proves the matrix positive definite. */
  lemma CertifiedIsDefinite(m: IntMatrix, l: IntMatrix, d: seq<int>, scale: int)
    requires Reproduces(m, l, d, scale) && LowerTriangular(l) && forall k :: 0 <= k < |d| ==> d[k] > 0
    ensures Q.PositiveDefinite(Mul, Cast(m), |m|)
  {
    Q.RealsOrdered();
    ReproducedEntries(m, l, d, scale);
    forall x | Q.Nonzero(x, |m|) ensures Q.Quad(Mul, Cast(m), x, |m|) > 0.0 {
      SquaresDefinite(Mul, scale as real, Cast(m), WeightsOf(d), ColumnsOf(l), x, |m|);
    }
  }

  // ----- A positive definite matrix has positive leading minors

  /** The first k columns with the unit vector k after them. */
  function WithUnit(v: Q.Vectors, k: nat): Q.Vectors {
    (l: nat) => if l < k then v(l) else Q.Unit(k)
  }

  function WithWeight(w: Q.Vector, k: nat, c: real): Q.Vector {
    (l: nat) => if l < k then w(l) else c
  }

  ghost predicate Solves(mul: Product, v: Q.Vectors, x: Q.Vector, l: nat, k: nat) {
    && x(k) == 1.0
    && (forall i :: 0 <= i < l && i < k ==> x(i) == 0.0)
    && (forall i :: k < i ==> x(i) == 0.0)
    && (forall i :: l <= i < k ==> Q.Dot(mul, x, v(i), k + 1) == 0.0)
  }

  function Shifted(mul: Product, x: Q.Vector, t: real, l: nat): Q.Vector {
    (i: nat) => x(i) + mul(t, Q.Unit(l)(i))
  }

  lemma SolveStep(mul: Product, v: Q.Vectors, x: Q.Vector, l: nat, k: nat) returns (y: Q.Vector)
    requires Q.Ordered(mul) && Triangular(v, k) && l < k && Solves(mul, v, x, l + 1, k)
    ensures Solves(mul, v, y, l, k)
  {
    var t := Ratio(-Q.Dot(mul, x, v(l), k + 1), v(l)(l));
    y := Shifted(mul, x, t, l);
    forall i: nat | i != l ensures y(i) == x(i) {
      assert Laws(mul, 0.0, 0.0, t);
    }
    forall i | l <= i < k ensures Q.Dot(mul, y, v(i), k + 1) == 0.0 {
      Q.DotCombine(mul, y, x, t, Q.Unit(l), v(i), k + 1);
      Q.DotUnit(mul, l, v(i), k + 1);
      if i == l {
        assert Divides(mul, v(l)(l));
      } else {
        assert Laws(mul, 0.0, 0.0, t);
      }
    }
  }

  lemma {:induction false} Solve(mul: Product, v: Q.Vectors, l: nat, k: nat) returns (x: Q.Vector)
    requires Q.Ordered(mul) && Triangular(v, k) && l <= k
    ensures Solves(mul, v, x, l, k)
    decreases k - l
  {
    if l == k {
      x := Q.Unit(k);
    } else {
      x := Solve(mul, v, l + 1, k);
      x := SolveStep(mul, v, x, l, k);
    }
  }

  lemma SolvedSquares(mul: Product, w: Q.Vector, v: Q.Vectors, x: Q.Vector, k: nat, c: real)
    requires Q.Ordered(mul) && Solves(mul, v, x, 0, k)
    ensures Q.Sum(Q.WeightedSquares(mul, WithWeight(w, k, c), WithUnit(v, k), x, k + 1), k + 1) == c
  {
    var f := Q.WeightedSquares(mul, WithWeight(w, k, c), WithUnit(v, k), x, k + 1);
    forall l | 0 <= l < k ensures f(l) == Q.Zero()(l) {
      Q.DotSymmetric(mul, v(l), x, k + 1);
      assert Laws(mul, 0.0, 0.0, 0.0) && Laws(mul, 0.0, 0.0, w(l));
    }
    Q.SumZero(f, k);
    Q.DotUnit(mul, k, x, k + 1);
    assert Laws(mul, 0.0, 0.0, 1.0) && Laws(mul, 0.0, 0.0, c);
    assert f(k) == c;
  }

  /** A vector on which the form takes the value of the last weight. */
  lemma Witness(mul: Product, a: Matrix, w: Q.Vector, v: Q.Vectors, k: nat, n: nat, c: real) returns (x: Q.Vector)
    requires Q.Ordered(mul) && k < n && Triangular(v, k)
    requires Q.SameForm(a, Q.Gram(mul, WithWeight(w, k, c), WithUnit(v, k), k + 1), k + 1)
    ensures Q.Nonzero(x, n) && Q.Quad(mul, a, x, n) == c
  {
    x := Solve(mul, v, 0, k);
    SolvedSquares(mul, w, v, x, k, c);
    Q.QuadTruncated(mul, a, x, k + 1, n);
    Q.QuadSame(mul, a, Q.Gram(mul, WithWeight(w, k, c), WithUnit(v, k), k + 1), x, k + 1);
    Q.GramQuad(mul, WithWeight(w, k, c), WithUnit(v, k), x, k + 1, k + 1);
  }

  lemma MinorColumnsTriangular(mul: Product, b: Minors, k: nat)
    requires Q.Ordered(mul) && Fits(mul, b) && NonzeroTo(b, k)
    ensures Triangular(Columns(b), k)
  {
    forall l | 0 <= l < k ensures Columns(b)(l)(l) != 0.0 {
      assert Leading(b, l + 1) != 0.0;
    }
    forall i, l | 0 <= i < l < k ensures Columns(b)(l)(i) == 0.0 {
      RepeatedIsZero(mul, b, l, i, l);
    }
  }

  lemma LastSquare(mul: Product, w: Q.Vector, v: Q.Vectors, k: nat, i: nat, j: nat, c: real)
    requires Q.Ordered(mul) && i <= k && j <= k
    ensures Q.Sum(Q.SquareTerms(mul, WithWeight(w, k, c), WithUnit(v, k), i, j), k + 1)
         == Q.Sum(Q.SquareTerms(mul, w, v, i, j), k) + if i == k && j == k then c else 0.0
  {
    var f, g := Q.SquareTerms(mul, WithWeight(w, k, c), WithUnit(v, k), i, j), Q.SquareTerms(mul, w, v, i, j);
    Q.SumSame(f, g, k);
    assert Laws(mul, 0.0, 0.0, Q.Unit(k)(i)) && Laws(mul, 0.0, 0.0, Q.Unit(k)(j)) && Laws(mul, 0.0, 0.0, c);
    assert f(k) == if i == k && j == k then c else 0.0;
  }

  lemma PartialRemainder(mul: Product, div: Product, b: Minors, k: nat, i: nat, j: nat, c: real)
    requires Setting(mul, div) && Fits(mul, b) && NonzeroTo(b, k)
    requires c == div(b(k, k, k), Leading(b, k)) && i <= k && j <= k
    ensures Remainder(div, b, i, j)(k) == if i == k && j == k then c else 0.0
  {
    if i < k || j < k {
      RepeatedIsZero(mul, b, k, i, j);
      assert DivisionLaws(div, 0.0, Leading(b, k));
    }
  }

  /** gram is the sum of squares of the leading block one larger than the minors known to be nonzero. */
  ghost predicate OneLarger(mul: Product, div: Product, b: Minors, k: nat, c: real, gram: Matrix) {
    && Setting(mul, div) && Fits(mul, b) && NonzeroTo(b, k) && SymmetricAt(b, 0)
    && c == div(b(k, k, k), Leading(b, k))
    && gram == Q.Gram(mul, WithWeight(Weights(mul, div, b), k, c), WithUnit(Columns(b), k), k + 1)
  }

  lemma PartialEntry(mul: Product, div: Product, b: Minors, k: nat, i: nat, j: nat, c: real, gram: Matrix)
    requires OneLarger(mul, div, b, k, c, gram) && i <= k && j <= k
    ensures b(0, i, j) == gram(i)(j)
  {
    LastSquare(mul, Weights(mul, div, b), Columns(b), k, i, j, c);
    Decomposition(mul, div, b, k, i, j);
    PartialRemainder(mul, div, b, k, i, j, c);
  }

  ghost predicate EntriesOf(b: Minors, a: Matrix) {
    forall i, j :: a(i)(j) == b(0, i, j)
  }

  lemma {:induction false} PartialRow(mul: Product, div: Product, a: Matrix, b: Minors, k: nat, c: real,
                                      gram: Matrix, i: nat, n: nat)
    requires OneLarger(mul, div, b, k, c, gram) && EntriesOf(b, a) && i <= k && n <= k + 1
    ensures Q.Agree(a(i), gram(i), n)
  {
    if n > 0 {
      PartialRow(mul, div, a, b, k, c, gram, i, n - 1);
      PartialEntry(mul, div, b, k, i, n - 1, c, gram);
    }
  }

  lemma PartialForm(mul: Product, div: Product, a: Matrix, b: Minors, k: nat, c: real, gram: Matrix)
    requires OneLarger(mul, div, b, k, c, gram) && EntriesOf(b, a)
    ensures Q.SameForm(a, gram, k + 1)
  {
    forall i | 0 <= i < k + 1 ensures Q.Agree(a(i), gram(i), k + 1) {
      PartialRow(mul, div, a, b, k, c, gram, i, k + 1);
    }
  }

  lemma NextMinorPositive(mul: Product, div: Product, a: Matrix, b: Minors, k: nat, n: nat)
    requires Setting(mul, div) && Fits(mul, b) && SymmetricAt(b, 0) && EntriesOf(b, a)
    requires k < n && Q.PositiveDefinite(mul, a, n) && (forall i :: 1 <= i <= k ==> Leading(b, i) > 0.0)
    ensures Leading(b, k + 1) > 0.0
  {
    var c := div(b(k, k, k), Leading(b, k));
    var gram := Q.Gram(mul, WithWeight(Weights(mul, div, b), k, c), WithUnit(Columns(b), k), k + 1);
    PartialForm(mul, div, a, b, k, c, gram);
    MinorColumnsTriangular(mul, b, k);
    var x := Witness(mul, a, Weights(mul, div, b), Columns(b), k, n, c);
    assert c > 0.0;
    assert k == 0 || Leading(b, k) > 0.0;
    assert DivisionLaws(div, b(k, k, k), Leading(b, k));
  }

  ghost predicate Symmetric(m: IntMatrix)
    requires Square(m)
  {
    forall i, j :: 0 <= i < |m| && 0 <= j < |m| ==> m[i][j] == m[j][i]
  }

  lemma EntriesSymmetric(m: IntMatrix)
    requires Square(m) && Symmetric(m)
    ensures SymmetricAt(Bordered(m), 0)
  {
    forall i, j ensures Bordered(m)(0, i, j) == Bordered(m)(0, j, i) {
      EntriesAreBordered(m, i, j);
      EntriesAreBordered(m, j, i);
    }
  }

  lemma {:induction false} DefiniteHasPositiveMinors(m: IntMatrix, k: nat)
    requires Square(m) && Symmetric(m) && Q.PositiveDefinite(Mul, Cast(m), |m|) && k <= |m|
    ensures forall i :: 1 <= i <= k ==> Leading(Bordered(m), i) > 0.0
  {
    if k > 0 {
      DefiniteHasPositiveMinors(m, k - 1);
      BorderedFits(m);
      EntriesSymmetric(m);
      forall i, j ensures Cast(m)(i)(j) == Bordered(m)(0, i, j) {
        EntriesAreBordered(m, i, j);
      }
      RealsSetting();
      NextMinorPositive(Mul, Ratio, Cast(m), Bordered(m), k - 1, |m|);
    }
  }

  // ----- Building the certificate

  datatype CertResult =
    | Certificate(l: IntMatrix, d: seq<int>, scale: int)
    | NotPositive
    | ZeroDivisionError

  /** The products of neighbouring minors. */
  function Products(minors: seq<int>): (r: seq<int>)
    requires minors != []
    ensures |r| == |minors| - 1
  {
    seq(|minors| - 1, k requires 0 <= k < |minors| - 1 => minors[k] * minors[k + 1])
  }

  /** x is a common multiple of the first n products. */
  ghost predicate CommonTo(x: int, products: seq<int>, n: nat)
    requires n <= |products|
  {
    forall k :: 0 <= k < n ==> IsMultiple(x, products[k])
  }

  /** And every other one is a multiple of it. */
  ghost predicate LeastCommon(x: int, products: seq<int>, n: nat)
    requires n <= |products|
  {
    x > 0 && CommonTo(x, products, n) && forall y :: CommonTo(y, products, n) ==> IsMultiple(y, x)
  }

  lemma LeastGrows(x: nat, products: seq<int>, i: nat)
    requires i < |products| && products[i] > 0 && LeastCommon(x, products, i)
    ensures LeastCommon(Lcm(x, products[i]), products, i + 1)
  {
    var next := Lcm(x, products[i]);
    LcmMultiple(x, products[i]);
    forall k | 0 <= k < i ensures IsMultiple(next, products[k]) {
      MultipleTransitive(next, x, products[k]);
    }
    forall y | CommonTo(y, products, i + 1) ensures IsMultiple(y, next) {
      assert CommonTo(y, products, i);
      LcmLeast(x, products[i], y);
    }
  }

  /** The least common multiple of positive numbers, folded from the left. */
  method CommonMultiple(products: seq<int>) returns (scale: int)
    requires forall k :: 0 <= k < |products| ==> products[k] > 0
    ensures LeastCommon(scale, products, |products|)
  {
    scale := 1;
    forall y ensures IsMultiple(y, 1) {
      assert IsTimes(y, 1, y);
    }
    for i := 0 to |products|
      invariant LeastCommon(scale, products, i)
    {
      LeastGrows(scale, products, i);
      scale := Lcm(scale, products[i]);
    }
  }

  /** No integer above 1 divides the scale and every weight. */
  ghost predicate Primitive(scale: int, d: seq<int>) {
    forall g :: g > 1 ==> !DividesAll(g, scale, d)
  }

  ghost predicate DividesAll(g: int, scale: int, d: seq<int>) {
    IsMultiple(scale, g) && forall k :: 0 <= k < |d| ==> IsMultiple(d[k], g)
  }

  lemma SharedFactor(g: int, e: int, s: int, p: int)
    requires g > 0 && (g * e) * p == g * s
    ensures s == p * e
  {
    assert (g * e) * p == g * (p * e);
    CancelLe(g, s, p * e);
    CancelLe(g, p * e, s);
  }

  lemma NoProperPart(g: int, s: int, u: int)
    requires g > 1 && g * s > 0
    ensures s != (g * s) * u
  {
    if s == (g * s) * u {
      CancelLt(g, 0, s);
      assert (g * s) * u == s * (g * u);
      CancelFactor(s, 1, g * u);
      CancelLt(g, 0, u);
      CancelLt(g, u, 1);
    }
  }

  /** Over the least common multiple of the products the weights are in lowest terms. */
  lemma LeastIsPrimitive(scale: int, products: seq<int>, d: seq<int>)
    requires LeastCommon(scale, products, |products|) && |d| == |products|
    requires forall k :: 0 <= k < |d| ==> d[k] * products[k] == scale
    ensures Primitive(scale, d)
  {
    forall g | g > 1 ensures !DividesAll(g, scale, d) {
      if DividesAll(g, scale, d) {
        var s :| IsTimes(scale, g, s);
        forall k | 0 <= k < |products| ensures IsMultiple(s, products[k]) {
          var e :| IsTimes(d[k], g, e);
          SharedFactor(g, e, s, products[k]);
          assert IsTimes(s, products[k], e);
        }
        assert CommonTo(s, products, |products|);
        var u :| IsTimes(s, scale, u);
        NoProperPart(g, s, u);
      }
    }
  }

  ghost predicate Squares(history: seq<IntMatrix>, n: nat) {
    forall k :: 0 <= k < |history| ==> |history[k]| == n && Square(history[k])
  }

  /** The minors on the diagonal, and the pivot columns of the tableaux below it. */
  function LowerEntry(minors: seq<int>, history: seq<IntMatrix>, n: nat, i: nat, k: nat): int
    requires |minors| == n + 1 && n <= |history| && Squares(history, n) && i < n && k < n
  {
    if i == k then minors[k + 1] else if k < i then history[k][i][k] else 0
  }

  method FillLower(minors: seq<int>, history: seq<IntMatrix>, n: nat) returns (l: IntMatrix)
    requires |minors| == n + 1 && n <= |history| && Squares(history, n)
    ensures |l| == n && Square(l)
    ensures forall i, k :: 0 <= i < n && 0 <= k < n ==> l[i][k] == LowerEntry(minors, history, n, i, k)
  {
    l := seq(n, i => seq(n, j => 0));
    for k := 0 to n
      invariant |l| == n && Square(l)
      invariant forall i, j :: 0 <= i < n && 0 <= j < n ==>
        l[i][j] == if j < k then LowerEntry(minors, history, n, i, j) else 0
    {
      l := l[k := l[k][k := minors[k + 1]]];
      for i := k + 1 to n
        invariant |l| == n && Square(l)
        invariant forall x, j :: 0 <= x < n && 0 <= j < n ==>
          l[x][j] == if j < k || (j == k && x < i) then LowerEntry(minors, history, n, x, j) else 0
      {
        l := l[i := l[i][k := history[k][i][k]]];
      }
    }
  }

  /** d undoes the products, and L holds the columns of minors. */
  ghost predicate ReadsOff(b: Minors, l: IntMatrix, d: seq<int>, scale: int, n: nat) {
    && |l| == n && Square(l) && |d| == n && scale > 0
    && (forall i, k :: 0 <= i < n && 0 <= k < n ==> l[i][k] as real == b(k, i, k))
    && (forall k :: 0 <= k < n ==> Mul(d[k] as real, Mul(Leading(b, k), Leading(b, k + 1))) == scale as real)
  }

  lemma WeightIs(d: real, p: real, scale: real)
    requires p != 0.0 && Mul(d, p) == scale
    ensures d == Mul(scale, Ratio(1.0, p))
  {
    var r := 1.0 / p;
    assert r * p == 1.0;
    assert scale * r == d * (p * r);
  }

  lemma ScaledTerms(mul: Product, div: Product, b: Minors, l: IntMatrix, d: seq<int>, scale: real, n: nat, i: nat,
                    j: nat)
    requires Multiplies(mul) && |l| == n && Square(l) && |d| == n && i < n && j < n
    requires forall i, k :: 0 <= i < n && 0 <= k < n ==> l[i][k] as real == b(k, i, k)
    requires forall k :: 0 <= k < n ==> d[k] as real == mul(scale, Weights(mul, div, b)(k))
    ensures Q.Sum(Q.SquareTerms(mul, WeightsOf(d), ColumnsOf(l), i, j), n)
         == mul(scale, Q.Sum(Q.SquareTerms(mul, Weights(mul, div, b), Columns(b), i, j), n))
  {
    var f := Q.SquareTerms(mul, WeightsOf(d), ColumnsOf(l), i, j);
    var g := Q.SquareTerms(mul, Weights(mul, div, b), Columns(b), i, j);
    forall k | 0 <= k < n ensures f(k) == Q.Zero()(k) + mul(scale, g(k)) {
      assert l[i][k] as real == b(k, i, k) && l[j][k] as real == b(k, j, k);
      assert Laws(mul, Weights(mul, div, b)(k), mul(b(k, i, k), b(k, j, k)), scale);
    }
    Q.SumScaled(mul, f, scale, g, n);
  }

  lemma WeightsScaled(b: Minors, l: IntMatrix, d: seq<int>, scale: int, n: nat)
    requires ReadsOff(b, l, d, scale, n) && NonzeroTo(b, n)
    ensures forall k :: 0 <= k < n ==> d[k] as real == Mul(scale as real, Weights(Mul, Ratio, b)(k))
  {
    forall k | 0 <= k < n ensures d[k] as real == Mul(scale as real, Weights(Mul, Ratio, b)(k)) {
      assert Leading(b, k + 1) != 0.0;
      assert k == 0 || Leading(b, k) != 0.0;
      var p := Mul(Leading(b, k), Leading(b, k + 1));
      assert p != 0.0;
      WeightIs(d[k] as real, p, scale as real);
    }
  }

  lemma RowIsScaled(mul: Product, div: Product, b: Minors, l: IntMatrix, d: seq<int>, scale: real, n: nat,
                    i: nat, j: nat, row: real)
    requires Setting(mul, div) && Fits(mul, b) && NonzeroTo(b, n) && SymmetricAt(b, 0)
    requires |l| == n && Square(l) && |d| == n && i < n && j < n
    requires forall i, k :: 0 <= i < n && 0 <= k < n ==> l[i][k] as real == b(k, i, k)
    requires forall k :: 0 <= k < n ==> d[k] as real == mul(scale, Weights(mul, div, b)(k))
    requires row == Q.Gram(mul, WeightsOf(d), ColumnsOf(l), n)(i)(j)
    ensures row == mul(scale, b(0, i, j))
  {
    ScaledTerms(mul, div, b, l, d, scale, n, i, j);
    FullDecomposition(mul, div, b, n, i, j);
  }

  lemma RowFromMinors(b: Minors, l: IntMatrix, d: seq<int>, scale: int, n: nat, i: nat, j: nat, row: real)
    requires Fits(Mul, b) && NonzeroTo(b, n) && SymmetricAt(b, 0) && ReadsOff(b, l, d, scale, n) && i < n && j < n
    requires row == Q.Gram(Mul, WeightsOf(d), ColumnsOf(l), n)(i)(j)
    ensures row == Mul(scale as real, b(0, i, j))
  {
    RealsSetting();
    WeightsScaled(b, l, d, scale, n);
    RowIsScaled(Mul, Ratio, b, l, d, scale as real, n, i, j, row);
  }

  lemma SameInteger(row: int, scale: int, entry: int)
    requires row as real == Mul(scale as real, entry as real)
    ensures row == scale * entry
  {
    CastProduct(scale, entry);
  }

  lemma EntryReproduced(b: Minors, m: IntMatrix, l: IntMatrix, d: seq<int>, scale: int, n: nat, i: nat, j: nat,
                        row: int)
    requires Fits(Mul, b) && NonzeroTo(b, n) && SymmetricAt(b, 0) && ReadsOff(b, l, d, scale, n)
    requires |m| == n && Square(m) && i < n && j < n && m[i][j] as real == b(0, i, j)
    requires row as real == Q.Gram(Mul, WeightsOf(d), ColumnsOf(l), n)(i)(j)
    ensures row == scale * m[i][j]
  {
    RowFromMinors(b, l, d, scale, n, i, j, row as real);
    SameInteger(row, scale, m[i][j]);
  }

  ghost predicate PositiveMinors(minors: seq<int>) {
    forall k :: 1 <= k < |minors| ==> minors[k] > 0
  }

  lemma LowerReadsOff(b: Minors, n: nat, minors: seq<int>, history: seq<IntMatrix>, i: nat, k: nat)
    requires Fits(Mul, b) && NonzeroTo(b, n) && Computes(b, n, Tableaux(minors, history)) && i < n && k < n
    requires Squares(history, n)
    ensures LowerEntry(minors, history, n, i, k) as real == b(k, i, k)
  {
    if i < k {
      Q.RealsOrdered();
      RepeatedIsZero(Mul, b, k, i, k);
    } else if i == k {
      assert minors[k + 1] as real == Leading(b, k + 1);
    } else {
      assert Holds(b, n, k, history[k]);
      assert Min3(k, i, k) == k;
    }
  }

  lemma QuotientExact(p: int, q: int, scale: int) returns (d: int)
    requires p > 0 && q > 0 && scale > 0 && IsMultiple(scale, p * q)
    ensures p * q > 0 && d == scale / (p * q) && d > 0 && d * (p * q) == scale
    ensures Mul(d as real, Mul(p as real, q as real)) == scale as real
  {
    ProductPositive(p, q);
    var t :| IsTimes(scale, p * q, t);
    DivideProduct(p * q, t);
    d := t;
    CancelLt(p * q, 0, t);
    CastProduct(p, q);
    CastProduct(d, p * q);
    assert d * (p * q) == scale;
  }

  lemma DiagonalReadsOff(b: Minors, n: nat, minors: seq<int>, scale: int, d: seq<int>, k: nat)
    requires |minors| == n + 1 && |d| == n && k < n && scale > 0 && minors[0] == 1 && PositiveMinors(minors)
    requires (forall i :: 0 <= i <= n ==> minors[i] as real == Leading(b, i))
    requires IsMultiple(scale, minors[k] * minors[k + 1]) && minors[k] * minors[k + 1] > 0
    requires d[k] == scale / (minors[k] * minors[k + 1])
    ensures d[k] > 0 && Mul(d[k] as real, Mul(Leading(b, k), Leading(b, k + 1))) == scale as real
    ensures d[k] * (minors[k] * minors[k + 1]) == scale
  {
    var q := QuotientExact(minors[k], minors[k + 1], scale);
  }

  lemma LowerIsTriangular(l: IntMatrix, minors: seq<int>, history: seq<IntMatrix>, n: nat)
    requires |minors| == n + 1 && n <= |history| && Squares(history, n) && |l| == n && Square(l)
    requires PositiveMinors(minors)
    requires forall i, k :: 0 <= i < n && 0 <= k < n ==> l[i][k] == LowerEntry(minors, history, n, i, k)
    ensures LowerTriangular(l)
  {
  }

  /** The certificate read off positive minors and their tableaux. */
  method ReadCertificate(ghost b: Minors, n: nat, minors: seq<int>, history: seq<IntMatrix>)
    returns (l: IntMatrix, d: seq<int>, scale: int)
    requires Fits(Mul, b) && NonzeroTo(b, n) && Computes(b, n, Tableaux(minors, history)) && PositiveMinors(minors)
    ensures ReadsOff(b, l, d, scale, n) && LowerTriangular(l) && forall k :: 0 <= k < n ==> d[k] > 0
    ensures Primitive(scale, d)
  {
    assert minors[0] as real == Leading(b, 0);
    var products := Products(minors);
    forall k | 0 <= k < n ensures products[k] > 0 {
      ProductPositive(minors[k], minors[k + 1]);
    }
    scale := CommonMultiple(products);
    assert Squares(history, n) by {
      forall k | 0 <= k < |history| ensures |history[k]| == n && Square(history[k]) {
        assert Holds(b, n, k, history[k]);
      }
    }
    l := FillLower(minors, history, n);
    LowerIsTriangular(l, minors, history, n);
    d := seq(n, k requires 0 <= k < n => scale / products[k]);
    forall k | 0 <= k < n
      ensures d[k] > 0 && Mul(d[k] as real, Mul(Leading(b, k), Leading(b, k + 1))) == scale as real
      ensures d[k] * products[k] == scale
    {
      assert products[k] == minors[k] * minors[k + 1] && IsMultiple(scale, products[k]);
      DiagonalReadsOff(b, n, minors, scale, d, k);
    }
    forall i, k | 0 <= i < n && 0 <= k < n ensures l[i][k] as real == b(k, i, k) {
      LowerReadsOff(b, n, minors, history, i, k);
    }
    LeastIsPrimitive(scale, products, d);
  }

  lemma ReadsOffReproduces(m: IntMatrix, l: IntMatrix, d: seq<int>, scale: int)
    requires Square(m) && Symmetric(m) && NonzeroTo(Bordered(m), |m|) && ReadsOff(Bordered(m), l, d, scale, |m|)
    ensures Reproduces(m, l, d, scale)
  {
    BorderedFits(m);
    EntriesSymmetric(m);
    forall i, j | 0 <= i < |m| && 0 <= j < |m| ensures RowProduct(l, d, i, j, |m|) == scale * m[i][j] {
      EntriesAreBordered(m, i, j);
      RowProductIsGram(l, d, i, j, |m|);
      EntryReproduced(Bordered(m), m, l, d, scale, |m|, i, j, RowProduct(l, d, i, j, |m|));
    }
  }

  const NOTHING: IntMatrix := [[0, 0, 0], [0, 0, 0], [0, 0, 0]]

  lemma NothingLeads()
    ensures LeadingMinor(NOTHING, 1) == 0.0 && Leading(Bordered(NOTHING), 1) == 0.0
  {
    EntriesAreBordered(NOTHING, 0, 0);
    LeadingIsDet(NOTHING, 1);
    assert Cast(NOTHING)(0)(0) == 0.0;
  }

  /** A symmetric matrix that is not positive definite and for which the elimination raises. */
  lemma ZeroMatrixRaises()
    ensures Square(NOTHING) && Symmetric(NOTHING) && |NOTHING| == 3 && LeadingMinor(NOTHING, 1) == 0.0
    ensures !Q.PositiveDefinite(Mul, Cast(NOTHING), |NOTHING|)
  {
    NothingLeads();
    if Q.PositiveDefinite(Mul, Cast(NOTHING), |NOTHING|) {
      DefiniteHasPositiveMinors(NOTHING, |NOTHING|);
    }
  }

  /** The integer LDL^T certificate of a matrix, if its leading minors are all positive. For symmetric
      matrices that is exactly when the matrix is positive definite, and then L diag(d) L^T is scale
      times the matrix. L holds minors, d undoes the products of neighbouring leading minors, and no
      smaller scale would do. */
  method BareissLdltCert(m: IntMatrix) returns (r: CertResult)
    requires Square(m)
    ensures r.Certificate? <==> forall k :: 1 <= k <= |m| ==> LeadingMinor(m, k) > 0.0
    ensures r.ZeroDivisionError? <==> exists k :: 1 <= k <= |m| - 2 && LeadingMinor(m, k) == 0.0
    ensures r.Certificate? ==> |r.d| == |m| && forall k :: 0 <= k < |m| ==> r.d[k] > 0
    ensures r.Certificate? ==> ReadsOff(Bordered(m), r.l, r.d, r.scale, |m|) && Primitive(r.scale, r.d)
    ensures r.Certificate? && Symmetric(m) ==> Reproduces(m, r.l, r.d, r.scale) && LowerTriangular(r.l)
    ensures Symmetric(m) ==> (r.Certificate? <==> Q.PositiveDefinite(Mul, Cast(m), |m|))
  {
    BorderedFits(m);
    forall k: nat ensures Leading(Bordered(m), k) == LeadingMinor(m, k) {
      LeadingIsDet(m, k);
    }
    var t := BareissMinors(m);
    if t.ZeroDivision? {
      r := ZeroDivisionError;
      assert exists k :: 1 <= k <= |m| - 2 && LeadingMinor(m, k) == 0.0;
    } else {
      var positive := MinorsPositive(t.minors);
      if positive {
        assert NonzeroTo(Bordered(m), |m|);
        var l, d, scale := ReadCertificate(Bordered(m), |m|, t.minors, t.history);
        r := Certificate(l, d, scale);
        if Symmetric(m) {
          ReadsOffReproduces(m, l, d, scale);
          CertifiedIsDefinite(m, l, d, scale);
        }
      } else {
        r := NotPositive;
      }
    }
    if Symmetric(m) && Q.PositiveDefinite(Mul, Cast(m), |m|) {
      DefiniteHasPositiveMinors(m, |m|);
    }
  }
}
