/** Quadratic forms, and matrices built up from weighted squares, over any product with the laws of
    multiplication. */
module Quadratic {
  import opened Determinant
  import opened Elimination

  type Vector = nat -> real
  type Vectors = nat -> Vector

  function Sum(f: Vector, n: nat): real {
    if n == 0 then 0.0 else Sum(f, n - 1) + f(n - 1)
  }

  function Dot(mul: Product, u: Vector, x: Vector, n: nat): real {
    if n == 0 then 0.0 else Dot(mul, u, x, n - 1) + mul(u(n - 1), x(n - 1))
  }

  function Apply(mul: Product, a: Matrix, x: Vector, n: nat): Vector {
    (i: nat) => Dot(mul, a(i), x, n)
  }

  /** x^T A x on the first n coordinates. */
  function Quad(mul: Product, a: Matrix, x: Vector, n: nat): real {
    Dot(mul, Apply(mul, a, x, n), x, n)
  }

  ghost predicate Nonzero(x: Vector, n: nat) {
    exists i :: 0 <= i < n && x(i) != 0.0
  }

  ghost predicate PositiveDefinite(mul: Product, a: Matrix, n: nat) {
    forall x :: Nonzero(x, n) ==> Quad(mul, a, x, n) > 0.0
  }

  // ----- Linearity of the dot product

  ghost predicate Combination(mul: Product, w: Vector, u: Vector, c: real, v: Vector, n: nat) {
    forall i :: 0 <= i < n ==> w(i) == u(i) + mul(c, v(i))
  }

  lemma {:induction false} DotCombine(mul: Product, w: Vector, u: Vector, c: real, v: Vector, x: Vector, n: nat)
    requires Multiplies(mul) && Combination(mul, w, u, c, v, n)
    ensures Dot(mul, w, x, n) == Dot(mul, u, x, n) + mul(c, Dot(mul, v, x, n))
  {
    if n == 0 {
      assert Laws(mul, 0.0, 0.0, c);
    } else {
      DotCombine(mul, w, u, c, v, x, n - 1);
      var ui, vi, xi := u(n - 1), v(n - 1), x(n - 1);
      assert Laws(mul, ui, mul(c, vi), xi);
      assert Laws(mul, vi, xi, c);
      assert Laws(mul, Dot(mul, v, x, n - 1), mul(vi, xi), c);
    }
  }

  ghost predicate Agree(u: Vector, v: Vector, n: nat) {
    forall i :: 0 <= i < n ==> u(i) == v(i)
  }

  lemma {:induction false} DotSame(mul: Product, u: Vector, v: Vector, x: Vector, n: nat)
    requires Agree(u, v, n)
    ensures Dot(mul, u, x, n) == Dot(mul, v, x, n)
  {
    if n > 0 {
      DotSame(mul, u, v, x, n - 1);
    }
  }

  ghost predicate TermsVanish(mul: Product, u: Vector, x: Vector, n: nat, but: int) {
    forall i :: 0 <= i < n && i != but ==> mul(u(i), x(i)) == 0.0
  }

  lemma {:induction false} DotZero(mul: Product, u: Vector, x: Vector, n: nat)
    requires TermsVanish(mul, u, x, n, -1)
    ensures Dot(mul, u, x, n) == 0.0
  {
    if n > 0 {
      DotZero(mul, u, x, n - 1);
    }
  }

  /** Only the coordinate l contributes. */
  lemma {:induction false} DotSingle(mul: Product, u: Vector, x: Vector, n: nat, l: nat)
    requires l < n && TermsVanish(mul, u, x, n, l)
    ensures Dot(mul, u, x, n) == mul(u(l), x(l))
  {
    if l == n - 1 {
      DotZero(mul, u, x, n - 1);
    } else {
      assert mul(u(n - 1), x(n - 1)) == 0.0;
      DotSingle(mul, u, x, n - 1, l);
    }
  }

  ghost predicate SameForm(a: Matrix, b: Matrix, n: nat) {
    forall i :: 0 <= i < n ==> Agree(a(i), b(i), n)
  }

  lemma QuadSame(mul: Product, a: Matrix, b: Matrix, x: Vector, n: nat)
    requires SameForm(a, b, n)
    ensures Quad(mul, a, x, n) == Quad(mul, b, x, n)
  {
    var ax, bx := Apply(mul, a, x, n), Apply(mul, b, x, n);
    forall i | 0 <= i < n ensures ax(i) == bx(i) {
      DotSame(mul, a(i), b(i), x, n);
    }
    DotSame(mul, ax, bx, x, n);
  }

  function Zero(): Vector {
    (i: nat) => 0.0
  }

  lemma DotScaled(mul: Product, u: Vector, c: real, v: Vector, x: Vector, n: nat)
    requires Multiplies(mul) && Combination(mul, u, Zero(), c, v, n)
    ensures Dot(mul, u, x, n) == mul(c, Dot(mul, v, x, n))
  {
    forall i | 0 <= i < n ensures mul(Zero()(i), x(i)) == 0.0 {
      assert Laws(mul, 0.0, 0.0, x(i));
    }
    DotZero(mul, Zero(), x, n);
    DotCombine(mul, u, Zero(), c, v, x, n);
  }

  function Scaled(mul: Product, c: real, a: Matrix): Matrix {
    (i: nat) => (j: nat) => mul(c, a(i)(j))
  }

  lemma QuadScaled(mul: Product, c: real, a: Matrix, x: Vector, n: nat)
    requires Multiplies(mul)
    ensures Quad(mul, Scaled(mul, c, a), x, n) == mul(c, Quad(mul, a, x, n))
  {
    var sx, ax := Apply(mul, Scaled(mul, c, a), x, n), Apply(mul, a, x, n);
    forall i | 0 <= i < n ensures sx(i) == Zero()(i) + mul(c, ax(i)) {
      DotScaled(mul, Scaled(mul, c, a)(i), c, a(i), x, n);
    }
    DotScaled(mul, sx, c, ax, x, n);
  }

  lemma {:induction false} DotSymmetric(mul: Product, u: Vector, x: Vector, n: nat)
    requires Multiplies(mul)
    ensures Dot(mul, u, x, n) == Dot(mul, x, u, n)
  {
    if n > 0 {
      DotSymmetric(mul, u, x, n - 1);
      assert Laws(mul, u(n - 1), x(n - 1), 0.0);
    }
  }

  ghost predicate ZeroFrom(x: Vector, k: nat, n: nat) {
    forall i :: k <= i < n ==> x(i) == 0.0
  }

  lemma {:induction false} DotTruncated(mul: Product, u: Vector, x: Vector, k: nat, n: nat)
    requires Multiplies(mul) && k <= n && ZeroFrom(x, k, n)
    ensures Dot(mul, u, x, n) == Dot(mul, u, x, k)
  {
    if k < n {
      DotTruncated(mul, u, x, k, n - 1);
      assert Laws(mul, 0.0, 0.0, u(n - 1));
    }
  }

  /** A vector that is zero from k on only sees the leading k by k block. */
  lemma QuadTruncated(mul: Product, a: Matrix, x: Vector, k: nat, n: nat)
    requires Multiplies(mul) && k <= n && ZeroFrom(x, k, n)
    ensures Quad(mul, a, x, n) == Quad(mul, a, x, k)
  {
    DotTruncated(mul, Apply(mul, a, x, n), x, k, n);
    forall i | 0 <= i < k ensures Apply(mul, a, x, n)(i) == Apply(mul, a, x, k)(i) {
      DotTruncated(mul, a(i), x, k, n);
    }
    DotSame(mul, Apply(mul, a, x, n), Apply(mul, a, x, k), x, k);
  }

  function Unit(k: nat): Vector {
    (i: nat) => if i == k then 1.0 else 0.0
  }

  lemma DotUnit(mul: Product, k: nat, x: Vector, n: nat)
    requires Multiplies(mul) && k < n
    ensures Dot(mul, Unit(k), x, n) == x(k)
  {
    forall i | 0 <= i < n && i != k ensures mul(Unit(k)(i), x(i)) == 0.0 {
      assert Laws(mul, 0.0, 0.0, x(i));
    }
    DotSingle(mul, Unit(k), x, n, k);
    assert Laws(mul, 0.0, 0.0, x(k));
  }

  // ----- Weighted squares

  function SquareTerms(mul: Product, c: Vector, v: Vectors, i: nat, j: nat): Vector {
    (l: nat) => mul(c(l), mul(v(l)(i), v(l)(j)))
  }

  /** The sum over l < k of c(l) times the square of v(l). */
  function Gram(mul: Product, c: Vector, v: Vectors, k: nat): Matrix {
    (i: nat) => (j: nat) => Sum(SquareTerms(mul, c, v, i, j), k)
  }

  function WeightedSquares(mul: Product, c: Vector, v: Vectors, x: Vector, n: nat): Vector {
    (l: nat) => mul(c(l), mul(Dot(mul, v(l), x, n), Dot(mul, v(l), x, n)))
  }

  lemma GramRowGrows(mul: Product, c: Vector, v: Vectors, k: nat, n: nat, i: nat)
    requires Multiplies(mul)
    ensures Combination(mul, Gram(mul, c, v, k + 1)(i), Gram(mul, c, v, k)(i), mul(c(k), v(k)(i)), v(k), n)
  {
    forall j | 0 <= j < n
      ensures Gram(mul, c, v, k + 1)(i)(j) == Gram(mul, c, v, k)(i)(j) + mul(mul(c(k), v(k)(i)), v(k)(j))
    {
      assert Laws(mul, v(k)(i), v(k)(j), c(k));
    }
  }

  lemma GramApplyGrows(mul: Product, c: Vector, v: Vectors, x: Vector, k: nat, n: nat, y: real)
    requires Multiplies(mul) && y == Dot(mul, v(k), x, n)
    ensures Combination(mul, Apply(mul, Gram(mul, c, v, k + 1), x, n), Apply(mul, Gram(mul, c, v, k), x, n),
                        mul(c(k), y), v(k), n)
  {
    var next, last := Gram(mul, c, v, k + 1), Gram(mul, c, v, k);
    forall i | 0 <= i < n
      ensures Apply(mul, next, x, n)(i) == Apply(mul, last, x, n)(i) + mul(mul(c(k), y), v(k)(i))
    {
      GramRowGrows(mul, c, v, k, n, i);
      DotCombine(mul, next(i), last(i), mul(c(k), v(k)(i)), v(k), x, n);
      assert Laws(mul, v(k)(i), y, c(k)) && Laws(mul, y, v(k)(i), c(k));
    }
  }

  lemma GramEmpty(mul: Product, c: Vector, v: Vectors, x: Vector, n: nat)
    requires Multiplies(mul)
    ensures Quad(mul, Gram(mul, c, v, 0), x, n) == 0.0
  {
    var a := Gram(mul, c, v, 0);
    var ax := Apply(mul, a, x, n);
    forall i | 0 <= i < n ensures mul(ax(i), x(i)) == 0.0 {
      forall j | 0 <= j < n ensures mul(a(i)(j), x(j)) == 0.0 {
        assert Laws(mul, 0.0, 0.0, x(j));
      }
      DotZero(mul, a(i), x, n);
      assert Laws(mul, 0.0, 0.0, x(i));
    }
    DotZero(mul, ax, x, n);
  }

  lemma GramStep(mul: Product, c: Vector, v: Vectors, x: Vector, k: nat, n: nat)
    requires Multiplies(mul)
    ensures Quad(mul, Gram(mul, c, v, k + 1), x, n)
         == Quad(mul, Gram(mul, c, v, k), x, n) + WeightedSquares(mul, c, v, x, n)(k)
  {
    var y := Dot(mul, v(k), x, n);
    GramApplyGrows(mul, c, v, x, k, n, y);
    DotCombine(mul, Apply(mul, Gram(mul, c, v, k + 1), x, n), Apply(mul, Gram(mul, c, v, k), x, n),
               mul(c(k), y), v(k), x, n);
    assert Laws(mul, y, y, c(k));
  }

  /** A sum of weighted squares of vectors is, as a form, a weighted sum of squares. */
  lemma {:induction false} GramQuad(mul: Product, c: Vector, v: Vectors, x: Vector, k: nat, n: nat)
    requires Multiplies(mul)
    ensures Quad(mul, Gram(mul, c, v, k), x, n) == Sum(WeightedSquares(mul, c, v, x, n), k)
  {
    if k == 0 {
      GramEmpty(mul, c, v, x, n);
    } else {
      GramQuad(mul, c, v, x, k - 1, n);
      GramStep(mul, c, v, x, k - 1, n);
    }
  }

  // ----- Sums

  ghost predicate NonNegative(f: Vector, n: nat) {
    forall i :: 0 <= i < n ==> f(i) >= 0.0
  }

  lemma {:induction false} SumNonNegative(f: Vector, n: nat)
    requires NonNegative(f, n)
    ensures Sum(f, n) >= 0.0
  {
    if n > 0 {
      SumNonNegative(f, n - 1);
    }
  }

  lemma {:induction false} SumPositive(f: Vector, n: nat, at: nat)
    requires NonNegative(f, n) && at < n && f(at) > 0.0
    ensures Sum(f, n) > 0.0
  {
    if at == n - 1 {
      SumNonNegative(f, n - 1);
    } else {
      SumPositive(f, n - 1, at);
    }
  }

  lemma {:induction false} SumZero(f: Vector, n: nat)
    requires Agree(f, Zero(), n)
    ensures Sum(f, n) == 0.0
  {
    if n > 0 {
      SumZero(f, n - 1);
    }
  }

  lemma {:induction false} SumSame(f: Vector, g: Vector, n: nat)
    requires Agree(f, g, n)
    ensures Sum(f, n) == Sum(g, n)
  {
    if n > 0 {
      SumSame(f, g, n - 1);
    }
  }

  lemma {:induction false} SumScaled(mul: Product, f: Vector, c: real, g: Vector, n: nat)
    requires Multiplies(mul) && Combination(mul, f, Zero(), c, g, n)
    ensures Sum(f, n) == mul(c, Sum(g, n))
  {
    if n == 0 {
      assert Laws(mul, 0.0, 0.0, c);
    } else {
      SumScaled(mul, f, c, g, n - 1);
      assert Laws(mul, Sum(g, n - 1), g(n - 1), c);
    }
  }

  ghost predicate Differences(f: Vector, r: Vector, n: nat) {
    forall i :: 0 <= i < n ==> f(i) == r(i) - r(i + 1)
  }

  lemma {:induction false} SumTelescopes(f: Vector, r: Vector, n: nat)
    requires Differences(f, r, n)
    ensures Sum(f, n) == r(0) - r(n)
  {
    if n > 0 {
      SumTelescopes(f, r, n - 1);
    }
  }

  ghost predicate OrderLaws(mul: Product, c: real, y: real) {
    && (c >= 0.0 ==> mul(c, mul(y, y)) >= 0.0)
    && (c > 0.0 && y != 0.0 ==> mul(c, mul(y, y)) > 0.0)
    && (c > 0.0 && mul(c, y) >= 0.0 ==> y >= 0.0)
    && (c > 0.0 && mul(c, y) > 0.0 ==> y > 0.0)
    && (c != 0.0 && y != 0.0 ==> mul(c, y) != 0.0)
  }

  ghost predicate Ordered(mul: Product) {
    Field(mul) && forall c, y :: OrderLaws(mul, c, y)
  }

  lemma SquareSign(y: real)
    ensures y * y >= 0.0 && (y != 0.0 ==> y * y > 0.0)
  {
    if y > 0.0 {
      assert y * y > 0.0;
    } else if y < 0.0 {
      assert (-y) * (-y) > 0.0;
      assert (-y) * (-y) == y * y;
    }
  }

  lemma ProductSign(a: real, b: real)
    ensures a > 0.0 && b > 0.0 ==> a * b > 0.0
    ensures a > 0.0 && b < 0.0 ==> a * b < 0.0
    ensures a >= 0.0 && b >= 0.0 ==> a * b >= 0.0
    ensures a < 0.0 && b > 0.0 ==> a * b < 0.0
    ensures a < 0.0 && b < 0.0 ==> a * b > 0.0
  {
    assert a < 0.0 ==> (-a) * b == -(a * b);
    assert b < 0.0 ==> a * (-b) == -(a * b);
  }

  lemma RealOrderLaws(c: real, y: real, s: real)
    requires s == y * y
    ensures OrderLaws(Mul, c, y)
  {
    SquareSign(y);
    ProductSign(c, s);
    ProductSign(c, y);
    assert Mul(c, Mul(y, y)) == c * s;
  }

  /** The reals are an ordered field. */
  lemma RealsOrdered()
    ensures Ordered(Mul)
  {
    MulIsField();
    forall c, y ensures OrderLaws(Mul, c, y) {
      RealOrderLaws(c, y, y * y);
    }
  }
}
