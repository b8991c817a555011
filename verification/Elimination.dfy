/** Sylvester's identity for bordered minors. */
module Elimination {
  // Gaussian elimination as a sequence of tableaux, and the determinants they give: every bordered block
  // of a matrix is a product of pivots times a determinant of the tableau.

  import opened Collections
  import opened Determinant

  type Matrix = nat -> Row

  /** The tableau after k steps of elimination without exchanges. */
  function Tableau(mul: Product, m: Matrix, k: nat): Matrix {
    if k == 0 then m
    else
      var t := Tableau(mul, m, k - 1);
      (i: nat) => Cleared(mul, t(i), t(k - 1), k - 1)
  }

  function Pivot(mul: Product, m: Matrix, k: nat): real {
    Tableau(mul, m, k)(k)(k)
  }

  function PivotAt(mul: Product, m: Matrix): nat -> real {
    (k: nat) => Pivot(mul, m, k)
  }

  /** p(l) p(l + 1) ... p(k - 1). */
  function ProductOf(mul: Product, p: nat -> real, l: nat, k: nat): real
    requires l <= k
    decreases k - l
  {
    if l == k then 1.0 else mul(p(l), ProductOf(mul, p, l + 1, k))
  }

  function Up(l: nat, k: nat): (r: seq<nat>)
    requires l <= k
    ensures |r| == k - l && forall i :: 0 <= i < k - l ==> r[i] == l + i
  {
    seq(k - l, i => l + i)
  }

  function Select(m: Matrix, rows: seq<nat>): (r: seq<Row>)
    ensures |r| == |rows| && forall i :: 0 <= i < |r| ==> r[i] == m(rows[i])
  {
    seq(|rows|, i requires 0 <= i < |rows| => m(rows[i]))
  }

  ghost predicate GoodPivots(mul: Product, m: Matrix, l: nat, k: nat) {
    forall i :: l <= i < k ==> Divides(mul, Pivot(mul, m, i))
  }

  lemma ClearedSelection(mul: Product, m: Matrix, l: nat, rows: seq<nat>)
    requires rows != [] && rows[0] == l
    ensures ClearedTail(mul, Select(Tableau(mul, m, l), rows), l) == Select(Tableau(mul, m, l + 1), rows[1..])
  {
  }

  type Blocks = (nat, seq<nat>, seq<nat>) -> real

  /** The determinant of a block of the tableau after l steps. */
  function BlockDet(mul: Product, m: Matrix): Blocks {
    (l: nat, rows: seq<nat>, cols: seq<nat>) => DetOn(mul, cols)(Select(Tableau(mul, m, l), rows))
  }

  ghost predicate StepsAt(mul: Product, b: Blocks, p: nat -> real, l: nat, rows: seq<nat>, cols: seq<nat>)
    requires rows != [] && cols != []
  {
    b(l, rows, cols) == mul(p(l), b(l + 1, rows[1..], cols[1..]))
  }

  /** One elimination step on a block that starts at the pivot. */
  lemma BlockStep(mul: Product, m: Matrix, l: nat, rows: seq<nat>, cols: seq<nat>)
    requires Multiplies(mul) && |rows| == |cols| > 0 && rows[0] == cols[0] == l
    requires Divides(mul, Pivot(mul, m, l))
    ensures StepsAt(mul, BlockDet(mul, m), PivotAt(mul, m), l, rows, cols)
  {
    var block, tail := Select(Tableau(mul, m, l), rows), Select(Tableau(mul, m, l + 1), rows[1..]);
    ClearedSelection(mul, m, l, rows);
    EliminateFirst(mul, cols, block, Pivot(mul, m, l), tail);
  }

  ghost predicate Steps(mul: Product, b: Blocks, p: nat -> real, l: nat, k: nat) {
    forall i, rows: seq<nat>, cols: seq<nat> ::
      l <= i < k && |rows| == |cols| > 0 && rows[0] == cols[0] == i ==> StepsAt(mul, b, p, i, rows, cols)
  }

  lemma {:induction false} Telescopes(mul: Product, b: Blocks, p: nat -> real, l: nat, k: nat, rows: seq<nat>,
                                      cols: seq<nat>)
    requires Multiplies(mul) && l <= k && |rows| == |cols| && Steps(mul, b, p, l, k)
    ensures b(l, Up(l, k) + rows, Up(l, k) + cols) == mul(ProductOf(mul, p, l, k), b(k, rows, cols))
    decreases k - l
  {
    var allRows, allCols := Up(l, k) + rows, Up(l, k) + cols;
    if l == k {
      assert allRows == rows && allCols == cols;
      assert Laws(mul, 0.0, 0.0, b(k, rows, cols));
    } else {
      Telescopes(mul, b, p, l + 1, k, rows, cols);
      assert allRows[1..] == Up(l + 1, k) + rows;
      assert allCols[1..] == Up(l + 1, k) + cols;
      assert StepsAt(mul, b, p, l, allRows, allCols);
      assert Laws(mul, ProductOf(mul, p, l + 1, k), b(k, rows, cols), p(l));
    }
  }

  /** The determinant of the leading k rows and columns bordered by more of them is the product of
      the first k pivots times the determinant of the border in the tableau after k steps. */
  lemma Block(mul: Product, m: Matrix, k: nat, rows: seq<nat>, cols: seq<nat>, allRows: seq<nat>, allCols: seq<nat>)
    requires Multiplies(mul) && |rows| == |cols| && GoodPivots(mul, m, 0, k)
    requires allRows == Up(0, k) + rows && allCols == Up(0, k) + cols
    ensures BlockDet(mul, m)(0, allRows, allCols)
         == mul(ProductOf(mul, PivotAt(mul, m), 0, k), BlockDet(mul, m)(k, rows, cols))
  {
    forall i, rows: seq<nat>, cols: seq<nat> | 0 <= i < k && |rows| == |cols| > 0 && rows[0] == cols[0] == i
      ensures StepsAt(mul, BlockDet(mul, m), PivotAt(mul, m), i, rows, cols)
    {
      BlockStep(mul, m, i, rows, cols);
    }
    Telescopes(mul, BlockDet(mul, m), PivotAt(mul, m), 0, k, rows, cols);
  }

  lemma DetOfOne(mul: Product, m: Matrix, i: nat, j: nat)
    requires Multiplies(mul)
    ensures DetOn(mul, [j])(Select(m, [i])) == m(i)(j)
  {
    var rows := Select(m, [i]);
    var d := DetOn(mul, [j][1..]);
    assert [j][1..] == [];
    assert AltSum(Terms(mul, d, j, rows), 1) == Alt(0, Terms(mul, d, j, rows)(0));
    assert Laws(mul, 0.0, 0.0, m(i)(j));
  }

  lemma DetOfTwo(mul: Product, m: Matrix, h: nat, i: nat, k: nat, j: nat)
    requires Multiplies(mul)
    ensures DetOn(mul, [k, j])(Select(m, [h, i])) == mul(m(h)(k), m(i)(j)) - mul(m(i)(k), m(h)(j))
  {
    var rows := Select(m, [h, i]);
    var d := DetOn(mul, [k, j][1..]);
    var f := Terms(mul, d, k, rows);
    assert [k, j][1..] == [j];
    assert Without(rows, 0) == Select(m, [i]) && Without(rows, 1) == Select(m, [h]);
    DetOfOne(mul, m, i, j);
    DetOfOne(mul, m, h, j);
    assert AltSum(f, 2) == AltSum(f, 1) + Alt(1, f(1));
    assert AltSum(f, 1) == AltSum(f, 0) + Alt(0, f(0));
  }

  // ----- Minors that border the leading block

  /** (k, i, j) to the determinant of the leading k by k block bordered by row i and column j. */
  type Minors = (nat, nat, nat) -> real

  function BorderedMinors(mul: Product, m: Matrix): Minors {
    (k: nat, i: nat, j: nat) => DetOn(mul, Up(0, k) + [j])(Select(m, Up(0, k) + [i]))
  }

  /** The leading minors are among them. */
  function Leading(b: Minors, k: nat): real {
    if k == 0 then 1.0 else b(k - 1, k - 1, k - 1)
  }

  function Lead(mul: Product, m: Matrix, k: nat): real {
    ProductOf(mul, PivotAt(mul, m), 0, k)
  }

  lemma BorderedIsEntry(mul: Product, m: Matrix, k: nat, i: nat, j: nat)
    requires Multiplies(mul) && GoodPivots(mul, m, 0, k)
    ensures BorderedMinors(mul, m)(k, i, j) == mul(Lead(mul, m, k), Tableau(mul, m, k)(i)(j))
  {
    Block(mul, m, k, [i], [j], Up(0, k) + [i], Up(0, k) + [j]);
    DetOfOne(mul, Tableau(mul, m, k), i, j);
  }

  lemma BlockOfTwo(mul: Product, m: Matrix, k: nat, i: nat, j: nat, t: Matrix, rows: seq<nat>, cols: seq<nat>)
    requires Multiplies(mul) && t == Tableau(mul, m, k) && rows == [k, i] && cols == [k, j]
    ensures BlockDet(mul, m)(k, rows, cols) == mul(t(k)(k), t(i)(j)) - mul(t(i)(k), t(k)(j))
  {
    DetOfTwo(mul, t, k, i, k, j);
  }

  lemma NextBlock(mul: Product, m: Matrix, k: nat, i: nat, j: nat, rows: seq<nat>, cols: seq<nat>, value: real)
    requires Multiplies(mul) && GoodPivots(mul, m, 0, k) && |rows| == |cols|
    requires Up(0, k) + rows == Up(0, k + 1) + [i] && Up(0, k) + cols == Up(0, k + 1) + [j]
    requires BlockDet(mul, m)(k, rows, cols) == value
    ensures BorderedMinors(mul, m)(k + 1, i, j) == mul(Lead(mul, m, k), value)
  {
    Block(mul, m, k, rows, cols, Up(0, k + 1) + [i], Up(0, k + 1) + [j]);
  }

  lemma UpPair(k: nat, i: nat, l: seq<nat>)
    requires l == [k, i]
    ensures Up(0, k) + l == Up(0, k + 1) + [i]
  {
  }

  lemma NextBordered(mul: Product, m: Matrix, k: nat, i: nat, j: nat, t: Matrix, rows: seq<nat>, cols: seq<nat>)
    requires Multiplies(mul) && GoodPivots(mul, m, 0, k) && t == Tableau(mul, m, k)
    requires rows == [k, i] && cols == [k, j]
    ensures BorderedMinors(mul, m)(k + 1, i, j)
         == mul(Lead(mul, m, k), mul(t(k)(k), t(i)(j)) - mul(t(i)(k), t(k)(j)))
  {
    UpPair(k, i, rows);
    UpPair(k, j, cols);
    BlockOfTwo(mul, m, k, i, j, t, rows, cols);
    NextBlock(mul, m, k, i, j, rows, cols, mul(t(k)(k), t(i)(j)) - mul(t(i)(k), t(k)(j)));
  }

  lemma {:induction false} ProductGrows(mul: Product, p: nat -> real, l: nat, k: nat)
    requires Multiplies(mul) && l <= k
    ensures ProductOf(mul, p, l, k + 1) == mul(ProductOf(mul, p, l, k), p(k))
    decreases k - l
  {
    if l == k {
      assert Laws(mul, 0.0, 0.0, p(k));
    } else {
      ProductGrows(mul, p, l + 1, k);
      assert Laws(mul, ProductOf(mul, p, l + 1, k), p(k), p(l));
    }
  }

  lemma LeadingIsLead(mul: Product, m: Matrix, k: nat)
    requires Multiplies(mul) && GoodPivots(mul, m, 0, k)
    ensures Leading(BorderedMinors(mul, m), k) == Lead(mul, m, k)
  {
    if k > 0 {
      BorderedIsEntry(mul, m, k - 1, k - 1, k - 1);
      ProductGrows(mul, PivotAt(mul, m), 0, k - 1);
    }
  }

  ghost predicate SylvesterAt(mul: Product, b: Minors, k: nat, i: nat, j: nat) {
    mul(Leading(b, k), b(k + 1, i, j)) == mul(b(k, i, j), b(k, k, k)) - mul(b(k, i, k), b(k, k, j))
  }

  lemma TwoByTwo(mul: Product, p: real, a: real, b: real, c: real, d: real)
    requires Multiplies(mul)
    ensures mul(p, mul(p, mul(a, d) - mul(b, c))) == mul(mul(p, d), mul(p, a)) - mul(mul(p, b), mul(p, c))
  {
    var x, y := mul(a, d), mul(b, c);
    Regroup(mul, p, d, a);
    Regroup(mul, p, b, c);
    assert Laws(mul, b, c, p);
    assert Laws(mul, y, x, p) && Laws(mul, x, -y, p);
    assert Laws(mul, mul(p, y), mul(p, x), p) && Laws(mul, mul(p, x), -mul(p, y), p);
  }

  lemma Regroup(mul: Product, p: real, a: real, b: real)
    requires Multiplies(mul)
    ensures mul(mul(p, a), mul(p, b)) == mul(p, mul(p, mul(b, a)))
  {
    assert Laws(mul, a, mul(p, b), p) && Laws(mul, a, b, p);
  }

  /** Sylvester's identity for one more row and column. */
  lemma Sylvester(mul: Product, m: Matrix, k: nat, i: nat, j: nat)
    requires Multiplies(mul) && GoodPivots(mul, m, 0, k)
    ensures SylvesterAt(mul, BorderedMinors(mul, m), k, i, j)
  {
    var t := Tableau(mul, m, k);
    LeadingIsLead(mul, m, k);
    NextBordered(mul, m, k, i, j, t, [k, i], [k, j]);
    BorderedIsEntry(mul, m, k, i, j);
    BorderedIsEntry(mul, m, k, k, k);
    BorderedIsEntry(mul, m, k, i, k);
    BorderedIsEntry(mul, m, k, k, j);
    TwoByTwo(mul, Lead(mul, m, k), t(k)(k), t(i)(k), t(k)(j), t(i)(j));
  }

  ghost predicate NonzeroTo(b: Minors, k: int) {
    forall i :: 1 <= i <= k ==> Leading(b, i) != 0.0
  }

  /** Nonzero leading minors are what elimination without exchanges needs. */
  lemma {:induction false} NonzeroMinorsGivePivots(mul: Product, m: Matrix, k: nat)
    requires Field(mul) && NonzeroTo(BorderedMinors(mul, m), k)
    ensures GoodPivots(mul, m, 0, k)
  {
    if k > 0 {
      NonzeroMinorsGivePivots(mul, m, k - 1);
      assert Leading(BorderedMinors(mul, m), k) != 0.0;
      BorderedIsEntry(mul, m, k - 1, k - 1, k - 1);
      assert Laws(mul, 0.0, 0.0, Lead(mul, m, k - 1));
    }
  }
}
