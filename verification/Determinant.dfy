/** Determinants by expansion along the first listed column, and the one elimination step on which
    fraction-free elimination rests. The theory is written over any product with the laws it uses;
    the product of real numbers is put in at the end. */
module Determinant {
  import opened Collections

  type Row = nat -> real
  type Product = (real, real) -> real
  type RowsFunction = seq<Row> -> real

  // ----- Alternating sums

  function Alt(t: nat, x: real): real {
    if t % 2 == 0 then x else -x
  }

  /** f(0) - f(1) + f(2) - ... over the first n terms. */
  function AltSum(f: nat -> real, n: nat): real {
    if n == 0 then 0.0 else AltSum(f, n - 1) + Alt(n - 1, f(n - 1))
  }

  ghost predicate Laws(mul: Product, a: real, b: real, x: real) {
    && mul(a + b, x) == mul(a, x) + mul(b, x)
    && mul(x, a + b) == mul(x, a) + mul(x, b)
    && mul(x, -a) == -mul(x, a)
    && mul(a, b) == mul(b, a)
    && mul(a, mul(x, b)) == mul(x, mul(a, b))
    && mul(mul(x, a), b) == mul(x, mul(a, b))
    && mul(0.0, x) == 0.0 == mul(x, 0.0)
    && mul(1.0, x) == x == mul(x, 1.0)
  }

  ghost predicate Multiplies(mul: Product) {
    forall a, b, x :: Laws(mul, a, b, x)
  }

  ghost predicate SumOf(f: nat -> real, g: nat -> real, h: nat -> real, n: nat) {
    forall t :: 0 <= t < n ==> f(t) == g(t) + h(t)
  }

  lemma {:induction false} AltSumAdds(f: nat -> real, g: nat -> real, h: nat -> real, n: nat)
    requires SumOf(f, g, h, n)
    ensures AltSum(f, n) == AltSum(g, n) + AltSum(h, n)
  {
    if n > 0 {
      AltSumAdds(f, g, h, n - 1);
    }
  }

  ghost predicate MultipleOf(mul: Product, f: nat -> real, c: real, g: nat -> real, n: nat) {
    forall t :: 0 <= t < n ==> f(t) == mul(c, g(t))
  }

  lemma {:induction false} AltSumScales(mul: Product, f: nat -> real, c: real, g: nat -> real, n: nat)
    requires Multiplies(mul) && MultipleOf(mul, f, c, g, n)
    ensures AltSum(f, n) == mul(c, AltSum(g, n))
  {
    if n == 0 {
      assert Laws(mul, 0.0, 0.0, c);
    } else {
      AltSumScales(mul, f, c, g, n - 1);
      assert Laws(mul, g(n - 1), 0.0, c);
      assert Laws(mul, AltSum(g, n - 1), Alt(n - 1, g(n - 1)), c);
    }
  }

  /** Only the neighbouring terms i and i + 1 are there, and they cancel. */
  ghost predicate Cancelling(f: nat -> real, i: nat, n: nat) {
    (forall t :: 0 <= t < n && t != i && t != i + 1 ==> f(t) == 0.0) && f(i) == f(i + 1)
  }

  lemma {:induction false} AltSumCancels(f: nat -> real, i: nat, n: nat)
    requires Cancelling(f, i, n)
    ensures AltSum(f, n) == if n == i + 1 then Alt(i, f(i)) else 0.0
  {
    if n > 0 {
      AltSumCancels(f, i, n - 1);
    }
  }

  ghost predicate OnlyFirst(f: nat -> real, n: nat) {
    forall t :: 0 < t < n ==> f(t) == 0.0
  }

  lemma {:induction false} AltSumSingle(f: nat -> real, n: nat)
    requires n > 0 && OnlyFirst(f, n)
    ensures AltSum(f, n) == f(0)
  {
    if n > 1 {
      AltSumSingle(f, n - 1);
    }
  }

  // ----- Expansion along a column

  /** The unsigned terms of the expansion along column c, d giving the minors. */
  function Terms(mul: Product, d: RowsFunction, c: nat, rows: seq<Row>): nat -> real {
    (t: nat) => if t < |rows| then mul(rows[t](c), d(Without(rows, t))) else 0.0
  }

  function Expansion(mul: Product, d: RowsFunction, c: nat): RowsFunction {
    (rows: seq<Row>) => AltSum(Terms(mul, d, c, rows), |rows|)
  }

  /** The determinant on the given columns, as a function of the rows. */
  function DetOn(mul: Product, cols: seq<nat>): RowsFunction {
    if cols == [] then (rows: seq<Row>) => 1.0 else Expansion(mul, DetOn(mul, cols[1..]), cols[0])
  }

  // ----- Forms: linear in each row, and zero when two neighbouring rows are equal

  ghost predicate AddsAt(d: RowsFunction, rows: seq<Row>, i: nat, w: Row, u: Row, v: Row)
    requires i < |rows|
  {
    d(rows[i := w]) == d(rows[i := u]) + d(rows[i := v])
  }

  ghost predicate ScalesAt(mul: Product, d: RowsFunction, rows: seq<Row>, i: nat, w: Row, c: real, u: Row)
    requires i < |rows|
  {
    d(rows[i := w]) == mul(c, d(rows[i := u]))
  }

  ghost predicate SumOn(cols: seq<nat>, w: Row, u: Row, v: Row) {
    forall j :: j in cols ==> w(j) == u(j) + v(j)
  }

  ghost predicate MultipleOn(mul: Product, cols: seq<nat>, w: Row, c: real, u: Row) {
    forall j :: j in cols ==> w(j) == mul(c, u(j))
  }

  ghost predicate Adds(d: RowsFunction, n: nat, cols: seq<nat>) {
    forall rows: seq<Row>, i: nat, w, u, v :: |rows| == n && i < n && SumOn(cols, w, u, v)
      ==> AddsAt(d, rows, i, w, u, v)
  }

  ghost predicate Scales(mul: Product, d: RowsFunction, n: nat, cols: seq<nat>) {
    forall rows: seq<Row>, i: nat, w, c, u :: |rows| == n && i < n && MultipleOn(mul, cols, w, c, u)
      ==> ScalesAt(mul, d, rows, i, w, c, u)
  }

  ghost predicate Vanishes(d: RowsFunction, n: nat) {
    forall rows: seq<Row>, i: nat :: |rows| == n && i + 1 < n && rows[i] == rows[i + 1] ==> d(rows) == 0.0
  }

  ghost predicate Form(mul: Product, d: RowsFunction, n: nat, cols: seq<nat>) {
    Adds(d, n, cols) && Scales(mul, d, n, cols) && Vanishes(d, n)
  }

  lemma WithoutUpdated<T>(s: seq<T>, t: nat, x: T, i: nat)
    requires t < |s| && i < |s|
    ensures t == i ==> Without(s[i := x], t) == Without(s, t)
    ensures t < i ==> Without(s[i := x], t) == Without(s, t)[i - 1 := x]
    ensures t > i ==> Without(s[i := x], t) == Without(s, t)[i := x]
  {
  }

  lemma TermAt(mul: Product, d: RowsFunction, c: nat, rows: seq<Row>, i: nat, w: Row)
    requires i < |rows|
    ensures Terms(mul, d, c, rows[i := w])(i) == mul(w(c), d(Without(rows, i)))
  {
    WithoutUpdated(rows, i, w, i);
  }

  lemma TermElsewhere(mul: Product, d: RowsFunction, c: nat, rows: seq<Row>, i: nat, w: Row, t: nat, k: nat)
    requires i < |rows| && t < |rows| && t != i && k == if t < i then i - 1 else i
    ensures Terms(mul, d, c, rows[i := w])(t) == mul(rows[t](c), d(Without(rows, t)[k := w]))
  {
    WithoutUpdated(rows, t, w, i);
  }

  lemma TermsAdd(mul: Product, d: RowsFunction, cols: seq<nat>, rows: seq<Row>, i: nat, w: Row, u: Row, v: Row, t: nat)
    requires Multiplies(mul) && |rows| == |cols| > 0 && Adds(d, |rows| - 1, cols[1..])
    requires i < |rows| && SumOn(cols, w, u, v) && t < |rows|
    ensures Terms(mul, d, cols[0], rows[i := w])(t)
         == Terms(mul, d, cols[0], rows[i := u])(t) + Terms(mul, d, cols[0], rows[i := v])(t)
  {
    var minor, c := Without(rows, t), cols[0];
    if t == i {
      TermAt(mul, d, c, rows, i, w);
      TermAt(mul, d, c, rows, i, u);
      TermAt(mul, d, c, rows, i, v);
      assert Laws(mul, u(c), v(c), d(minor));
    } else {
      var k := if t < i then i - 1 else i;
      assert AddsAt(d, minor, k, w, u, v);
      TermElsewhere(mul, d, c, rows, i, w, t, k);
      TermElsewhere(mul, d, c, rows, i, u, t, k);
      TermElsewhere(mul, d, c, rows, i, v, t, k);
      assert Laws(mul, d(minor[k := u]), d(minor[k := v]), rows[t](c));
    }
  }

  lemma TermsScale(mul: Product, d: RowsFunction, cols: seq<nat>, rows: seq<Row>, i: nat, w: Row, x: real, u: Row,
                   t: nat)
    requires Multiplies(mul) && |rows| == |cols| > 0 && Scales(mul, d, |rows| - 1, cols[1..])
    requires i < |rows| && MultipleOn(mul, cols, w, x, u) && t < |rows|
    ensures Terms(mul, d, cols[0], rows[i := w])(t) == mul(x, Terms(mul, d, cols[0], rows[i := u])(t))
  {
    var minor, c := Without(rows, t), cols[0];
    if t == i {
      TermAt(mul, d, c, rows, i, w);
      TermAt(mul, d, c, rows, i, u);
      assert Laws(mul, u(c), d(minor), x);
    } else {
      var k := if t < i then i - 1 else i;
      assert ScalesAt(mul, d, minor, k, w, x, u);
      TermElsewhere(mul, d, c, rows, i, w, t, k);
      TermElsewhere(mul, d, c, rows, i, u, t, k);
      assert Laws(mul, rows[t](c), d(minor[k := u]), x);
    }
  }

  lemma ExpansionAdds(mul: Product, d: RowsFunction, cols: seq<nat>, rows: seq<Row>, i: nat, w: Row, u: Row, v: Row)
    requires Multiplies(mul) && |rows| == |cols| > 0 && Adds(d, |rows| - 1, cols[1..])
    requires i < |rows| && SumOn(cols, w, u, v)
    ensures AddsAt(Expansion(mul, d, cols[0]), rows, i, w, u, v)
  {
    var f := Terms(mul, d, cols[0], rows[i := w]);
    var g := Terms(mul, d, cols[0], rows[i := u]);
    var h := Terms(mul, d, cols[0], rows[i := v]);
    forall t | 0 <= t < |rows| ensures f(t) == g(t) + h(t) {
      TermsAdd(mul, d, cols, rows, i, w, u, v, t);
    }
    AltSumAdds(f, g, h, |rows|);
  }

  lemma ExpansionScales(mul: Product, d: RowsFunction, cols: seq<nat>, rows: seq<Row>, i: nat, w: Row, x: real, u: Row)
    requires Multiplies(mul) && |rows| == |cols| > 0 && Scales(mul, d, |rows| - 1, cols[1..])
    requires i < |rows| && MultipleOn(mul, cols, w, x, u)
    ensures ScalesAt(mul, Expansion(mul, d, cols[0]), rows, i, w, x, u)
  {
    var f := Terms(mul, d, cols[0], rows[i := w]);
    var g := Terms(mul, d, cols[0], rows[i := u]);
    forall t | 0 <= t < |rows| ensures f(t) == mul(x, g(t)) {
      TermsScale(mul, d, cols, rows, i, w, x, u, t);
    }
    AltSumScales(mul, f, x, g, |rows|);
  }

  lemma ExpansionVanishes(mul: Product, d: RowsFunction, c: nat, rows: seq<Row>, i: nat)
    requires Multiplies(mul) && |rows| > 0 && Vanishes(d, |rows| - 1)
    requires i + 1 < |rows| && rows[i] == rows[i + 1]
    ensures Expansion(mul, d, c)(rows) == 0.0
  {
    var f := Terms(mul, d, c, rows);
    forall t | 0 <= t < |rows| && t != i && t != i + 1 ensures f(t) == 0.0 {
      var minor, k := Without(rows, t), if t < i then i - 1 else i;
      assert minor[k] == minor[k + 1];
      assert Laws(mul, 0.0, 0.0, rows[t](c));
    }
    assert Without(rows, i) == Without(rows, i + 1);
    AltSumCancels(f, i, |rows|);
  }

  lemma ExpansionIsForm(mul: Product, d: RowsFunction, cols: seq<nat>)
    requires Multiplies(mul) && cols != [] && Form(mul, d, |cols| - 1, cols[1..])
    ensures Form(mul, Expansion(mul, d, cols[0]), |cols|, cols)
  {
    forall rows: seq<Row>, i: nat, w, u, v | |rows| == |cols| && i < |cols| && SumOn(cols, w, u, v)
      ensures AddsAt(Expansion(mul, d, cols[0]), rows, i, w, u, v)
    {
      ExpansionAdds(mul, d, cols, rows, i, w, u, v);
    }
    forall rows: seq<Row>, i: nat, w, x, u | |rows| == |cols| && i < |cols| && MultipleOn(mul, cols, w, x, u)
      ensures ScalesAt(mul, Expansion(mul, d, cols[0]), rows, i, w, x, u)
    {
      ExpansionScales(mul, d, cols, rows, i, w, x, u);
    }
    forall rows: seq<Row>, i: nat | |rows| == |cols| && i + 1 < |cols| && rows[i] == rows[i + 1]
      ensures Expansion(mul, d, cols[0])(rows) == 0.0
    {
      ExpansionVanishes(mul, d, cols[0], rows, i);
    }
  }

  /** The determinant on fixed columns is a form of its rows. */
  lemma {:induction false} DetIsForm(mul: Product, cols: seq<nat>)
    requires Multiplies(mul)
    ensures Form(mul, DetOn(mul, cols), |cols|, cols)
  {
    if cols != [] {
      DetIsForm(mul, cols[1..]);
      ExpansionIsForm(mul, DetOn(mul, cols[1..]), cols);
    }
  }

  // ----- What every form satisfies

  function Plus(u: Row, v: Row): Row {
    (j: nat) => u(j) + v(j)
  }

  lemma PlusIsLinear(mul: Product, d: RowsFunction, cols: seq<nat>, rows: seq<Row>, i: nat, x: Row, y: Row)
    requires Form(mul, d, |rows|, cols) && i < |rows|
    ensures d(rows[i := Plus(x, y)]) == d(rows[i := x]) + d(rows[i := y])
  {
    assert SumOn(cols, Plus(x, y), x, y);
    assert AddsAt(d, rows, i, Plus(x, y), x, y);
  }

  ghost function WithPair(rows: seq<Row>, i: nat, x: Row, y: Row): (r: seq<Row>)
    requires i + 1 < |rows|
    ensures |r| == |rows| && r[i] == x && r[i + 1] == y
    ensures r == rows[i := x][i + 1 := y] == rows[i + 1 := y][i := x]
  {
    rows[i := x][i + 1 := y]
  }

  lemma PairLinear(mul: Product, d: RowsFunction, cols: seq<nat>, rows: seq<Row>, i: nat, x: Row, y: Row, b: Row)
    requires Form(mul, d, |rows|, cols) && i + 1 < |rows|
    ensures d(WithPair(rows, i, Plus(x, y), b)) == d(WithPair(rows, i, x, b)) + d(WithPair(rows, i, y, b))
    ensures d(WithPair(rows, i, b, Plus(x, y))) == d(WithPair(rows, i, b, x)) + d(WithPair(rows, i, b, y))
  {
    PlusIsLinear(mul, d, cols, rows[i + 1 := b], i, x, y);
    PlusIsLinear(mul, d, cols, rows[i := b], i + 1, x, y);
  }

  /** Exchanging two neighbouring rows changes the sign. */
  lemma SwapAdjacent(mul: Product, d: RowsFunction, cols: seq<nat>, rows: seq<Row>, i: nat, x: Row, y: Row)
    requires Form(mul, d, |rows|, cols) && i + 1 < |rows|
    ensures d(WithPair(rows, i, x, y)) == -d(WithPair(rows, i, y, x))
  {
    var z := Plus(x, y);
    assert d(WithPair(rows, i, z, z)) == d(WithPair(rows, i, x, x)) == d(WithPair(rows, i, y, y)) == 0.0;
    PairLinear(mul, d, cols, rows, i, x, y, z);
    PairLinear(mul, d, cols, rows, i, x, y, x);
    PairLinear(mul, d, cols, rows, i, x, y, y);
  }

  lemma {:induction false} FirstRowRepeated(mul: Product, d: RowsFunction, cols: seq<nat>, rows: seq<Row>, i: nat)
    requires Form(mul, d, |rows|, cols) && 0 < i < |rows| && rows[0] == rows[i]
    ensures d(rows) == 0.0
    decreases i
  {
    if i == 1 {
      assert rows[0] == rows[0 + 1];
    } else {
      var swapped := WithPair(rows, i - 1, rows[i], rows[i - 1]);
      assert rows == WithPair(rows, i - 1, rows[i - 1], rows[i]);
      SwapAdjacent(mul, d, cols, rows, i - 1, rows[i - 1], rows[i]);
      FirstRowRepeated(mul, d, cols, swapped, i - 1);
    }
  }

  function Times(mul: Product, c: real, v: Row): Row {
    (j: nat) => mul(c, v(j))
  }

  function Less(mul: Product, u: Row, c: real, v: Row): Row {
    (j: nat) => u(j) - mul(c, v(j))
  }

  /** Subtracting a multiple of the first row from another row changes nothing. */
  lemma SubtractFirstRow(mul: Product, d: RowsFunction, cols: seq<nat>, rows: seq<Row>, i: nat, c: real)
    requires Multiplies(mul) && Form(mul, d, |rows|, cols) && 0 < i < |rows|
    ensures d(rows[i := Less(mul, rows[i], c, rows[0])]) == d(rows)
  {
    var w, m := Less(mul, rows[i], c, rows[0]), Times(mul, c, rows[0]);
    assert SumOn(cols, rows[i], w, m);
    assert AddsAt(d, rows, i, rows[i], w, m);
    assert MultipleOn(mul, cols, m, c, rows[0]);
    assert ScalesAt(mul, d, rows, i, m, c, rows[0]);
    assert rows[i := rows[i]] == rows;
    FirstRowRepeated(mul, d, cols, rows[i := rows[0]], i);
    assert Laws(mul, 0.0, 0.0, c);
  }

  // ----- Clearing a column with the first row

  function Ratio(a: real, b: real): real {
    if b == 0.0 then 0.0 else a / b
  }

  /** The row u with its entry in column c cleared by the row v. */
  function Cleared(mul: Product, u: Row, v: Row, c: nat): Row {
    Less(mul, u, Ratio(u(c), v(c)), v)
  }

  /** The given rows, of which those from 1 to upto - 1 are cleared by the first row in column c. */
  function ClearedTo(mul: Product, rows: seq<Row>, c: nat, upto: nat): (r: seq<Row>)
    requires 0 < upto <= |rows|
    ensures |r| == |rows| && r[0] == rows[0]
    ensures forall i :: 0 < i < |r| ==> r[i] == if i < upto then Cleared(mul, rows[i], rows[0], c) else rows[i]
  {
    seq(|rows|, i requires 0 <= i < |rows| => if 0 < i < upto then Cleared(mul, rows[i], rows[0], c) else rows[i])
  }

  lemma {:induction false} ClearingKeepsForm(mul: Product, d: RowsFunction, cols: seq<nat>, rows: seq<Row>, c: nat,
                                             upto: nat)
    requires Multiplies(mul) && Form(mul, d, |rows|, cols) && 0 < upto <= |rows|
    ensures d(ClearedTo(mul, rows, c, upto)) == d(rows)
    decreases upto
  {
    if upto == 1 {
      assert ClearedTo(mul, rows, c, 1) == rows;
    } else {
      ClearingKeepsForm(mul, d, cols, rows, c, upto - 1);
      var before := ClearedTo(mul, rows, c, upto - 1);
      SubtractFirstRow(mul, d, cols, before, upto - 1, Ratio(rows[upto - 1](c), rows[0](c)));
      assert ClearedTo(mul, rows, c, upto) == before[upto - 1 := Cleared(mul, rows[upto - 1], rows[0], c)];
    }
  }

  /** The product undoes division by the pivot. */
  ghost predicate Divides(mul: Product, pivot: real) {
    forall a :: mul(Ratio(a, pivot), pivot) == a
  }

  ghost predicate Field(mul: Product) {
    Multiplies(mul) && forall pivot :: pivot != 0.0 ==> Divides(mul, pivot)
  }

  lemma ExpansionOfCleared(mul: Product, d: RowsFunction, c: nat, rows: seq<Row>)
    requires Multiplies(mul) && rows != [] && forall i :: 0 < i < |rows| ==> rows[i](c) == 0.0
    ensures Expansion(mul, d, c)(rows) == mul(rows[0](c), d(rows[1..]))
  {
    var f := Terms(mul, d, c, rows);
    forall t | 0 < t < |rows| ensures f(t) == 0.0 {
      assert Laws(mul, 0.0, 0.0, d(Without(rows, t)));
    }
    AltSumSingle(f, |rows|);
    assert Without(rows, 0) == rows[1..];
  }

  function ClearedTail(mul: Product, rows: seq<Row>, c: nat): (r: seq<Row>)
    requires rows != []
    ensures |r| == |rows| - 1
    ensures forall i :: 0 <= i < |r| ==> r[i] == Cleared(mul, rows[i + 1], rows[0], c)
  {
    ClearedTo(mul, rows, c, |rows|)[1..]
  }

  lemma EliminateInForm(mul: Product, d: RowsFunction, cols: seq<nat>, rows: seq<Row>)
    requires Multiplies(mul) && |rows| == |cols| > 0 && Divides(mul, rows[0](cols[0]))
    requires Form(mul, Expansion(mul, d, cols[0]), |cols|, cols)
    ensures Expansion(mul, d, cols[0])(rows) == mul(rows[0](cols[0]), d(ClearedTail(mul, rows, cols[0])))
  {
    var c := cols[0];
    var r := ClearedTo(mul, rows, c, |rows|);
    ClearingKeepsForm(mul, Expansion(mul, d, c), cols, rows, c, |rows|);
    forall i | 0 < i < |r| ensures r[i](c) == 0.0 {
      assert r[i] == Cleared(mul, rows[i], rows[0], c);
    }
    ExpansionOfCleared(mul, d, c, r);
  }

  /** One step of elimination: the pivot times the determinant of what is left. */
  lemma EliminateFirst(mul: Product, cols: seq<nat>, rows: seq<Row>, pivot: real, tail: seq<Row>)
    requires Multiplies(mul) && |rows| == |cols| > 0
    requires pivot == rows[0](cols[0]) && Divides(mul, pivot) && tail == ClearedTail(mul, rows, cols[0])
    ensures DetOn(mul, cols)(rows) == mul(pivot, DetOn(mul, cols[1..])(tail))
  {
    DetIsForm(mul, cols);
    EliminateInForm(mul, DetOn(mul, cols[1..]), cols, rows);
  }

  // ----- The determinant over the reals

  function Mul(a: real, b: real): real {
    a * b
  }

  lemma MulLaws(a: real, b: real, x: real)
    ensures Laws(Mul, a, b, x)
  {
    assert (x * a) * b == x * (a * b);
    assert a * (x * b) == x * (a * b);
  }

  lemma MulIsField()
    ensures Field(Mul)
  {
    forall a, b, x ensures Laws(Mul, a, b, x) {
      MulLaws(a, b, x);
    }
    forall pivot: real | pivot != 0.0 ensures Divides(Mul, pivot) {
      MulDivides(pivot);
    }
  }

  lemma MulDivides(pivot: real)
    requires pivot != 0.0
    ensures Divides(Mul, pivot)
  {
  }

  function Det(rows: seq<Row>, cols: seq<nat>): real
    requires |rows| == |cols|
  {
    DetOn(Mul, cols)(rows)
  }

  // ----- Determinants of integer entries are integers

  predicate Integral(x: real) {
    x.Floor as real == x
  }

  lemma SumIntegral(x: real, y: real)
    requires Integral(x) && Integral(y)
    ensures Integral(x + y) && Integral(-x)
  {
    var a, b := x.Floor, y.Floor;
    IntIntegral(a + b);
    IntIntegral(-a);
    assert x + y == (a + b) as real && -x == (-a) as real;
  }

  lemma ProductIntegral(x: real, y: real)
    requires Integral(x) && Integral(y)
    ensures Integral(Mul(x, y))
  {
    var a, b := x.Floor, y.Floor;
    CastProduct(a, b);
    IntIntegral(a * b);
    assert Mul(x, y) == (a * b) as real;
  }

  lemma IntIntegral(z: int)
    ensures Integral(z as real)
  {
  }

  lemma CastProduct(a: int, b: int)
    ensures (a * b) as real == (a as real) * (b as real)
  {
  }

  lemma {:induction false} AltSumIntegral(f: nat -> real, n: nat)
    requires forall t :: 0 <= t < n ==> Integral(f(t))
    ensures Integral(AltSum(f, n))
  {
    if n > 0 {
      AltSumIntegral(f, n - 1);
      SumIntegral(f(n - 1), 0.0);
      SumIntegral(AltSum(f, n - 1), Alt(n - 1, f(n - 1)));
    }
  }

  ghost predicate IntegralRows(rows: seq<Row>) {
    forall i, j :: 0 <= i < |rows| ==> Integral(rows[i](j))
  }

  /** d is integral on every list of n integral rows. */
  ghost predicate KeepsIntegers(d: RowsFunction, n: nat) {
    forall rows :: |rows| == n && IntegralRows(rows) ==> Integral(d(rows))
  }

  lemma ExpansionIntegral(d: RowsFunction, c: nat, rows: seq<Row>)
    requires rows != [] && KeepsIntegers(d, |rows| - 1) && IntegralRows(rows)
    ensures Integral(Expansion(Mul, d, c)(rows))
  {
    var f := Terms(Mul, d, c, rows);
    forall t | 0 <= t < |rows| ensures Integral(f(t)) {
      assert IntegralRows(Without(rows, t));
      ProductIntegral(rows[t](c), d(Without(rows, t)));
    }
    AltSumIntegral(f, |rows|);
  }

  lemma {:induction false} DetIntegral(cols: seq<nat>)
    ensures KeepsIntegers(DetOn(Mul, cols), |cols|)
  {
    if cols != [] {
      DetIntegral(cols[1..]);
      forall rows | |rows| == |cols| && IntegralRows(rows) ensures Integral(DetOn(Mul, cols)(rows)) {
        ExpansionIntegral(DetOn(Mul, cols[1..]), cols[0], rows);
      }
    }
  }
}
