/** The table of best known coverings and its sweep. */
module CoveringTable {
  // The table of best known coverings: its validation, and the sweep that tells settled cells from open
  // ones.

  import opened Collections
  import opened Arith
  import opened Binomial
  import opened Subsets
  import opened Covering

  datatype Cell = Cell(v: nat, k: nat, t: nat)

  datatype Entry = Entry(cell: Cell, bestKnown: int)

  predicate WellFormed(c: Cell) {
    1 <= c.t <= c.k <= c.v
  }

  /** A list of blocks the check accepts for the cell. */
  ghost predicate Witness(blocks: seq<Block>, c: Cell) {
    IsCovering(blocks, Points(c.v), c.k, c.t)
  }

  lemma ScaleLe(f: int, a: int, b: int)
    requires f >= 0 && a <= b
    ensures f * a <= f * b
  {
    ProductNonNegative(f, b - a);
    Distribute(f, a, b - a);
  }

  lemma CountingStep(v: nat, k: nat, t: nat, l: int, inner: int, cv: int, ck: int, dv: int, dk: int)
    requires t > 0 && t * cv == v * dv && t * ck == k * dk && dk >= 0
    requires dv <= dk * inner && k * l >= v * inner
    ensures cv <= ck * l
  {
    ScaleLe(v, dv, dk * inner);
    ScaleLe(dk, v * inner, k * l);
    assert v * (dk * inner) == dk * (v * inner);
    assert dk * (k * l) == (k * dk) * l == (t * ck) * l == t * (ck * l);
    CancelLe(t, cv, ck * l);
  }

  lemma {:induction false} CountingWithin(v: nat, k: nat, t: nat)
    requires 1 <= t <= k <= v
    ensures Comb(v, t) <= Comb(k, t) * Schonheim(v, k, t)
    decreases t
  {
    Absorption(v, t);
    Absorption(k, t);
    var l, inner := Schonheim(v, k, t), if t == 1 then 1 else Schonheim(v - 1, k - 1, t - 1);
    CeilAtLeast(v * inner, k);
    if t > 1 {
      CountingWithin(v - 1, k - 1, t - 1);
    }
    CountingStep(v, k, t, l, inner, Comb(v, t), Comb(k, t), Comb(v - 1, t - 1), Comb(k - 1, t - 1));
  }

  /** The Schonheim bound always dominates the counting bound. */
  lemma SchonheimDominates(v: nat, k: nat, t: nat)
    requires 1 <= t <= k <= v
    ensures CountingBound(v, k, t) <= Schonheim(v, k, t)
  {
    CombPositive(k, t);
    CountingWithin(v, k, t);
    CeilAtMost(Comb(v, t), Comb(k, t), Schonheim(v, k, t));
  }

  lemma CheapBoundsWitnesses(c: Cell, blocks: seq<Block>)
    requires WellFormed(c) && Witness(blocks, c)
    ensures |blocks| >= Schonheim(c.v, c.k, c.t)
  {
    RangeElements(c.v);
    SchonheimBoundsCoverings(blocks, Points(c.v), c.k, c.t);
  }

  /** The value of the recursion is a bound for the cell. */
  ghost predicate SchonheimHolds(c: Cell)
    requires 1 <= c.k && c.t <= c.k
  {
    forall blocks :: Witness(blocks, c) ==> |blocks| >= Schonheim(c.v, c.k, c.t)
  }

  /** With t = 0 one block is enough, as long as there is one at all. */
  lemma OneBlock(v: nat, k: nat) returns (blocks: seq<Block>)
    requires k <= v
    ensures Witness(blocks, Cell(v, k, 0)) && |blocks| == 1
  {
    RangeElements(v);
    var b := Extend({}, Points(v), k);
    blocks := [b];
    forall s | s in Choose(Points(v), 0) ensures Covers(blocks, s) {
      assert s <= blocks[0];
    }
  }

  lemma CeilOfQuotient(v: nat, k: nat)
    requires 1 <= k <= v
    ensures if v == k then CeilDiv(v, k) == 1 else CeilDiv(v, k) > 1
  {
    CeilAtLeast(v, k);
    if v == k {
      CeilAtMost(v, k, 1);
    }
  }

  lemma NotEmpty(blocks: seq<Block>, v: nat, k: nat)
    requires Witness(blocks, Cell(v, k, 0))
    ensures |blocks| >= 1
  {
    EmptyIsChosen(Points(v));
    assert Covers(blocks, {});
  }

  /** The recursion's value is a bound for coverings exactly if t is positive or the one block is everything. */
  lemma SchonheimHoldsWhen(c: Cell)
    requires 1 <= c.k <= c.v && c.t <= c.k
    ensures SchonheimHolds(c) <==> c.t >= 1 || c.v == c.k
  {
    if c.t >= 1 {
      forall blocks | Witness(blocks, c) ensures |blocks| >= Schonheim(c.v, c.k, c.t) {
        CheapBoundsWitnesses(c, blocks);
      }
    } else {
      CeilOfQuotient(c.v, c.k);
      var one := OneBlock(c.v, c.k);
      forall blocks | Witness(blocks, c) ensures |blocks| >= 1 {
        NotEmpty(blocks, c.v, c.k);
      }
    }
  }

  /** The smallest cell for which it is none. */
  lemma SchonheimFailsAtZero()
    ensures !SchonheimHolds(Cell(2, 1, 0))
  {
    SchonheimHoldsWhen(Cell(2, 1, 0));
  }

  // ----- Validation

  const ANCHORS: seq<Entry> := [
    Entry(Cell(6, 3, 2), 6),
    Entry(Cell(7, 3, 2), 7),
    Entry(Cell(9, 3, 2), 12),
    Entry(Cell(13, 3, 2), 26),
    Entry(Cell(8, 4, 3), 14)
  ]

  datatype Problem =
    | AnchorMismatch(cell: Cell)
    | IllFormed(cell: Cell)
    | BelowSchonheim(cell: Cell, bestKnown: int, bound: int)

  predicate EntryOK(c: Cell, bestKnown: int) {
    WellFormed(c) && bestKnown >= Schonheim(c.v, c.k, c.t)
  }

  predicate AnchorOK(snap: map<Cell, int>, a: Entry) {
    a.cell in snap && snap[a.cell] == a.bestKnown
  }

  predicate Below(c: Cell, bestKnown: int, x: int, bound: int) {
    WellFormed(c) && x == bestKnown && bound == Schonheim(c.v, c.k, c.t) && x < bound
  }

  /** One of the first upto anchors disagrees about the cell. */
  predicate Mismatch(snap: map<Cell, int>, c: Cell, upto: nat)
    requires upto <= |ANCHORS|
  {
    exists j :: 0 <= j < upto && ANCHORS[j].cell == c && !AnchorOK(snap, ANCHORS[j])
  }

  /** cells lists the keys of the snapshot in its own order. */
  method Validate(snap: map<Cell, int>, cells: seq<Cell>) returns (ok: bool, problems: seq<Problem>)
    requires forall c :: c in snap <==> c in cells
    ensures ok <==> problems == []
    ensures ok <==> (forall a :: a in ANCHORS ==> AnchorOK(snap, a)) && forall c :: c in snap ==> EntryOK(c, snap[c])
    ensures forall c :: IllFormed(c) in problems <==> c in snap && !WellFormed(c)
    ensures forall c, x, l :: BelowSchonheim(c, x, l) in problems <==> c in snap && Below(c, snap[c], x, l)
    ensures forall c :: AnchorMismatch(c) in problems <==> Mismatch(snap, c, |ANCHORS|)
  {
    problems := [];
    for i := 0 to |ANCHORS|
      invariant forall p :: p in problems ==> p.AnchorMismatch?
      invariant forall c :: AnchorMismatch(c) in problems <==> Mismatch(snap, c, i)
      invariant problems == [] <==> forall j :: 0 <= j < i ==> AnchorOK(snap, ANCHORS[j])
    {
      if !AnchorOK(snap, ANCHORS[i]) {
        problems := problems + [AnchorMismatch(ANCHORS[i].cell)];
      }
    }
    ghost var anchors := problems;
    for i := 0 to |cells|
      invariant forall c :: AnchorMismatch(c) in problems <==> AnchorMismatch(c) in anchors
      invariant forall c :: IllFormed(c) in problems <==> c in cells[..i] && !WellFormed(c)
      invariant forall c, x, l :: BelowSchonheim(c, x, l) in problems <==> c in cells[..i] && Below(c, snap[c], x, l)
      invariant problems == [] <==> anchors == [] && forall c :: c in cells[..i] ==> EntryOK(c, snap[c])
    {
      var c := cells[i];
      assert cells[..i + 1] == cells[..i] + [c];
      if !WellFormed(c) {
        problems := problems + [IllFormed(c)];
      } else {
        var bound := Schonheim(c.v, c.k, c.t);
        if snap[c] < bound {
          problems := problems + [BelowSchonheim(c, snap[c], bound)];
        }
      }
    }
    assert cells[..|cells|] == cells;
    ok := problems == [];
  }

  /** Whether a covering with found blocks beats the record of its cell. */
  predicate IsImprovement(snap: map<Cell, int>, c: Cell, found: int) {
    c in snap && found < snap[c]
  }

  // ----- The sweep

  datatype Status = Optimal | Open | Anomaly

  datatype Row = Row(cell: Cell, bestKnown: int, schonheim: int, counting: int, cheap: int, gap: int, status: Status)

  function Max(a: int, b: int): int {
    if a >= b then a else b
  }

  /** The cells for which the bounds can be computed: for others a division by zero is met. */
  predicate Computable(c: Cell) {
    1 <= c.k && c.t <= c.k
  }

  /** The cells for which both of them are bounds. */
  predicate Bounded(c: Cell) {
    1 <= c.k <= c.v && c.t <= c.k && (c.t >= 1 || c.v == c.k)
  }

  ghost predicate BoundsAll(c: Cell, n: int) {
    forall blocks :: Witness(blocks, c) ==> |blocks| >= n
  }

  /** What a row of the sweep claims about its cell. */
  ghost predicate RowHolds(c: Cell, bestKnown: int, row: Row) {
    && Computable(c) && row.cell == c && row.bestKnown == bestKnown
    && row.schonheim == Schonheim(c.v, c.k, c.t) && row.counting == CountingBound(c.v, c.k, c.t)
    && row.cheap == Max(row.schonheim, row.counting) && row.gap == bestKnown - row.cheap
    && (row.status.Optimal? <==> row.gap == 0) && (row.status.Anomaly? <==> row.gap < 0)
    && (Bounded(c) ==> BoundsAll(c, row.cheap)) && (WellFormed(c) ==> row.cheap == row.schonheim)
  }

  function CountStatus(rows: seq<Row>, s: Status): nat {
    if rows == [] then 0 else CountStatus(rows[..|rows| - 1], s) + if rows[|rows| - 1].status == s then 1 else 0
  }

  /** The status the comparison with the strongest cheap bound gives. */
  function StatusOf(gap: int): Status {
    if gap < 0 then Anomaly else if gap == 0 then Optimal else Open
  }

  lemma CheapBounds(c: Cell)
    requires Bounded(c)
    ensures BoundsAll(c, Max(Schonheim(c.v, c.k, c.t), CountingBound(c.v, c.k, c.t)))
  {
    SchonheimHoldsWhen(c);
    RangeElements(c.v);
    forall blocks | Witness(blocks, c) ensures |blocks| >= CountingBound(c.v, c.k, c.t) {
      CountingBoundsCoverings(blocks, Points(c.v), c.k, c.t);
    }
  }

  lemma RowIsRight(c: Cell, bestKnown: int, row: Row)
    requires Computable(c) && row.cell == c && row.bestKnown == bestKnown
    requires row.schonheim == Schonheim(c.v, c.k, c.t) && row.counting == CountingBound(c.v, c.k, c.t)
    requires row.cheap == Max(row.schonheim, row.counting) && row.gap == bestKnown - row.cheap
    requires row.status == StatusOf(row.gap)
    ensures RowHolds(c, bestKnown, row)
  {
    if Bounded(c) {
      CheapBounds(c);
    }
    if WellFormed(c) {
      SchonheimDominates(c.v, c.k, c.t);
    }
  }

  ghost predicate Rows(snap: map<Cell, int>, cells: seq<Cell>, rows: seq<Row>) {
    |rows| == |cells| && forall i :: 0 <= i < |rows| ==> cells[i] in snap && RowHolds(cells[i], snap[cells[i]], rows[i])
  }

  lemma RowsGrow(snap: map<Cell, int>, cells: seq<Cell>, rows: seq<Row>, c: Cell, row: Row)
    requires Rows(snap, cells, rows) && c in snap && RowHolds(c, snap[c], row)
    ensures Rows(snap, cells + [c], rows + [row])
    ensures forall s :: CountStatus(rows + [row], s) == CountStatus(rows, s) + if row.status == s then 1 else 0
  {
    assert (rows + [row])[..|rows|] == rows;
  }

  /** The row the sweep makes for a cell. */
  method MakeRow(snap: map<Cell, int>, c: Cell) returns (row: Row)
    requires c in snap && Computable(c)
    ensures RowHolds(c, snap[c], row)
  {
    var s, n := Schonheim(c.v, c.k, c.t), CountingBound(c.v, c.k, c.t);
    var cheap := Max(s, n);
    row := Row(c, snap[c], s, n, cheap, snap[c] - cheap, StatusOf(snap[c] - cheap));
    RowIsRight(c, snap[c], row);
  }

  /** One row for each cell in turn, and how many rows have each status. */
  method Sweep(snap: map<Cell, int>, cells: seq<Cell>) returns (rows: seq<Row>, optimal: nat, open: nat, anomaly: nat)
    requires forall c :: c in cells ==> c in snap && Computable(c)
    ensures Rows(snap, cells, rows)
    ensures optimal == CountStatus(rows, Optimal) && open == CountStatus(rows, Open)
    ensures anomaly == CountStatus(rows, Anomaly) && optimal + open + anomaly == |cells|
  {
    rows, optimal, open, anomaly := [], 0, 0, 0;
    for i := 0 to |cells|
      invariant Rows(snap, cells[..i], rows)
      invariant optimal == CountStatus(rows, Optimal) && open == CountStatus(rows, Open)
      invariant anomaly == CountStatus(rows, Anomaly) && optimal + open + anomaly == i
    {
      var row := MakeRow(snap, cells[i]);
      RowsGrow(snap, cells[..i], rows, cells[i], row);
      TakeNext(cells, i);
      match row.status {
        case Anomaly => anomaly := anomaly + 1;
        case Optimal => optimal := optimal + 1;
        case Open => open := open + 1;
      }
      rows := rows + [row];
    }
    assert cells[..|cells|] == cells;
  }

  /** No accepted list of blocks improves a cell that a row marks optimal; a cell marked as an anomaly
      has no covering of its recorded size at all. */
  lemma SettledRows(snap: map<Cell, int>, row: Row, blocks: seq<Block>)
    requires row.cell in snap && RowHolds(row.cell, snap[row.cell], row) && Bounded(row.cell)
    requires Witness(blocks, row.cell)
    ensures row.status.Optimal? ==> !IsImprovement(snap, row.cell, |blocks|)
    ensures row.status.Anomaly? ==> |blocks| > row.bestKnown
  {
    assert |blocks| >= row.cheap;
  }

  /** A snapshot that passed validation has no anomalies. */
  lemma {:induction false} ValidatedHasNoAnomaly(snap: map<Cell, int>, cells: seq<Cell>, rows: seq<Row>)
    requires Rows(snap, cells, rows) && forall c :: c in cells ==> EntryOK(c, snap[c])
    ensures CountStatus(rows, Anomaly) == 0
  {
    if rows != [] {
      var i := |rows| - 1;
      ValidatedHasNoAnomaly(snap, cells[..i], rows[..i]);
      assert cells[i] in cells && EntryOK(cells[i], snap[cells[i]]);
      assert RowHolds(cells[i], snap[cells[i]], rows[i]);
    }
  }
}
