/** Fraction-free elimination is exact. */
module Bareiss {
  // Fraction-free elimination: the division is exact, and the tableaux hold bordered minors.

  import opened Arith
  import opened Determinant
  import opened Elimination

  type IntMatrix = seq<seq<int>>

  predicate Square(m: IntMatrix) {
    forall i :: 0 <= i < |m| ==> |m[i]| == |m|
  }

  ghost function Cast(m: IntMatrix): Matrix {
    (i: nat) => (j: nat) => if i < |m| && j < |m[i]| then m[i][j] as real else 0.0
  }

  /** The determinant of the leading k by k block. */
  ghost function LeadingMinor(m: IntMatrix, k: nat): real {
    Det(Select(Cast(m), Up(0, k)), Up(0, k))
  }

  /** (k, i, j) to the determinant of the leading k by k block bordered by row i and column j. */
  ghost function Bordered(m: IntMatrix): Minors {
    BorderedMinors(Mul, Cast(m))
  }

  /** Integers related by Sylvester's identity wherever the leading ones allow elimination. */
  ghost predicate Fits(mul: Product, b: Minors) {
    && (forall k, i, j :: Integral(b(k, i, j)))
    && (forall k: nat, i, j :: NonzeroTo(b, k) ==> SylvesterAt(mul, b, k, i, j))
  }

  lemma BorderedFits(m: IntMatrix)
    ensures Fits(Mul, Bordered(m))
  {
    MulIsField();
    forall k, i, j ensures Integral(Bordered(m)(k, i, j)) {
      BorderedIntegral(m, k, i, j);
    }
    forall k: nat, i, j | NonzeroTo(Bordered(m), k) ensures SylvesterAt(Mul, Bordered(m), k, i, j) {
      NonzeroMinorsGivePivots(Mul, Cast(m), k);
      Sylvester(Mul, Cast(m), k, i, j);
    }
  }

  lemma BorderedIntegral(m: IntMatrix, k: nat, i: nat, j: nat)
    ensures Integral(Bordered(m)(k, i, j))
  {
    var rows := Select(Cast(m), Up(0, k) + [i]);
    forall r, c | 0 <= r < |rows| ensures Integral(rows[r](c)) {
    }
    DetIntegral(Up(0, k) + [j]);
  }

  /** The leading minors are determinants of leading blocks. */
  lemma LeadingIsDet(m: IntMatrix, k: nat)
    ensures Leading(Bordered(m), k) == LeadingMinor(m, k)
  {
    if k > 0 {
      assert Up(0, k - 1) + [k - 1] == Up(0, k);
    } else {
      assert Up(0, 0) == [];
    }
  }

  lemma EntriesAreBordered(m: IntMatrix, i: nat, j: nat)
    ensures Bordered(m)(0, i, j) == Cast(m)(i)(j)
  {
    MulIsField();
    DetOfOne(Mul, Cast(m), i, j);
    assert Up(0, 0) + [i] == [i] && Up(0, 0) + [j] == [j];
  }

  // ----- The algorithm

  datatype Outcome =
    | Tableaux(minors: seq<int>, history: seq<IntMatrix>)
    | ZeroDivision
    | InexactDivision

  function Numerator(a: IntMatrix, k: nat, i: nat, j: nat): int
    requires Square(a) && k < |a| && i < |a| && j < |a|
  {
    a[i][j] * a[k][k] - a[i][k] * a[k][j]
  }

  /** One elimination step, unless some division leaves a remainder. */
  method Step(a: IntMatrix, k: nat, prev: int) returns (exact: bool, b: IntMatrix)
    requires Square(a) && k < |a| && prev != 0
    ensures exact <==> forall i, j :: k < i < |a| && k < j < |a| ==> FloorMod(Numerator(a, k, i, j), prev) == 0
    ensures exact ==> |b| == |a| && Square(b)
    ensures exact ==> forall i, j :: 0 <= i < |a| && 0 <= j < |a| ==>
      b[i][j] == if k < i && k < j then FloorDiv(Numerator(a, k, i, j), prev) else a[i][j]
  {
    b := a;
    var n, i := |a|, k + 1;
    while i < n
      invariant k < i <= n && |b| == n && Square(b)
      invariant forall x, y :: k < x < i && k < y < n ==> FloorMod(Numerator(a, k, x, y), prev) == 0
      invariant forall x, y :: 0 <= x < n && 0 <= y < n ==>
        b[x][y] == if k < x < i && k < y then FloorDiv(Numerator(a, k, x, y), prev) else a[x][y]
    {
      var j := k + 1;
      while j < n
        invariant k < j <= n && |b| == n && Square(b)
        invariant forall y :: k < y < j ==> FloorMod(Numerator(a, k, i, y), prev) == 0
        invariant forall x, y :: 0 <= x < n && 0 <= y < n ==>
          b[x][y] == if (k < x < i && k < y) || (x == i && k < y < j)
                     then FloorDiv(Numerator(a, k, x, y), prev) else a[x][y]
      {
        var num := Numerator(a, k, i, j);
        if FloorMod(num, prev) != 0 {
          return false, b;
        }
        b := b[i := b[i][j := FloorDiv(num, prev)]];
        j := j + 1;
      }
      i := i + 1;
    }
    exact := true;
  }

  function Min3(k: nat, i: nat, j: nat): nat {
    var l := if i < j then i else j;
    if k < l then k else l
  }

  /** a holds the minors bordering the leading k by k block, and outside it what earlier steps left. */
  ghost predicate Holds(b: Minors, n: nat, k: nat, a: IntMatrix) {
    && |a| == n && Square(a)
    && forall i, j :: 0 <= i < n && 0 <= j < n ==> a[i][j] as real == b(Min3(k, i, j), i, j)
  }

  lemma CastNumerator(x: int, p: int, y: int, z: int)
    ensures (x * p - y * z) as real == Mul(x as real, p as real) - Mul(y as real, z as real)
  {
    CastProduct(x, p);
    CastProduct(y, z);
  }

  /** Every division of a step is exact, and its quotient is the next bordered minor. */
  lemma StepIsExact(b: Minors, n: nat, k: nat, a: IntMatrix, prev: int, i: nat, j: nat)
    requires Fits(Mul, b) && Holds(b, n, k, a) && prev != 0 && prev as real == Leading(b, k) && NonzeroTo(b, k)
    requires k < i < n && k < j < n
    ensures FloorMod(Numerator(a, k, i, j), prev) == 0
    ensures FloorDiv(Numerator(a, k, i, j), prev) as real == b(k + 1, i, j)
  {
    var num, z := Numerator(a, k, i, j), b(k + 1, i, j).Floor;
    assert Integral(b(k + 1, i, j));
    CastNumerator(a[i][j], a[k][k], a[i][k], a[k][j]);
    assert SylvesterAt(Mul, b, k, i, j);
    CastProduct(prev, z);
    assert num as real == (prev * z) as real;
    FloorDivExact(prev, z);
  }

  lemma StepKeeps(b: Minors, n: nat, k: nat, a: IntMatrix, prev: int, next: IntMatrix)
    requires Fits(Mul, b) && Holds(b, n, k, a) && prev != 0 && prev as real == Leading(b, k) && NonzeroTo(b, k)
    requires k < n == |next| && Square(next)
    requires forall i, j :: 0 <= i < n && 0 <= j < n ==>
      next[i][j] == if k < i && k < j then FloorDiv(Numerator(a, k, i, j), prev) else a[i][j]
    ensures Holds(b, n, k + 1, next)
  {
    forall i, j | 0 <= i < n && 0 <= j < n ensures next[i][j] as real == b(Min3(k + 1, i, j), i, j) {
      if k < i && k < j {
        StepIsExact(b, n, k, a, prev, i, j);
      }
    }
  }

  ghost predicate Computes(b: Minors, n: nat, r: Outcome) {
    && r.Tableaux?
    && |r.minors| == n + 1 && (forall k :: 0 <= k <= n ==> r.minors[k] as real == Leading(b, k))
    && |r.history| == (if n == 0 then 1 else n)
    && (forall k :: 0 <= k < |r.history| ==> Holds(b, n, k, r.history[k]))
  }

  /** The elimination loop, for any table of minors that fits the entries of the matrix. */
  method Eliminate(m: IntMatrix, ghost b: Minors) returns (r: Outcome)
    requires Square(m) && Fits(Mul, b) && Holds(b, |m|, 0, m)
    ensures !r.InexactDivision?
    ensures r.Tableaux? <==> NonzeroTo(b, |m| - 2)
    ensures r.Tableaux? ==> Computes(b, |m|, r)
  {
    var n, a, minors, history, prev := |m|, m, [1], [m], 1;
    var k := 0;
    while k < n
      invariant 0 <= k < n || k == n == 0
      invariant Holds(b, n, k, a) && |history| == k + 1 && history[k] == a
      invariant forall i :: 0 <= i <= k ==> Holds(b, n, i, history[i])
      invariant |minors| == k + 1 && forall i :: 0 <= i <= k ==> minors[i] as real == Leading(b, i)
      invariant prev == minors[k] && NonzeroTo(b, k - 1)
      decreases n - k
    {
      var pivot := a[k][k];
      minors := minors + [pivot];
      if k == n - 1 {
        return Tableaux(minors, history);
      }
      if prev == 0 {
        assert k > 0 && Leading(b, k) == 0.0;
        return ZeroDivision;
      }
      assert NonzeroTo(b, k);
      var exact, next := Step(a, k, prev);
      forall i, j | k < i < n && k < j < n ensures FloorMod(Numerator(a, k, i, j), prev) == 0 {
        StepIsExact(b, n, k, a, prev, i, j);
      }
      StepKeeps(b, n, k, a, prev, next);
      if !exact {
        return InexactDivision;
      }
      a := next;
      history := history + [a];
      prev := pivot;
      k := k + 1;
    }
    return Tableaux(minors, history);
  }

  /** Bareiss elimination. It never meets an inexact division; it divides by zero exactly when one of
      the first n - 2 leading minors is zero; otherwise it returns all leading minors and, in the
      k-th tableau, the minors that border the leading k by k block. */
  method BareissMinors(m: IntMatrix) returns (r: Outcome)
    requires Square(m)
    ensures !r.InexactDivision?
    ensures r.Tableaux? <==> forall k :: 1 <= k <= |m| - 2 ==> LeadingMinor(m, k) != 0.0
    ensures r.Tableaux? ==> Computes(Bordered(m), |m|, r)
    ensures r.Tableaux? ==> forall k :: 0 <= k <= |m| ==> r.minors[k] as real == LeadingMinor(m, k)
  {
    BorderedFits(m);
    forall i, j | 0 <= i < |m| && 0 <= j < |m| ensures m[i][j] as real == Bordered(m)(0, i, j) {
      EntriesAreBordered(m, i, j);
    }
    forall k: nat ensures Leading(Bordered(m), k) == LeadingMinor(m, k) {
      LeadingIsDet(m, k);
    }
    r := Eliminate(m, Bordered(m));
  }

  /** Whether every leading minor but the empty one is positive. */
  method MinorsPositive(minors: seq<int>) returns (ok: bool)
    requires minors != []
    ensures ok <==> forall k :: 1 <= k < |minors| ==> minors[k] > 0
  {
    for i := 1 to |minors|
      invariant forall k :: 1 <= k < i ==> minors[k] > 0
    {
      if minors[i] <= 0 {
        return false;
      }
    }
    return true;
  }
}
