/** Order certificates and their gaps. */
module OrderSeparation {
  // Separating pasts that share a suffix: for two hidden states the gap of a certificate is a power of
  // one determinant, so finitely many numbers decide all orders.

  import opened Fractions
  import opened Determinant
  import opened Elimination
  import opened Quadratic
  import opened Processes

  function Repeat(s: int, k: nat): Word {
    if k == 0 then [] else Repeat(s, k - 1) + [s]
  }

  /** The cross-multiplied difference of P(a | u) and P(a | w). */
  function Gap(h: Hmm, u: Word, w: Word, a: int): real {
    Mul(Probability(Mul, h, u + [a]), Probability(Mul, h, w))
    - Mul(Probability(Mul, h, w + [a]), Probability(Mul, h, u))
  }

  datatype Separation = Separation(a: int, pre1: Word, pre2: Word, suffix: int)

  function Past1(c: Separation, k: nat): Word {
    c.pre1 + Repeat(c.suffix, k)
  }

  function Past2(c: Separation, k: nat): Word {
    c.pre2 + Repeat(c.suffix, k)
  }

  /** The certificate of order k accepts. */
  predicate Separates(h: Hmm, c: Separation, k: nat) {
    && Gap(h, Past1(c, k), Past2(c, k), c.a) != 0.0
    && Probability(Mul, h, Past1(c, k)) > 0.0 && Probability(Mul, h, Past2(c, k)) > 0.0
  }

  // ----- Clearing denominators

  /** f is written for the number x. */
  ghost predicate Writes(f: Fraction, x: real) {
    f.den > 0 && Mul(x, f.den as real) == f.num as real
  }

  lemma CancelReal(a: real, b: real, c: real)
    requires c != 0.0 && a * c == b * c
    ensures a == b
  {
    assert (a - b) * c == 0.0;
    ProductSign(a - b, c);
  }

  /** The cleared integer is d times the number. */
  lemma ClearedValue(f: Fraction, x: real, n: int, d: nat)
    requires Writes(f, x) && SameFraction(f, n, d)
    ensures n as real == Mul(d as real, x)
  {
    CastProduct(n, f.den);
    CastProduct(f.num, d);
    assert (d as real * x) * (f.den as real) == (x * (f.den as real)) * (d as real);
    CancelReal(n as real, d as real * x, f.den as real);
  }

  /** Over a common denominator the determinant is the gap times its square, with the same signs. */
  lemma ClearedVerdict(d: real, p1a: real, p1: real, p2a: real, p2: real)
    requires d > 0.0
    ensures (d * p1a) * (d * p2) - (d * p1) * (d * p2a) == (d * d) * (p1a * p2 - p2a * p1)
    ensures (d * p1a) * (d * p2) - (d * p1) * (d * p2a) != 0.0 <==> p1a * p2 - p2a * p1 != 0.0
    ensures d * p1 > 0.0 <==> p1 > 0.0
  {
    ProductSign(d, p1);
    ProductSign(d, d);
    var gap, square := p1a * p2 - p2a * p1, d * d;
    assert (d * p1a) * (d * p2) - (d * p1) * (d * p2a) == square * gap;
    ProductSign(square, gap);
  }

  lemma IntegerDeterminant(ns: seq<int>, d: nat, p1a: real, p1: real, p2a: real, p2: real, det: int)
    requires |ns| == 4 && d > 0 && det == ns[0] * ns[3] - ns[1] * ns[2]
    requires ns[0] as real == d as real * p1a && ns[1] as real == d as real * p1
    requires ns[2] as real == d as real * p2a && ns[3] as real == d as real * p2
    ensures det as real == (d as real * d as real) * (p1a * p2 - p2a * p1)
    ensures det != 0 <==> p1a * p2 - p2a * p1 != 0.0
    ensures (ns[1] > 0 <==> p1 > 0.0) && (ns[3] > 0 <==> p2 > 0.0)
  {
    CastProduct(ns[0], ns[3]);
    CastProduct(ns[1], ns[2]);
    ClearedVerdict(d as real, p1a, p1, p2a, p2);
    ClearedVerdict(d as real, p2a, p2, p1a, p1);
  }

  /** The rows (P(a h1), P(h1)) and (P(a h2), P(h2)). */
  function Entries(h: Hmm, c: Separation, k: nat): (r: seq<real>)
    ensures |r| == 4
  {
    var u, w := Past1(c, k), Past2(c, k);
    [Probability(Mul, h, u + [c.a]), Probability(Mul, h, u), Probability(Mul, h, w + [c.a]), Probability(Mul, h, w)]
  }

  datatype Report = Report(matrix: seq<int>, denom: nat, det: int, ok: bool)

  ghost predicate Writable(fraction: real -> Fraction, xs: seq<real>) {
    forall i :: 0 <= i < |xs| ==> Writes(fraction(xs[i]), xs[i])
  }

  ghost function Written(fraction: real -> Fraction, xs: seq<real>): (r: seq<Fraction>)
    ensures |r| == |xs|
  {
    seq(|xs|, i requires 0 <= i < |xs| => fraction(xs[i]))
  }

  /** The integers are the numbers over the denominator, with the determinant and the signs of theirs. */
  ghost predicate Reports(r: Report, xs: seq<real>)
    requires |xs| == 4
  {
    && r.denom > 0 && |r.matrix| == 4
    && (forall i :: 0 <= i < 4 ==> r.matrix[i] as real == Mul(r.denom as real, xs[i]))
    && r.det as real == Mul(Mul(r.denom as real, r.denom as real), Mul(xs[0], xs[3]) - Mul(xs[2], xs[1]))
    && (r.ok <==> Mul(xs[0], xs[3]) - Mul(xs[2], xs[1]) != 0.0 && xs[1] > 0.0 && xs[3] > 0.0)
  }

  lemma ClearedEntries(fs: seq<Fraction>, xs: seq<real>, ns: seq<int>, d: nat)
    requires |fs| == |xs| && OverDenominator(fs, ns, d) && forall i :: 0 <= i < |fs| ==> Writes(fs[i], xs[i])
    ensures forall i :: 0 <= i < |fs| ==> ns[i] as real == Mul(d as real, xs[i])
  {
    forall i | 0 <= i < |fs| ensures ns[i] as real == Mul(d as real, xs[i]) {
      ClearedValue(fs[i], xs[i], ns[i], d);
    }
  }

  function ReportOf(ns: seq<int>, d: nat): Report
    requires |ns| == 4
  {
    var det := ns[0] * ns[3] - ns[1] * ns[2];
    Report(ns, d, det, det != 0 && ns[1] > 0 && ns[3] > 0)
  }

  lemma ReportIsRight(ns: seq<int>, d: nat, xs: seq<real>)
    requires |ns| == |xs| == 4 && d > 0
    requires forall i :: 0 <= i < 4 ==> ns[i] as real == Mul(d as real, xs[i])
    ensures Reports(ReportOf(ns, d), xs)
  {
    IntegerDeterminant(ns, d, xs[0], xs[1], xs[2], xs[3], ns[0] * ns[3] - ns[1] * ns[2]);
  }

  method CertifyEntries(fs: seq<Fraction>, ghost xs: seq<real>) returns (r: Report)
    requires |fs| == |xs| == 4 && Proper(fs) && forall i :: 0 <= i < 4 ==> Writes(fs[i], xs[i])
    ensures Reports(r, xs) && LeastDenominator(fs, r.denom)
  {
    var ns, d := ClearInt(fs);
    ClearedEntries(fs, xs, ns, d);
    ReportIsRight(ns, d, xs);
    r := ReportOf(ns, d);
  }

  /** The certificate of order k. fraction gives the numerator and denominator a number is kept as. */
  method OrderSeparationCert(h: Hmm, c: Separation, k: nat, fraction: real -> Fraction) returns (r: Report)
    requires Writable(fraction, Entries(h, c, k))
    ensures Reports(r, Entries(h, c, k))
    ensures r.ok == Separates(h, c, k)
    ensures LeastDenominator(Written(fraction, Entries(h, c, k)), r.denom)
  {
    var p1 := Prob(h, Past1(c, k));
    var p2 := Prob(h, Past2(c, k));
    var p1a := Prob(h, Past1(c, k) + [c.a]);
    var p2a := Prob(h, Past2(c, k) + [c.a]);
    ghost var xs := Entries(h, c, k);
    assert Writes(fraction(xs[0]), xs[0]) && Writes(fraction(xs[1]), xs[1]);
    assert Writes(fraction(xs[2]), xs[2]) && Writes(fraction(xs[3]), xs[3]);
    var fs := [fraction(p1a), fraction(p1), fraction(p2a), fraction(p2)];
    assert Written(fraction, xs) == fs;
    r := CertifyEntries(fs, xs);
  }

  // ----- Not of any finite order

  ghost predicate SameSuffix(u: Word, w: Word, k: nat) {
    |u| >= k && |w| >= k && u[|u| - k..] == w[|w| - k..]
  }

  /** The next symbol depends on the last k symbols only. */
  ghost predicate MarkovOfOrder(h: Hmm, k: nat) {
    forall u, w, a :: SameSuffix(u, w, k) && Probability(Mul, h, u) > 0.0 && Probability(Mul, h, w) > 0.0
      ==> Gap(h, u, w, a) == 0.0
  }

  lemma {:induction false} RepeatLength(s: int, k: nat)
    ensures |Repeat(s, k)| == k
  {
    if k > 0 {
      RepeatLength(s, k - 1);
    }
  }

  /** An accepted certificate of order k refutes Markov order k. */
  lemma SeparatesRefutesOrder(h: Hmm, c: Separation, k: nat)
    requires Separates(h, c, k)
    ensures !MarkovOfOrder(h, k)
  {
    RepeatLength(c.suffix, k);
    var u, w := Past1(c, k), Past2(c, k);
    assert u[|u| - k..] == Repeat(c.suffix, k) == w[|w| - k..];
    assert SameSuffix(u, w, k);
  }

  // ----- Two states

  function Det2(m: Matrix): real {
    Mul(m(0)(0), m(1)(1)) - Mul(m(0)(1), m(1)(0))
  }

  function Cross(x: Vector, y: Vector): real {
    Mul(x(0), y(1)) - Mul(x(1), y(0))
  }

  lemma DotTwo(u: Vector, x: Vector)
    ensures Dot(Mul, u, x, 2) == Mul(u(0), x(0)) + Mul(u(1), x(1))
  {
    assert Dot(Mul, u, x, 1) == Dot(Mul, u, x, 0) + Mul(u(0), x(0));
  }

  lemma FourTerms(p: real, q: real, r: real, t: real)
    ensures (p + q) * (r + t) == p * r + p * t + q * r + q * t
  {
  }

  lemma Swap(a: real, b: real, c: real, d: real)
    ensures (a * b) * (c * d) == (a * c) * (b * d)
  {
  }

  lemma DeterminantsMultiply(x0: real, x1: real, y0: real, y1: real, a: real, b: real, c: real, d: real)
    ensures Mul(Mul(x0, a) + Mul(x1, c), Mul(y0, b) + Mul(y1, d))
         - Mul(Mul(x0, b) + Mul(x1, d), Mul(y0, a) + Mul(y1, c))
         == Mul(Mul(x0, y1) - Mul(x1, y0), Mul(a, d) - Mul(b, c))
  {
    FourTerms(x0 * a, x1 * c, y0 * b, y1 * d);
    FourTerms(x0 * b, x1 * d, y0 * a, y1 * c);
    FourTerms(x0 * y1, -(x1 * y0), a * d, -(b * c));
    Swap(x0, a, y0, b);
    Swap(x0, b, y0, a);
    Swap(x0, a, y1, d);
    Swap(x0, b, y1, c);
    Swap(x1, c, y0, b);
    Swap(x1, d, y0, a);
    Swap(x1, c, y1, d);
    Swap(x1, d, y1, c);
  }

  lemma CrossStep(x: Vector, y: Vector, m: Matrix)
    ensures Cross(VecMat(Mul, x, m, 2), VecMat(Mul, y, m, 2)) == Mul(Cross(x, y), Det2(m))
  {
    DotTwo(x, Column(m, 0));
    DotTwo(x, Column(m, 1));
    DotTwo(y, Column(m, 0));
    DotTwo(y, Column(m, 1));
    DeterminantsMultiply(x(0), x(1), y(0), y(1), m(0)(0), m(0)(1), m(1)(0), m(1)(1));
  }

  lemma GapIdentity(x0: real, x1: real, y0: real, y1: real, c0: real, c1: real)
    ensures Mul(Mul(x0, c0) + Mul(x1, c1), y0 + y1) - Mul(Mul(y0, c0) + Mul(y1, c1), x0 + x1)
         == Mul(c0 - c1, Mul(x0, y1) - Mul(x1, y0))
  {
  }

  function Reach(h: Hmm, w: Word): Vector {
    Through(Mul, h, h.initial, w)
  }

  lemma SumTwo(x: Vector)
    ensures Sum(x, 2) == x(0) + x(1)
  {
    assert Sum(x, 1) == Sum(x, 0) + x(0);
  }

  /** How much more likely state 0 is than state 1 to emit a. */
  function Contrast(h: Hmm, a: int): real {
    Ahead(Mul, h, [a])(0) - Ahead(Mul, h, [a])(1)
  }

  lemma GapIsCross(h: Hmm, u: Word, w: Word, a: int)
    requires h.states == 2
    ensures Gap(h, u, w, a) == Mul(Contrast(h, a), Cross(Reach(h, u), Reach(h, w)))
  {
    MulIsField();
    var x, y, c := Reach(h, u), Reach(h, w), Ahead(Mul, h, [a]);
    SplitProbability(Mul, h, u, [a]);
    SplitProbability(Mul, h, w, [a]);
    DotTwo(x, c);
    DotTwo(y, c);
    SumTwo(x);
    SumTwo(y);
    GapIdentity(x(0), x(1), y(0), y(1), c(0), c(1));
  }

  function RealPower(x: real, k: nat): real {
    if k == 0 then 1.0 else Mul(RealPower(x, k - 1), x)
  }

  lemma ReachNext(h: Hmm, pre: Word, s: int, k: nat)
    ensures Reach(h, pre + Repeat(s, k + 1)) == VecMat(Mul, Reach(h, pre + Repeat(s, k)), h.emits(s), h.states)
  {
    var w := pre + Repeat(s, k);
    assert pre + Repeat(s, k + 1) == w + [s];
    ThroughConcat(Mul, h, h.initial, w, [s]);
    assert [s][0] == s && [s][1..] == [];
    assert Through(Mul, h, Reach(h, w), [s]) == Through(Mul, h, VecMat(Mul, Reach(h, w), h.emits(s), h.states), []);
  }

  lemma CrossOneMore(h: Hmm, c: Separation, k: nat)
    requires h.states == 2
    ensures Cross(Reach(h, Past1(c, k + 1)), Reach(h, Past2(c, k + 1)))
         == Mul(Cross(Reach(h, Past1(c, k)), Reach(h, Past2(c, k))), Det2(h.emits(c.suffix)))
  {
    ReachNext(h, c.pre1, c.suffix, k);
    ReachNext(h, c.pre2, c.suffix, k);
    CrossStep(Reach(h, Past1(c, k)), Reach(h, Past2(c, k)), h.emits(c.suffix));
  }

  lemma TimesPower(a: real, x: real, k: nat)
    ensures Mul(Mul(a, RealPower(x, k)), x) == Mul(a, RealPower(x, k + 1))
  {
    assert (a * RealPower(x, k)) * x == a * (RealPower(x, k) * x);
  }

  lemma {:induction false} CrossPower(h: Hmm, c: Separation, k: nat)
    requires h.states == 2
    ensures Cross(Reach(h, Past1(c, k)), Reach(h, Past2(c, k)))
         == Mul(Cross(Reach(h, c.pre1), Reach(h, c.pre2)), RealPower(Det2(h.emits(c.suffix)), k))
  {
    if k == 0 {
      assert Past1(c, 0) == c.pre1 && Past2(c, 0) == c.pre2;
    } else {
      CrossPower(h, c, k - 1);
      CrossOneMore(h, c, k - 1);
      TimesPower(Cross(Reach(h, c.pre1), Reach(h, c.pre2)), Det2(h.emits(c.suffix)), k - 1);
    }
  }

  /** D_k = D_0 det(T)^k, with T the operator of the suffix. */
  lemma GapPower(h: Hmm, c: Separation, k: nat)
    requires h.states == 2
    ensures Gap(h, Past1(c, k), Past2(c, k), c.a)
         == Mul(Gap(h, c.pre1, c.pre2, c.a), RealPower(Det2(h.emits(c.suffix)), k))
  {
    CrossPower(h, c, k);
    GapIsCross(h, Past1(c, k), Past2(c, k), c.a);
    GapIsCross(h, c.pre1, c.pre2, c.a);
  }

  lemma NonzeroProduct(a: real, b: real)
    ensures Mul(a, b) != 0.0 <==> a != 0.0 && b != 0.0
  {
    ProductSign(a, b);
  }

  lemma {:induction false} NonzeroPower(x: real, k: nat)
    ensures RealPower(x, k) != 0.0 <==> k == 0 || x != 0.0
  {
    if k > 0 {
      NonzeroPower(x, k - 1);
      NonzeroProduct(RealPower(x, k - 1), x);
    }
  }

  // ----- Positive denominators

  /** Every state emits s with positive probability. */
  predicate AlwaysEmits(h: Hmm, s: int) {
    forall i :: 0 <= i < h.states ==> Ahead(Mul, h, [s])(i) > 0.0
  }

  lemma MassSurvives(h: Hmm, x: Vector, s: int)
    requires HmmValid(h) && AlwaysEmits(h, s) && NonNegative(x, h.states) && Sum(x, h.states) > 0.0
    ensures Sum(VecMat(Mul, x, h.emits(s), h.states), h.states) > 0.0
  {
    RealsSigned();
    SumIsDot(Mul, x, h.states);
    var i := SharedCoordinate(Mul, x, Ones(), h.states);
    SharingIsPositive(Mul, x, Ahead(Mul, h, [s]), h.states, i);
    ThroughIsDot(Mul, h, x, [s]);
    assert [s][0] == s && [s][1..] == [];
    assert Through(Mul, h, x, [s]) == Through(Mul, h, VecMat(Mul, x, h.emits(s), h.states), []);
  }

  lemma {:induction false} PastsPossible(h: Hmm, pre: Word, s: int, k: nat)
    requires HmmValid(h) && AlwaysEmits(h, s) && s in h.symbols && Emits(h, pre) && Probability(Mul, h, pre) > 0.0
    ensures Probability(Mul, h, pre + Repeat(s, k)) > 0.0 && Emits(h, pre + Repeat(s, k))
  {
    if k == 0 {
      assert pre + Repeat(s, 0) == pre;
    } else {
      PastsPossible(h, pre, s, k - 1);
      assert pre + Repeat(s, k) == (pre + Repeat(s, k - 1)) + [s];
      RealsSigned();
      ThroughNonNegative(Mul, h, h.initial, pre + Repeat(s, k - 1));
      MassSurvives(h, Reach(h, pre + Repeat(s, k - 1)), s);
      ReachNext(h, pre, s, k - 1);
    }
  }

  /** One nonzero gap, one nonzero determinant and positive pasts make the certificate of every order. */
  lemma SeparatesForever(h: Hmm, c: Separation, k: nat)
    requires HmmValid(h) && h.states == 2 && AlwaysEmits(h, c.suffix) && c.suffix in h.symbols
    requires Emits(h, c.pre1) && Emits(h, c.pre2) && Separates(h, c, 0) && Det2(h.emits(c.suffix)) != 0.0
    ensures Separates(h, c, k) && !MarkovOfOrder(h, k)
  {
    assert Past1(c, 0) == c.pre1 && Past2(c, 0) == c.pre2;
    GapPower(h, c, k);
    NonzeroPower(Det2(h.emits(c.suffix)), k);
    NonzeroProduct(Gap(h, c.pre1, c.pre2, c.a), RealPower(Det2(h.emits(c.suffix)), k));
    PastsPossible(h, c.pre1, c.suffix, k);
    PastsPossible(h, c.pre2, c.suffix, k);
    SeparatesRefutesOrder(h, c, k);
  }
}
