/** Mined residue patterns: true, distinct and spread. */
module PatternMining {
  // Mining residue patterns: every pattern is true of every integer, no two share a signature, and a
  // miner hands each out once.

  import opened Collections
  import opened Arith
  import opened Congruence
  import opened Polynomials
  import opened NormalForms
  import opened Signatures
  import opened PolyText

  // ----- Values of coefficient lists

  function PolyValue(coeffs: seq<int>, x: int, k: nat): int
    requires k <= |coeffs|
  {
    if k == 0 then 0 else PolyValue(coeffs, x, k - 1) + coeffs[k - 1] * Power(x, k - 1)
  }

  lemma {:induction false} PolyValuePeriodic(coeffs: seq<int>, x: int, y: int, m: int, k: nat)
    requires k <= |coeffs| && Cong(x, y, m)
    ensures Cong(PolyValue(coeffs, x, k), PolyValue(coeffs, y, k), m)
  {
    if k == 0 {
      CongRefl(0, m);
    } else {
      PolyValuePeriodic(coeffs, x, y, m, k - 1);
      CongPower(x, y, k - 1, m);
      CongScale(coeffs[k - 1], Power(x, k - 1), Power(y, k - 1), m);
      CongAdd(PolyValue(coeffs, x, k - 1), PolyValue(coeffs, y, k - 1),
              coeffs[k - 1] * Power(x, k - 1), coeffs[k - 1] * Power(y, k - 1), m);
    }
  }

  /** The residues taken on one period. */
  function PeriodResidues(coeffs: seq<int>, m: nat, upto: nat): set<int>
    requires m > 0
  {
    if upto == 0 then {}
    else PeriodResidues(coeffs, m, upto - 1) + {PolyValue(coeffs, upto - 1, |coeffs|) % m}
  }

  lemma {:induction false} PeriodListed(coeffs: seq<int>, m: nat, upto: nat, x: int)
    requires m > 0 && 0 <= x < upto
    ensures PolyValue(coeffs, x, |coeffs|) % m in PeriodResidues(coeffs, m, upto)
  {
    if x < upto - 1 {
      PeriodListed(coeffs, m, upto - 1, x);
    }
  }

  method EvaluateMod(coeffs: seq<int>, n: int, m: nat) returns (r: int)
    requires m > 0
    ensures r == PolyValue(coeffs, n, |coeffs|) % m
  {
    var value, p := 0, 1;
    for k := 0 to |coeffs|
      invariant value == PolyValue(coeffs, n, k) && p == Power(n, k)
    {
      value := value + coeffs[k] * p;
      p := n * p;
    }
    r := value % m;
  }

  method ResidueSetOf(coeffs: seq<int>, m: nat) returns (residues: set<int>)
    requires m > 0
    ensures residues == PeriodResidues(coeffs, m, m)
  {
    residues := {};
    for n := 0 to m
      invariant residues == PeriodResidues(coeffs, m, n)
    {
      var r := EvaluateMod(coeffs, n, m);
      residues := residues + {r};
    }
  }

  /** One period is enough: the residue at every integer is among them. */
  lemma EveryResidueListed(coeffs: seq<int>, m: nat, x: int)
    requires m > 0
    ensures PolyValue(coeffs, x, |coeffs|) % m in PeriodResidues(coeffs, m, m)
  {
    var y := x % m;
    CongResidue(x, m);
    PolyValuePeriodic(coeffs, y, x, m, |coeffs|);
    CongMeansResidue(PolyValue(coeffs, y, |coeffs|), PolyValue(coeffs, x, |coeffs|), m);
    PeriodListed(coeffs, m, m, y);
  }

  function ResidueAt(coeffs: seq<int>, m: nat, x: int): int
    requires m > 0
  {
    PolyValue(coeffs, x, |coeffs|) % m
  }

  /** Some integer has this residue. */
  ghost predicate Taken(coeffs: seq<int>, m: nat, r: int)
    requires m > 0
  {
    exists x :: ResidueAt(coeffs, m, x) == r
  }

  lemma {:induction false} PeriodTaken(coeffs: seq<int>, m: nat, upto: nat, r: int)
    requires m > 0 && r in PeriodResidues(coeffs, m, upto)
    ensures 0 <= r < m && Taken(coeffs, m, r)
  {
    if r == PolyValue(coeffs, upto - 1, |coeffs|) % m {
      assert ResidueAt(coeffs, m, upto - 1) == r;
    } else {
      PeriodTaken(coeffs, m, upto - 1, r);
    }
  }

  /** The residues of one period are exactly the residues of all integers. */
  lemma PeriodIsTaken(coeffs: seq<int>, m: nat, r: int)
    requires m > 0
    ensures r in PeriodResidues(coeffs, m, m) <==> Taken(coeffs, m, r)
  {
    if Taken(coeffs, m, r) {
      var x :| ResidueAt(coeffs, m, x) == r;
      EveryResidueListed(coeffs, m, x);
    }
    if r in PeriodResidues(coeffs, m, m) {
      PeriodTaken(coeffs, m, m, r);
    }
  }

  // ----- The written polynomial has this value

  lemma MonomialValue(k: nat, env: Env)
    ensures MonoValue(Monomial(k), env) == Power(env(N), k)
  {
    MonomialSize(k);
    MonoPower(Monomial(k), {N}, env, env(N));
  }

  /** The terms of power k and above. */
  function ValueFrom(coeffs: seq<int>, x: int, k: nat): int
    requires k <= |coeffs|
    decreases |coeffs| - k
  {
    if k == |coeffs| then 0 else ValueFrom(coeffs, x, k + 1) + coeffs[k] * Power(x, k)
  }

  lemma {:induction false} ValuesAddUp(coeffs: seq<int>, x: int, k: nat)
    requires k <= |coeffs|
    ensures PolyValue(coeffs, x, k) + ValueFrom(coeffs, x, k) == PolyValue(coeffs, x, |coeffs|)
    decreases |coeffs| - k
  {
    if k < |coeffs| {
      ValuesAddUp(coeffs, x, k + 1);
    }
  }

  lemma OneValueAt(mono: Mono, c: int, env: Env)
    ensures Value(One(mono, c), env) == c * MonoValue(mono, env)
  {
    assert One(mono, c)[1..] == [];
  }

  lemma BodyValue(mag: nat, power: nat, env: Env)
    requires power <= MAX_EXP
    ensures Eval(BodyNode(mag, power), env) == mag * Power(env(N), power)
  {
    BodyExpands(mag, power);
    ExpandValue(BodyNode(mag, power), env);
    OneValueAt(Monomial(power), mag, env);
    MonomialValue(power, env);
  }

  lemma FirstValue(c: int, power: nat, env: Env)
    requires power <= MAX_EXP
    ensures Eval(FirstNode(c, power), env) == c * Power(env(N), power)
  {
    FirstExpands(c, power);
    ExpandValue(FirstNode(c, power), env);
    OneValueAt(Monomial(power), c, env);
    MonomialValue(power, env);
  }

  /** The value of what was read so far, nothing being zero. */
  function ReadValue(n: Option<Node>, env: Env): int {
    if n.None? then 0 else Eval(n.value, env)
  }

  lemma NegatedTerm(c: int, p: int)
    requires c < 0
    ensures c * p == -(Abs(c) * p)
  {
  }

  lemma JoinedValue(acc: Node, c: int, power: nat, env: Env, p: int)
    requires power <= MAX_EXP && p == Power(env(N), power)
    ensures Eval(Joined(acc, c, power), env) == Eval(acc, env) + c * p
  {
    BodyValue(Abs(c), power, env);
    if c < 0 {
      NegatedTerm(c, p);
    }
  }

  lemma NodeStep(coeffs: seq<int>, k: nat, env: Env, p: int)
    requires k < |coeffs| <= MAX_EXP + 1 && p == Power(env(N), k)
    ensures ReadValue(NodeFrom(coeffs, k), env) == ReadValue(NodeFrom(coeffs, k + 1), env) + coeffs[k] * p
  {
    var c, higher := coeffs[k], NodeFrom(coeffs, k + 1);
    NodeCases(coeffs, k);
    if c != 0 {
      if higher.None? {
        FirstValue(c, k, env);
      } else {
        JoinedValue(higher.value, c, k, env, p);
      }
    }
  }

  lemma {:induction false} NodeValue(coeffs: seq<int>, k: nat, env: Env)
    requires k <= |coeffs| <= MAX_EXP + 1
    ensures ValueFrom(coeffs, env(N), k) == ReadValue(NodeFrom(coeffs, k), env)
    decreases |coeffs| - k
  {
    if k < |coeffs| {
      NodeValue(coeffs, k + 1, env);
      NodeStep(coeffs, k, env, Power(env(N), k));
    }
  }

  /** Whoever reads the text reads the polynomial. */
  lemma PolyNodeValue(coeffs: seq<int>, env: Env)
    requires |coeffs| <= MAX_EXP + 1
    ensures Eval(PolyNode(coeffs), env) == PolyValue(coeffs, env(N), |coeffs|)
  {
    NodeValue(coeffs, 0, env);
    ValuesAddUp(coeffs, env(N), 0);
  }

  // ----- The property

  /** The residues below m that are in the set, in order. */
  function Sorted(residues: set<int>, m: nat): seq<int> {
    if m == 0 then [] else Sorted(residues, m - 1) + if m - 1 in residues then [m - 1] else []
  }

  lemma {:induction false} SortedMembers(residues: set<int>, m: nat, r: int)
    ensures r in Sorted(residues, m) <==> 0 <= r < m && r in residues
  {
    if m > 0 {
      SortedMembers(residues, m - 1, r);
    }
  }

  lemma {:induction false} SortedSize(residues: set<int>, m: nat)
    ensures |Sorted(residues, m)| <= m
    ensures |Sorted(residues, m)| == m <==> forall r :: 0 <= r < m ==> r in residues
  {
    if m > 0 {
      SortedSize(residues, m - 1);
    }
  }

  function Missing(residues: set<int>, m: nat): seq<int> {
    if m == 0 then [] else Missing(residues, m - 1) + if m - 1 in residues then [] else [m - 1]
  }

  lemma {:induction false} MissingMembers(residues: set<int>, m: nat, r: int)
    ensures r in Missing(residues, m) <==> 0 <= r < m && r !in residues
  {
    if m > 0 {
      MissingMembers(residues, m - 1, r);
    }
  }

  function Constants(rs: seq<int>): (ns: seq<Node>)
    ensures |ns| == |rs| && forall i :: 0 <= i < |ns| ==> ns[i] == Const(rs[i])
  {
    seq(|rs|, i requires 0 <= i < |rs| => Const(rs[i]))
  }

  /** The residue fact as a claim, or none if every residue is taken: equality for one residue, inequality
      if one is missing, membership otherwise. */
  function Property(coeffs: seq<int>, m: nat, residues: set<int>): Option<Node> {
    var rs, gaps := Sorted(residues, m), Missing(residues, m);
    var residue := Node.Mod(PolyNode(coeffs), Const(m));
    if |rs| >= m then None
    else if |rs| == 1 then Some(Compare(Eq, residue, Const(rs[0])))
    else if |rs| == m - 1 && gaps != [] then Some(Compare(NotEq, residue, Const(gaps[0])))
    else Some(Compare(In, residue, Literal(Constants(rs))))
  }

  lemma ResidueNodeValue(coeffs: seq<int>, m: nat, env: Env)
    requires m >= 2 && |coeffs| <= MAX_EXP + 1
    ensures Eval(Node.Mod(PolyNode(coeffs), Const(m)), env) == PolyValue(coeffs, env(N), |coeffs|) % m
  {
    PolyNodeValue(coeffs, env);
    ModuloIsResidue(Node.Mod(PolyNode(coeffs), Const(m)), Modded(PolyNode(coeffs), m), env);
  }

  lemma FoundTrue(left: Node, elts: seq<Node>, i: nat, env: Env)
    requires i < |elts| && Eval(elts[i], env) == Eval(left, env)
    ensures True(Compare(In, left, Literal(elts)), env)
  {
    var right := Literal(elts);
    assert right.elts[i] == elts[i];
    assert Eval(right.elts[i], env) == Eval(left, env);
    assert Eval(Compare(In, left, right), env)
      == Truth(exists j :: 0 <= j < |right.elts| && Eval(right.elts[j], env) == Eval(left, env));
  }

  lemma MemberTrue(left: Node, rs: seq<int>, env: Env, r: int)
    requires r == Eval(left, env) && r in rs
    ensures True(Compare(In, left, Literal(Constants(rs))), env)
  {
    var i :| 0 <= i < |rs| && rs[i] == r;
    FoundTrue(left, Constants(rs), i, env);
  }

  /** The property of every mined residue set is true of every integer. */
  lemma PropertyTrue(coeffs: seq<int>, m: nat, residues: set<int>, env: Env)
    requires m >= 2 && |coeffs| <= MAX_EXP + 1 && residues == PeriodResidues(coeffs, m, m)
    requires Property(coeffs, m, residues).Some?
    ensures True(Property(coeffs, m, residues).value, env)
  {
    var r := PolyValue(coeffs, env(N), |coeffs|) % m;
    var rs, gaps := Sorted(residues, m), Missing(residues, m);
    ResidueNodeValue(coeffs, m, env);
    EveryResidueListed(coeffs, m, env(N));
    SortedMembers(residues, m, r);
    if |rs| == 1 {
    } else if |rs| == m - 1 && gaps != [] {
      assert gaps[0] in gaps;
      MissingMembers(residues, m, gaps[0]);
    } else {
      MemberTrue(Node.Mod(PolyNode(coeffs), Const(m)), rs, env, r);
    }
  }

  /** The right-hand side of the claim lets the residue r through. */
  predicate Accepts(op: CmpOp, right: Node, r: int) {
    match op
    case Eq => right == Const(r)
    case NotEq => right.Const? && right != Const(r)
    case In => right.Literal? && Const(r) in right.elts
    case _ => false
  }

  /** The residues below m that the polynomial takes. */
  ghost function TakenBelow(coeffs: seq<int>, m: nat): set<int>
    requires m > 0
  {
    set r | 0 <= r < m && Taken(coeffs, m, r)
  }

  /** The claim is about the polynomial's residue and lets exactly the residues taken through. It is an
      equality if one is taken, an inequality if all but one are, and otherwise lists them in order. */
  ghost predicate Says(prop: Node, coeffs: seq<int>, m: nat)
    requires m > 0
  {
    && prop.Compare? && prop.left == Node.Mod(PolyNode(coeffs), Const(m))
    && (forall r :: 0 <= r < m ==> (Accepts(prop.op, prop.right, r) <==> Taken(coeffs, m, r)))
    && |TakenBelow(coeffs, m)| < m
    && prop.op == (if |TakenBelow(coeffs, m)| == 1 then Eq else if |TakenBelow(coeffs, m)| == m - 1 then NotEq else In)
    && (prop.op.In? ==> exists rs :: Increasing(rs) && prop.right == Literal(Constants(rs)))
  }

  lemma {:induction false} SortedIncreases(residues: set<int>, m: nat)
    ensures Increasing(Sorted(residues, m))
  {
    if m > 0 {
      SortedIncreases(residues, m - 1);
      var front := Sorted(residues, m - 1);
      forall i | 0 <= i < |front| ensures front[i] < m - 1 {
        SortedMembers(residues, m - 1, front[i]);
      }
    }
  }

  lemma {:induction false} SortedCounts(residues: set<int>, m: nat, s: set<int>)
    requires forall r :: r in s <==> 0 <= r < m && r in residues
    ensures |s| == |Sorted(residues, m)| == m - |Missing(residues, m)|
    decreases m
  {
    if m > 0 {
      SortedCounts(residues, m - 1, s - {m - 1});
      assert m - 1 in s ==> s == s - {m - 1} + {m - 1};
      assert m - 1 !in s ==> s == s - {m - 1};
    } else {
      assert s == {} by {
        if s != {} {
          var r := Member(s);
        }
      }
    }
  }

  lemma InConstants(rs: seq<int>, r: int)
    ensures Const(r) in Constants(rs) <==> r in rs
  {
    if r in rs {
      var i :| 0 <= i < |rs| && rs[i] == r;
      assert Constants(rs)[i] == Const(r);
    }
  }

  lemma OneListed(rs: seq<int>, r: int)
    requires |rs| == 1
    ensures r in rs <==> r == rs[0]
  {
  }

  /** Which residues the claim of a residue set lets through. */
  lemma PropertyAccepts(coeffs: seq<int>, m: nat, residues: set<int>, r: int)
    requires Property(coeffs, m, residues).Some? && 0 <= r < m
    ensures var prop := Property(coeffs, m, residues).value;
      prop.Compare? && (Accepts(prop.op, prop.right, r) <==> r in residues)
  {
    var rs, gaps := Sorted(residues, m), Missing(residues, m);
    SortedMembers(residues, m, r);
    MissingMembers(residues, m, r);
    SortedCounts(residues, m, set x | 0 <= x < m && x in residues);
    if |rs| == 1 {
      OneListed(rs, r);
    } else if |rs| == m - 1 {
      OneListed(gaps, r);
    } else {
      InConstants(rs, r);
    }
  }

  /** What is claimed of the residues of one period. */
  lemma PropertySays(coeffs: seq<int>, m: nat, residues: set<int>)
    requires m > 0 && residues == PeriodResidues(coeffs, m, m) && Property(coeffs, m, residues).Some?
    ensures Says(Property(coeffs, m, residues).value, coeffs, m)
  {
    var prop, taken := Property(coeffs, m, residues).value, TakenBelow(coeffs, m);
    forall r ensures r in residues <==> Taken(coeffs, m, r) {
      PeriodIsTaken(coeffs, m, r);
    }
    forall r | 0 <= r < m ensures Accepts(prop.op, prop.right, r) <==> Taken(coeffs, m, r) {
      PropertyAccepts(coeffs, m, residues, r);
    }
    SortedCounts(residues, m, taken);
    SortedIncreases(residues, m);
  }

  // ----- Mining

  datatype Pattern = Pattern(coeffs: seq<int>, m: nat, residues: seq<int>, prop: Node, signature: Sig, score: real)

  /** A claim whose normal form is empty compares a constant with itself. */
  predicate Constant(s: Sig) {
    match s
    case Atom(_, _, norm) => norm.Zero?
    case Residues(_, _, degrees, _) => degrees == map[]
    case _ => false
  }

  function Score(degree: nat, m: nat, count: nat, monic: bool): real
    requires m > 0
  {
    1.0 - count as real / m as real + (if 1 < count < m then 0.3 else 0.0) + (if monic then 0.15 else 0.0)
      - 0.03 * m as real - 0.05 * (if degree > 2 then degree - 2 else 0) as real
  }

  lemma FewerScoreHigher(degree: nat, m: nat, few: nat, many: nat, monic: bool)
    requires 1 < few < many < m
    ensures Score(degree, m, few, monic) > Score(degree, m, many, monic)
  {
    ShareOrder(few, many, m);
  }

  lemma ShareOrder(a: int, b: int, m: nat)
    requires m > 0
    ensures b as real / m as real - a as real / m as real == (b - a) as real / m as real
    ensures a < b ==> (b - a) as real / m as real > 0.0
  {
    var x, y, z, n := a as real, b as real, (b - a) as real, m as real;
    assert z == y - x;
  }

  /** Several residues beat a single one exactly if they are few for the modulus. */
  lemma SeveralScoreHigherWhen(degree: nat, m: nat, count: nat, monic: bool)
    requires 1 < count < m
    ensures Score(degree, m, count, monic) > Score(degree, m, 1, monic) <==> 10 * (count - 1) < 3 * m
  {
    ShareOrder(1, count, m);
    var share := (count - 1) as real / m as real;
    assert share * m as real == (count - 1) as real;
    assert share < 0.3 <==> share * m as real < 0.3 * m as real;
  }

  /** A monic polynomial scores higher, and a lower degree no lower; strictly so above two. */
  lemma PlainerScoreHigher(degree: nat, above: nat, m: nat, count: nat, monic: bool)
    requires m > 0 && degree < above
    ensures Score(degree, m, count, true) > Score(degree, m, count, false)
    ensures Score(degree, m, count, monic) >= Score(above, m, count, monic)
    ensures Score(degree, m, count, monic) > Score(above, m, count, monic) <==> above > 2
  {
  }

  lemma ShareDifference(count: nat, m: nat, larger: nat)
    requires 0 < m < larger
    ensures (count as real / m as real - count as real / larger as real) * (m * larger) as real
         == (count * (larger - m)) as real
  {
    var c, x, y := count as real, m as real, larger as real;
    var u, v := c / x, c / y;
    assert u * x == c && v * y == c;
    assert (u - v) * (x * y) == (u * x) * y - (v * y) * x;
    assert (m * larger) as real == x * y;
    assert (count * (larger - m)) as real == c * (y - x);
  }

  lemma ShareBelow(a: real, b: real, p: real)
    requires p > 0.0
    ensures a < b <==> a * p < b * p
  {
  }

  lemma Thirds(count: nat, d: nat, n: nat, side: real)
    requires d > 0 && side == 0.03 * d as real * n as real
    ensures (count * d) as real < side <==> 100 * count < 3 * n
  {
    var c, e, x := count as real, d as real, n as real;
    assert (count * d) as real == c * e && side == e * (0.03 * x) && c * e == e * c;
    ScaledOrder(e, c, 0.03 * x);
    assert (100 * count) as real == 100.0 * c && (3 * n) as real == 3.0 * x;
  }

  lemma ScaledOrder(e: real, a: real, b: real)
    requires e > 0.0
    ensures e * a < e * b <==> a < b
  {
  }

  lemma GapWhen(count: nat, m: nat, larger: nat, gap: real, step: real)
    requires 0 < m < larger && step == 0.03 * (larger - m) as real
    requires gap == count as real / m as real - count as real / larger as real
    ensures gap < step <==> 100 * count < 3 * (m * larger)
  {
    ShareDifference(count, m, larger);
    ProductPositive(m, larger);
    ShareBelow(gap, step, (m * larger) as real);
    Thirds(count, larger - m, m * larger, step * (m * larger) as real);
  }

  /** A smaller modulus does not always score higher, but exactly if it is not too small for the number of
      residues. */
  lemma SmallerModulusScoresHigherWhen(degree: nat, m: nat, larger: nat, count: nat, monic: bool)
    requires 1 <= count < m < larger
    ensures Score(degree, m, count, monic) > Score(degree, larger, count, monic) <==> 100 * count < 3 * (m * larger)
  {
    var gap, step := count as real / m as real - count as real / larger as real, 0.03 * (larger - m) as real;
    GapWhen(count, m, larger, gap, step);
    assert step == 0.03 * larger as real - 0.03 * m as real;
  }

  lemma ThreeScoresBelowFour()
    ensures Score(2, 3, 2, true) < Score(2, 4, 2, true)
  {
  }

  ghost predicate TrueEverywhere(p: Node) {
    forall env: Env :: True(p, env)
  }

  /** The residues listed are exactly those taken by the polynomial, in order, and so does the claim say. */
  ghost predicate ExactResidues(p: Pattern) {
    && p.m > 0 && Increasing(p.residues) && (forall r :: r in p.residues <==> Taken(p.coeffs, p.m, r))
    && Says(p.prop, p.coeffs, p.m)
  }

  /** What every mined pattern keeps. */
  ghost predicate Sound(p: Pattern, known: set<Sig>) {
    && TrueEverywhere(p.prop) && ExactResidues(p)
    && CongruenceSig(p.prop) == Some(p.signature) && p.signature !in known && !Constant(p.signature)
  }

  /** How many patterns a miner keeps. */
  const POOL: nat := 256

  datatype Candidate = Candidate(coeffs: seq<int>, m: nat)

  predicate Allowed(c: Candidate) {
    2 <= c.m && 1 <= |c.coeffs| <= MAX_EXP + 1
  }

  /** The pattern of one candidate, if it is recognized, new and not constant. */
  function PatternOf(c: Candidate, known: set<Sig>): Option<Pattern>
    requires Allowed(c)
  {
    var residues := PeriodResidues(c.coeffs, c.m, c.m);
    match Property(c.coeffs, c.m, residues)
    case None => None
    case Some(prop) =>
      match CongruenceSig(prop)
      case None => None
      case Some(sig) =>
        if sig in known || Constant(sig) then None
        else
          var rs := Sorted(residues, c.m);
          var score := Score(|c.coeffs| - 1, c.m, |rs|, c.coeffs[|c.coeffs| - 1] == 1);
          Some(Pattern(c.coeffs, c.m, rs, prop, sig, score))
  }

  lemma PatternSound(c: Candidate, known: set<Sig>)
    requires Allowed(c) && PatternOf(c, known).Some?
    ensures Sound(PatternOf(c, known).value, known)
  {
    var p := PatternOf(c, known).value;
    forall env: Env ensures True(p.prop, env) {
      PropertyTrue(c.coeffs, c.m, PeriodResidues(c.coeffs, c.m, c.m), env);
    }
    PropertySays(c.coeffs, c.m, PeriodResidues(c.coeffs, c.m, c.m));
    SortedIncreases(PeriodResidues(c.coeffs, c.m, c.m), c.m);
    forall r ensures r in p.residues <==> Taken(p.coeffs, p.m, r) {
      SortedMembers(PeriodResidues(c.coeffs, c.m, c.m), c.m, r);
      PeriodIsTaken(c.coeffs, c.m, r);
      if Taken(c.coeffs, c.m, r) {
        var x :| ResidueAt(c.coeffs, c.m, x) == r;
      }
    }
  }

  /** The polynomial takes every residue. */
  ghost predicate Vacuous(c: Candidate)
    requires Allowed(c)
  {
    forall r :: 0 <= r < c.m ==> Taken(c.coeffs, c.m, r)
  }

  lemma VacuousMeansNone(c: Candidate)
    requires Allowed(c)
    ensures Property(c.coeffs, c.m, PeriodResidues(c.coeffs, c.m, c.m)).None? <==> Vacuous(c)
  {
    SortedSize(PeriodResidues(c.coeffs, c.m, c.m), c.m);
    forall r ensures r in PeriodResidues(c.coeffs, c.m, c.m) <==> Taken(c.coeffs, c.m, r) {
      PeriodIsTaken(c.coeffs, c.m, r);
    }
  }

  /** The claim has no signature, or a known one, or one that says nothing of the polynomial. */
  predicate Refused(prop: Node, known: set<Sig>) {
    var sig := CongruenceSig(prop);
    sig.None? || sig.value in known || Constant(sig.value)
  }

  /** What is claimed of a candidate that misses a residue. */
  ghost function Claimed(c: Candidate): Node
    requires Allowed(c) && !Vacuous(c)
  {
    VacuousMeansNone(c);
    Property(c.coeffs, c.m, PeriodResidues(c.coeffs, c.m, c.m)).value
  }

  /** A pattern comes out exactly if the candidate misses a residue and its claim is not refused; and then
      it is sound and states the candidate's claim. */
  ghost predicate MinedFrom(r: Option<Pattern>, c: Candidate, known: set<Sig>)
    requires Allowed(c)
  {
    && (r.None? <==> Vacuous(c) || Refused(Claimed(c), known))
    && (r.Some? ==> Sound(r.value, known) && r.value.coeffs == c.coeffs && r.value.m == c.m && !Vacuous(c)
                    && r.value.prop == Claimed(c))
  }

  lemma PatternMined(c: Candidate, known: set<Sig>)
    requires Allowed(c)
    ensures MinedFrom(PatternOf(c, known), c, known)
  {
    VacuousMeansNone(c);
    if PatternOf(c, known).Some? {
      PatternSound(c, known);
    }
  }

  method MineOne(c: Candidate, known: set<Sig>) returns (r: Option<Pattern>)
    requires Allowed(c)
    ensures r == PatternOf(c, known) && MinedFrom(r, c, known)
  {
    PatternMined(c, known);
    var residues := ResidueSetOf(c.coeffs, c.m);
    var prop := Property(c.coeffs, c.m, residues);
    if prop.None? || Refused(prop.value, known) {
      return None;
    }
    var sig := CongruenceSig(prop.value);
    var rs := Sorted(residues, c.m);
    var score := Score(|c.coeffs| - 1, c.m, |rs|, c.coeffs[|c.coeffs| - 1] == 1);
    r := Some(Pattern(c.coeffs, c.m, rs, prop.value, sig.value, score));
  }

  ghost predicate AllAllowed(candidates: seq<Candidate>) {
    forall i :: 0 <= i < |candidates| ==> Allowed(candidates[i])
  }

  /** p is at least as good as what the i-th candidate gives under its signature. */
  ghost predicate Beats(best: map<Sig, Pattern>, r: Option<Pattern>) {
    r.Some? ==> r.value.signature in best && best[r.value.signature].score >= r.value.score
  }

  ghost predicate Keyed(best: map<Sig, Pattern>, known: set<Sig>) {
    forall s :: s in best ==> best[s].signature == s && Sound(best[s], known)
  }

  /** Keep the better of two patterns with one signature. */
  function Better(best: map<Sig, Pattern>, r: Pattern): map<Sig, Pattern> {
    if r.signature !in best || r.score > best[r.signature].score then best[r.signature := r] else best
  }

  lemma KeyedBetter(best: map<Sig, Pattern>, known: set<Sig>, r: Pattern)
    requires Keyed(best, known) && Sound(r, known)
    ensures Keyed(Better(best, r), known)
  {
  }

  lemma BeatsBetter(best: map<Sig, Pattern>, r: Pattern, q: Option<Pattern>)
    requires q == Some(r) || Beats(best, q)
    ensures Beats(Better(best, r), q)
  {
  }

  /** What the candidates give, one by one. */
  ghost function Results(candidates: seq<Candidate>, known: set<Sig>): (r: seq<Option<Pattern>>)
    requires AllAllowed(candidates)
    ensures |r| == |candidates| && forall i :: 0 <= i < |r| ==> r[i] == PatternOf(candidates[i], known)
  {
    seq(|candidates|, i requires 0 <= i < |candidates| => PatternOf(candidates[i], known))
  }

  ghost predicate Worse(r: Option<Pattern>, p: Pattern) {
    r.Some? && r.value.signature == p.signature ==> r.value.score < p.score
  }

  ghost predicate FirstAt(p: Pattern, results: seq<Option<Pattern>>, i: nat) {
    i < |results| && results[i] == Some(p) && forall j :: 0 <= j < i ==> Worse(results[j], p)
  }

  /** Some candidate gives the pattern, and none before it gives one as good under its signature. */
  ghost predicate GivenFirst(p: Pattern, results: seq<Option<Pattern>>) {
    exists i :: FirstAt(p, results, i)
  }

  /** Every pattern kept is what some candidate gives, the first one of equally good ones. */
  ghost predicate AllGiven(best: map<Sig, Pattern>, results: seq<Option<Pattern>>) {
    forall s :: s in best ==> GivenFirst(best[s], results)
  }

  ghost predicate BeatsFirst(best: map<Sig, Pattern>, results: seq<Option<Pattern>>, n: nat)
    requires n <= |results|
  {
    forall i :: 0 <= i < n ==> Beats(best, results[i])
  }

  lemma GivenStep(best: map<Sig, Pattern>, results: seq<Option<Pattern>>, n: nat, r: Pattern)
    requires n < |results| && results[n] == Some(r) && BeatsFirst(best, results, n) && AllGiven(best, results)
    ensures AllGiven(Better(best, r), results)
  {
    if Better(best, r) != best {
      forall j | 0 <= j < n ensures Worse(results[j], r) {
        assert Beats(best, results[j]);
      }
      assert FirstAt(r, results, n);
    }
  }

  lemma BeatsStep(best: map<Sig, Pattern>, results: seq<Option<Pattern>>, n: nat, r: Pattern)
    requires n < |results| && results[n] == Some(r) && BeatsFirst(best, results, n)
    ensures BeatsFirst(Better(best, r), results, n + 1)
  {
    forall i | 0 <= i < n + 1 ensures Beats(Better(best, r), results[i]) {
      BeatsBetter(best, r, results[i]);
    }
  }

  lemma CollectStep(best: map<Sig, Pattern>, results: seq<Option<Pattern>>, known: set<Sig>, n: nat, r: Pattern)
    requires n < |results| && results[n] == Some(r) && Sound(r, known)
    requires Keyed(best, known) && BeatsFirst(best, results, n) && AllGiven(best, results)
    ensures Keyed(Better(best, r), known) && BeatsFirst(Better(best, r), results, n + 1)
    ensures AllGiven(Better(best, r), results)
  {
    KeyedBetter(best, known, r);
    BeatsStep(best, results, n, r);
    GivenStep(best, results, n, r);
  }

  /** The best for each signature of the patterns the candidates give. */
  method Collect(candidates: seq<Candidate>, known: set<Sig>) returns (best: map<Sig, Pattern>)
    requires AllAllowed(candidates)
    ensures Keyed(best, known) && BeatsFirst(best, Results(candidates, known), |candidates|)
    ensures AllGiven(best, Results(candidates, known))
  {
    best := map[];
    ghost var results := Results(candidates, known);
    for i := 0 to |candidates|
      invariant Keyed(best, known) && BeatsFirst(best, results, i) && AllGiven(best, results)
    {
      assert Allowed(candidates[i]);
      var r := MineOne(candidates[i], known);
      if r.Some? {
        CollectStep(best, results, known, i, r.value);
        best := Better(best, r.value);
      }
    }
  }

  // ----- Ranking

  ghost predicate Distinct(patterns: seq<Pattern>) {
    forall i, j :: 0 <= i < j < |patterns| ==> patterns[i].signature != patterns[j].signature
  }

  /** Every pattern sound, and no signature twice; whatever the order. */
  ghost predicate Clean(patterns: multiset<Pattern>, known: set<Sig>) {
    && (forall p :: p in patterns ==> patterns[p] == 1 && Sound(p, known))
    && (forall p, q :: p in patterns && q in patterns && p.signature == q.signature ==> p == q)
  }

  lemma CleanIsDistinct(patterns: seq<Pattern>, known: set<Sig>)
    requires Clean(multiset(patterns), known)
    ensures Distinct(patterns) && forall i :: 0 <= i < |patterns| ==> Sound(patterns[i], known)
  {
    forall i | 0 <= i < |patterns| ensures Sound(patterns[i], known) {
      assert patterns[i] in multiset(patterns);
    }
    forall i, j | 0 <= i < j < |patterns| ensures patterns[i].signature != patterns[j].signature {
      assert patterns[i] in multiset(patterns) && patterns[j] in multiset(patterns);
      if patterns[i] == patterns[j] {
        OccursTwice(patterns, i, j);
      }
    }
  }

  predicate Above(a: Pattern, b: Pattern) {
    a.score > b.score || (a.score == b.score && a.m <= b.m)
  }

  /** Insert behind all patterns that are ranked above. */
  function Ranked(ps: seq<Pattern>, p: Pattern): seq<Pattern> {
    if ps == [] || !Above(ps[0], p) then [p] + ps else [ps[0]] + Ranked(ps[1..], p)
  }

  lemma {:induction false} RankedMembers(ps: seq<Pattern>, p: Pattern)
    ensures multiset(Ranked(ps, p)) == multiset(ps) + multiset{p}
  {
    if ps != [] && Above(ps[0], p) {
      RankedMembers(ps[1..], p);
      assert ps == [ps[0]] + ps[1..];
    }
  }

  predicate InOrder(ps: seq<Pattern>) {
    forall i :: 0 < i < |ps| ==> Above(ps[i - 1], ps[i])
  }

  /** Any two patterns in order are ranked by score, and with equal scores by modulus. */
  lemma {:induction false} OrderMeans(ps: seq<Pattern>, i: nat, j: nat)
    requires InOrder(ps) && i < j < |ps|
    ensures ps[i].score >= ps[j].score && (ps[i].score == ps[j].score ==> ps[i].m <= ps[j].m)
  {
    assert Above(ps[j - 1], ps[j]);
    if i < j - 1 {
      OrderMeans(ps, i, j - 1);
    }
  }

  lemma {:induction false} RankedInOrder(ps: seq<Pattern>, p: Pattern)
    requires InOrder(ps)
    ensures InOrder(Ranked(ps, p))
    ensures Ranked(ps, p)[0] == p || (ps != [] && Ranked(ps, p)[0] == ps[0])
  {
    if ps != [] && Above(ps[0], p) {
      assert InOrder(ps[1..]) by {
        forall i | 0 < i < |ps[1..]| ensures Above(ps[1..][i - 1], ps[1..][i]) {
          assert Above(ps[i], ps[i + 1]);
        }
      }
      RankedInOrder(ps[1..], p);
      var rest := Ranked(ps[1..], p);
      assert rest[0] == p || Above(ps[0], rest[0]) by {
        if |ps| > 1 {
          assert Above(ps[0], ps[1]);
        }
      }
      forall i | 0 < i < |[ps[0]] + rest| ensures Above(([ps[0]] + rest)[i - 1], ([ps[0]] + rest)[i]) {
        if i > 1 {
          assert Above(rest[i - 2], rest[i - 1]);
        }
      }
    }
  }

  lemma CleanAdds(patterns: multiset<Pattern>, p: Pattern, known: set<Sig>)
    requires Clean(patterns, known) && Sound(p, known)
    requires forall q :: q in patterns ==> q.signature != p.signature
    ensures Clean(patterns + multiset{p}, known)
  {
  }

  /** ps ranks the patterns of the signatures that are not left. */
  ghost predicate RanksOut(best: map<Sig, Pattern>, known: set<Sig>, left: set<Sig>, ps: seq<Pattern>) {
    && Clean(multiset(ps), known) && InOrder(ps)
    && forall p :: p in multiset(ps) <==> p.signature in best && p.signature !in left && best[p.signature] == p
  }

  lemma RankMembers(best: map<Sig, Pattern>, left: set<Sig>, ps: seq<Pattern>, p: Pattern)
    requires p.signature in best && best[p.signature] == p && p.signature in left
    requires forall q :: q in multiset(ps) <==> q.signature in best && q.signature !in left && best[q.signature] == q
    ensures forall q :: q in multiset(Ranked(ps, p)) <==>
      q.signature in best && q.signature !in left - {p.signature} && best[q.signature] == q
  {
    RankedMembers(ps, p);
    forall q
      ensures q in multiset(Ranked(ps, p)) <==>
        q.signature in best && q.signature !in left - {p.signature} && best[q.signature] == q
    {
      assert q in multiset(Ranked(ps, p)) <==> q in multiset(ps) || q == p;
    }
  }

  lemma RankStep(best: map<Sig, Pattern>, known: set<Sig>, left: set<Sig>, ps: seq<Pattern>, s: Sig)
    requires Keyed(best, known) && RanksOut(best, known, left, ps) && s in left && s in best
    ensures RanksOut(best, known, left - {s}, Ranked(ps, best[s]))
  {
    var p := best[s];
    CleanAdds(multiset(ps), p, known);
    RankedMembers(ps, p);
    RankedInOrder(ps, p);
    RankMembers(best, left, ps, p);
  }

  lemma RankStarts(best: map<Sig, Pattern>, known: set<Sig>)
    ensures RanksOut(best, known, best.Keys, [])
  {
  }

  /** All values of the table, best first. */
  method RankAll(best: map<Sig, Pattern>, known: set<Sig>) returns (ps: seq<Pattern>)
    requires Keyed(best, known)
    ensures RanksOut(best, known, {}, ps)
  {
    ps := [];
    var left := best.Keys;
    RankStarts(best, known);
    while left != {}
      invariant left <= best.Keys && RanksOut(best, known, left, ps)
      decreases |left|
    {
      var s :| s in left;
      RankStep(best, known, left, ps, s);
      ps := Ranked(ps, best[s]);
      left := left - {s};
    }
  }

  // ----- Spreading

  function HighestUpTo(f: map<nat, int>, d: nat): nat {
    if d == 0 || d in f then d else HighestUpTo(f, d - 1)
  }

  lemma {:induction false} HighestIsLargest(f: map<nat, int>, d: nat, k: nat)
    requires k in f && k <= d
    ensures k <= HighestUpTo(f, d) <= d && HighestUpTo(f, d) in f
  {
    if d !in f {
      HighestIsLargest(f, d - 1, k);
    }
  }

  /** The degree of the reduced polynomial of a signature. */
  function DegreeOf(p: Pattern): nat {
    match p.signature
    case Atom(_, _, norm) => if norm.Uni? then HighestUpTo(norm.degrees, MAX_DEGREE) else 0
    case Residues(_, _, degrees, _) => HighestUpTo(degrees, MAX_DEGREE)
    case _ => 0
  }

  type Key = (nat, nat)

  function KeyOf(p: Pattern): Key {
    (DegreeOf(p), p.m)
  }

  predicate KeyBefore(a: Key, b: Key) {
    a.0 < b.0 || (a.0 == b.0 && a.1 < b.1)
  }

  ghost predicate KeysInOrder(keys: seq<Key>) {
    forall i, j :: 0 <= i < j < |keys| ==> KeyBefore(keys[i], keys[j])
  }

  /** Where the key is, or belongs. */
  function Position(keys: seq<Key>, k: Key): (i: nat)
    ensures i <= |keys| && forall j :: 0 <= j < i ==> KeyBefore(keys[j], k)
    ensures i < |keys| ==> !KeyBefore(keys[i], k)
  {
    if keys == [] || !KeyBefore(keys[0], k) then 0 else 1 + Position(keys[1..], k)
  }

  /** The patterns of one family, in order. */
  function Family(ps: seq<Pattern>, k: Key): (r: seq<Pattern>)
    ensures forall p :: p in r ==> KeyOf(p) == k
  {
    if ps == [] then []
    else
      var last := ps[|ps| - 1];
      Family(ps[..|ps| - 1], k) + if KeyOf(last) == k then [last] else []
  }

  lemma FamilyAppend(ps: seq<Pattern>, p: Pattern, k: Key)
    ensures Family(ps + [p], k) == Family(ps, k) + if KeyOf(p) == k then [p] else []
  {
    assert (ps + [p])[..|ps|] == ps;
  }

  lemma OtherFamily(out: seq<Pattern>, p: Pattern, k: Key)
    requires KeyOf(p) != k
    ensures Family(out + [p], k) == Family(out, k)
  {
    FamilyAppend(out, p, k);
  }

  lemma CountAppend(ps: seq<Pattern>, q: Pattern, p: Pattern)
    ensures multiset(ps + [q])[p] == multiset(ps)[p] + if q == p then 1 else 0
  {
    assert multiset(ps + [q]) == multiset(ps) + multiset{q};
  }

  lemma {:induction false} FamilyCounts(ps: seq<Pattern>, p: Pattern)
    ensures multiset(ps)[p] == multiset(Family(ps, KeyOf(p)))[p]
  {
    if ps != [] {
      var front, last := ps[..|ps| - 1], ps[|ps| - 1];
      assert ps == front + [last];
      FamilyCounts(front, p);
      FamilyAppend(front, last, KeyOf(p));
      CountAppend(front, last, p);
      CountAppend(Family(front, KeyOf(p)), last, p);
    }
  }

  /** How many of its family come before the i-th pattern. */
  function Place(ps: seq<Pattern>, i: nat): nat
    requires i < |ps|
  {
    |Family(ps[..i], KeyOf(ps[i]))|
  }

  predicate InTurn(r: nat, k: Key, s: nat, l: Key) {
    r < s || (r == s && KeyBefore(k, l))
  }

  /** The firsts of all families by key, then the seconds, and so on. */
  ghost predicate RoundRobin(ps: seq<Pattern>) {
    forall i, j :: 0 <= i < j < |ps| ==> InTurn(Place(ps, i), KeyOf(ps[i]), Place(ps, j), KeyOf(ps[j]))
  }

  /** A rearrangement by turns that keeps the order within every family. */
  ghost predicate Spreads(ranked: seq<Pattern>, out: seq<Pattern>) {
    multiset(out) == multiset(ranked) && RoundRobin(out) && forall k :: Family(out, k) == Family(ranked, k)
  }

  ghost predicate Grouped(ps: seq<Pattern>, keys: seq<Key>, queues: seq<seq<Pattern>>) {
    && |keys| == |queues| && KeysInOrder(keys)
    && (forall i :: 0 <= i < |keys| ==> queues[i] == Family(ps, keys[i]))
    && (forall k :: k !in keys ==> Family(ps, k) == [])
  }

  lemma Appended(ps: seq<Pattern>, keys: seq<Key>, queues: seq<seq<Pattern>>, i: nat, p: Pattern)
    requires Grouped(ps, keys, queues) && i < |keys| && keys[i] == KeyOf(p)
    ensures Grouped(ps + [p], keys, queues[i := queues[i] + [p]])
  {
    forall k ensures Family(ps + [p], k) == Family(ps, k) + if KeyOf(p) == k then [p] else [] {
      FamilyAppend(ps, p, k);
    }
  }

  function Inserted<T>(s: seq<T>, i: nat, x: T): (r: seq<T>)
    requires i <= |s|
    ensures |r| == |s| + 1 && r[i] == x
    ensures forall j :: 0 <= j < i ==> r[j] == s[j]
    ensures forall j :: i <= j < |s| ==> r[j + 1] == s[j]
  {
    s[..i] + [x] + s[i..]
  }

  lemma InsertedBefore(keys: seq<Key>, i: nat, k: Key, a: nat, b: nat)
    requires KeysInOrder(keys) && i <= |keys| && a < b <= |keys|
    requires forall j :: 0 <= j < i ==> KeyBefore(keys[j], k)
    requires forall j :: i <= j < |keys| ==> KeyBefore(k, keys[j])
    ensures KeyBefore(Inserted(keys, i, k)[a], Inserted(keys, i, k)[b])
  {
    var r := Inserted(keys, i, k);
    if a != i && b != i {
      var x, y := if a < i then a else a - 1, if b < i then b else b - 1;
      assert r[a] == keys[x] && r[b] == keys[y];
    } else if a == i {
      assert r[b] == keys[b - 1];
    } else {
      assert r[a] == keys[a];
    }
  }

  lemma KeyInserted(keys: seq<Key>, i: nat, k: Key)
    requires KeysInOrder(keys) && i == Position(keys, k) && (i < |keys| ==> keys[i] != k)
    ensures k !in keys && KeysInOrder(Inserted(keys, i, k))
  {
    forall j | i <= j < |keys| ensures KeyBefore(k, keys[j]) {
      assert j == i || KeyBefore(keys[i], keys[j]);
    }
    forall a, b | 0 <= a < b <= |keys| ensures KeyBefore(Inserted(keys, i, k)[a], Inserted(keys, i, k)[b]) {
      InsertedBefore(keys, i, k, a, b);
    }
  }

  lemma InsertedHas<T>(s: seq<T>, i: nat, x: T)
    requires i <= |s|
    ensures x in Inserted(s, i, x) && forall y :: y in s ==> y in Inserted(s, i, x)
  {
    var r := Inserted(s, i, x);
    forall y | y in s ensures y in r {
      var j :| 0 <= j < |s| && s[j] == y;
      assert r[if j < i then j else j + 1] == y;
    }
  }

  lemma OpenedQueue(ps: seq<Pattern>, keys: seq<Key>, queues: seq<seq<Pattern>>, i: nat, p: Pattern, j: nat)
    requires Grouped(ps, keys, queues) && KeyOf(p) !in keys && i <= |keys| && j <= |keys|
    ensures Inserted(queues, i, [p])[j] == Family(ps + [p], Inserted(keys, i, KeyOf(p))[j])
  {
    if j == i {
      FamilyAppend(ps, p, KeyOf(p));
    } else {
      var was := if j < i then j else j - 1;
      assert keys[was] in keys;
      OtherFamily(ps, p, keys[was]);
    }
  }

  lemma Opened(ps: seq<Pattern>, keys: seq<Key>, queues: seq<seq<Pattern>>, i: nat, p: Pattern)
    requires Grouped(ps, keys, queues) && i == Position(keys, KeyOf(p)) && (i < |keys| ==> keys[i] != KeyOf(p))
    ensures Grouped(ps + [p], Inserted(keys, i, KeyOf(p)), Inserted(queues, i, [p]))
  {
    KeyInserted(keys, i, KeyOf(p));
    InsertedHas(keys, i, KeyOf(p));
    forall j | 0 <= j <= |keys|
      ensures Inserted(queues, i, [p])[j] == Family(ps + [p], Inserted(keys, i, KeyOf(p))[j])
    {
      OpenedQueue(ps, keys, queues, i, p, j);
    }
    forall k | k !in Inserted(keys, i, KeyOf(p)) ensures Family(ps + [p], k) == [] {
      OtherFamily(ps, p, k);
    }
  }

  /** The patterns by degree and modulus, in order of the keys. */
  method Group(ranked: seq<Pattern>) returns (keys: seq<Key>, queues: seq<seq<Pattern>>)
    ensures Grouped(ranked, keys, queues)
  {
    keys, queues := [], [];
    for n := 0 to |ranked|
      invariant Grouped(ranked[..n], keys, queues)
    {
      var p := ranked[n];
      var i := Position(keys, KeyOf(p));
      TakeNext(ranked, n);
      if i < |keys| && keys[i] == KeyOf(p) {
        Appended(ranked[..n], keys, queues, i, p);
        queues := queues[i := queues[i] + [p]];
      } else {
        Opened(ranked[..n], keys, queues, i, p);
        keys, queues := Inserted(keys, i, KeyOf(p)), Inserted(queues, i, [p]);
      }
    }
    assert ranked[..|ranked|] == ranked;
  }

  /** The queues hold what of each family has not been handed out. */
  ghost predicate Pending(ranked: seq<Pattern>, out: seq<Pattern>, keys: seq<Key>, queues: seq<seq<Pattern>>) {
    && |keys| == |queues| && KeysInOrder(keys)
    && (forall i :: 0 <= i < |keys| ==> Family(out, keys[i]) + queues[i] == Family(ranked, keys[i]))
    && (forall k :: k !in keys ==> Family(out, k) == Family(ranked, k))
  }

  /** In round r the first k queues have had their turn. */
  ghost predicate Turn(out: seq<Pattern>, keys: seq<Key>, queues: seq<seq<Pattern>>, r: nat, k: nat)
    requires |queues| == |keys|
  {
    && k <= |keys| && RoundRobin(out)
    && (forall i :: 0 <= i < |keys| && queues[i] != [] ==> |Family(out, keys[i])| == if i < k then r + 1 else r)
    && (forall i :: 0 <= i < |out| ==> Place(out, i) <= r)
    && (forall i, j :: 0 <= i < |out| && k <= j < |keys| ==> InTurn(Place(out, i), KeyOf(out[i]), r, keys[j]))
  }

  lemma PlaceAppend(ps: seq<Pattern>, p: Pattern, i: nat)
    requires i <= |ps|
    ensures Place(ps + [p], i) == if i < |ps| then Place(ps, i) else |Family(ps, KeyOf(p))|
  {
    assert (ps + [p])[..i] == ps[..i];
    assert ps[..|ps|] == ps;
  }

  lemma FirstPending(ranked: seq<Pattern>, out: seq<Pattern>, keys: seq<Key>, queues: seq<seq<Pattern>>, k: nat)
    requires Pending(ranked, out, keys, queues) && k < |keys| && queues[k] != []
    ensures KeyOf(queues[k][0]) == keys[k]
  {
    var all := Family(out, keys[k]) + queues[k];
    assert all[|Family(out, keys[k])|] == queues[k][0];
    assert queues[k][0] in Family(ranked, keys[k]);
  }

  lemma FamilyTakes(out: seq<Pattern>, p: Pattern, tail: seq<Pattern>, whole: seq<Pattern>)
    requires Family(out, KeyOf(p)) + ([p] + tail) == whole
    ensures Family(out + [p], KeyOf(p)) + tail == whole
  {
    FamilyAppend(out, p, KeyOf(p));
    assert (Family(out, KeyOf(p)) + [p]) + tail == Family(out, KeyOf(p)) + ([p] + tail);
  }

  lemma KeysDiffer(keys: seq<Key>, i: nat, j: nat)
    requires KeysInOrder(keys) && i < |keys| && j < |keys| && i != j
    ensures keys[i] != keys[j]
  {
    assert if i < j then KeyBefore(keys[i], keys[j]) else KeyBefore(keys[j], keys[i]);
  }

  lemma TakePending(ranked: seq<Pattern>, out: seq<Pattern>, keys: seq<Key>, queues: seq<seq<Pattern>>, k: nat)
    requires Pending(ranked, out, keys, queues) && k < |keys| && queues[k] != [] && KeyOf(queues[k][0]) == keys[k]
    ensures Pending(ranked, out + [queues[k][0]], keys, queues[k := queues[k][1..]])
  {
    var p, tail := queues[k][0], queues[k][1..];
    var left := queues[k := tail];
    forall i | 0 <= i < |keys| ensures Family(out + [p], keys[i]) + left[i] == Family(ranked, keys[i]) {
      if i == k {
        assert queues[k] == [p] + tail;
        FamilyTakes(out, p, tail, Family(ranked, keys[k]));
      } else {
        KeysDiffer(keys, i, k);
        OtherFamily(out, p, keys[i]);
      }
    }
    assert keys[k] in keys;
    forall l | l !in keys ensures Family(out + [p], l) == Family(ranked, l) {
      OtherFamily(out, p, l);
    }
  }

  lemma TakeTurn(out: seq<Pattern>, keys: seq<Key>, queues: seq<seq<Pattern>>, r: nat, k: nat)
    requires |queues| == |keys| && KeysInOrder(keys) && Turn(out, keys, queues, r, k)
    requires k < |keys| && queues[k] != [] && KeyOf(queues[k][0]) == keys[k]
    ensures Turn(out + [queues[k][0]], keys, queues[k := queues[k][1..]], r, k + 1)
  {
    var p := queues[k][0];
    forall i | 0 <= i <= |out| ensures Place(out + [p], i) == if i < |out| then Place(out, i) else r {
      PlaceAppend(out, p, i);
    }
    forall l ensures Family(out + [p], l) == Family(out, l) + if keys[k] == l then [p] else [] {
      FamilyAppend(out, p, l);
    }
  }

  lemma TakeStep(ranked: seq<Pattern>, out: seq<Pattern>, keys: seq<Key>, queues: seq<seq<Pattern>>, r: nat, k: nat)
    requires Pending(ranked, out, keys, queues) && Turn(out, keys, queues, r, k) && k < |keys| && queues[k] != []
    ensures Pending(ranked, out + [queues[k][0]], keys, queues[k := queues[k][1..]])
    ensures Turn(out + [queues[k][0]], keys, queues[k := queues[k][1..]], r, k + 1)
  {
    FirstPending(ranked, out, keys, queues, k);
    TakePending(ranked, out, keys, queues, k);
    TakeTurn(out, keys, queues, r, k);
  }

  lemma SkipTurn(out: seq<Pattern>, keys: seq<Key>, queues: seq<seq<Pattern>>, r: nat, k: nat)
    requires |queues| == |keys| && Turn(out, keys, queues, r, k) && k < |keys| && queues[k] == []
    ensures Turn(out, keys, queues, r, k + 1)
  {
  }

  ghost predicate Progress(progressed: bool, out: seq<Pattern>, given: seq<Pattern>, queues: seq<seq<Pattern>>, k: nat)
    requires k <= |queues|
  {
    if progressed then |out| > |given| else |out| == |given| && forall j :: 0 <= j < k ==> queues[j] == []
  }

  lemma Prefixed(a: seq<Pattern>, b: seq<Pattern>, c: seq<Pattern>, p: Pattern)
    requires a + b == c
    ensures multiset(a)[p] + multiset(b)[p] == multiset(c)[p]
  {
    assert multiset(a + b) == multiset(a) + multiset(b);
  }

  lemma NothingAdded(ranked: seq<Pattern>, out: seq<Pattern>, keys: seq<Key>, queues: seq<seq<Pattern>>)
    requires Pending(ranked, out, keys, queues)
    ensures multiset(out) <= multiset(ranked)
  {
    forall p ensures multiset(out)[p] <= multiset(ranked)[p] {
      FamilyCounts(out, p);
      FamilyCounts(ranked, p);
      if KeyOf(p) in keys {
        var i :| 0 <= i < |keys| && keys[i] == KeyOf(p);
        Prefixed(Family(out, keys[i]), queues[i], Family(ranked, keys[i]), p);
      }
    }
  }

  lemma SameSize<T>(a: multiset<T>, b: multiset<T>)
    requires a <= b && |a| >= |b|
    ensures a == b
  {
    assert b == a + (b - a);
  }

  lemma FirstIsLeft(ranked: seq<Pattern>, out: seq<Pattern>, keys: seq<Key>, queues: seq<seq<Pattern>>, i: nat)
    requires Pending(ranked, out, keys, queues) && i < |keys| && queues[i] != []
    ensures multiset(out)[queues[i][0]] < multiset(ranked)[queues[i][0]]
  {
    var p := queues[i][0];
    FirstPending(ranked, out, keys, queues, i);
    FamilyCounts(out, p);
    FamilyCounts(ranked, p);
    Prefixed(Family(out, keys[i]), queues[i], Family(ranked, keys[i]), p);
    assert p in multiset(queues[i]);
  }

  /** When as many are out as were ranked, no queue holds anything. */
  lemma AllOut(ranked: seq<Pattern>, out: seq<Pattern>, keys: seq<Key>, queues: seq<seq<Pattern>>)
    requires Pending(ranked, out, keys, queues) && |out| >= |ranked|
    ensures forall i :: 0 <= i < |queues| ==> queues[i] == []
  {
    NothingAdded(ranked, out, keys, queues);
    SameSize(multiset(out), multiset(ranked));
    forall i | 0 <= i < |queues| ensures queues[i] == [] {
      if queues[i] != [] {
        FirstIsLeft(ranked, out, keys, queues, i);
      }
    }
  }

  lemma SpreadsOut(ranked: seq<Pattern>, out: seq<Pattern>, keys: seq<Key>, queues: seq<seq<Pattern>>)
    requires Pending(ranked, out, keys, queues) && RoundRobin(out)
    requires forall i :: 0 <= i < |queues| ==> queues[i] == []
    ensures Spreads(ranked, out)
  {
    forall k ensures Family(out, k) == Family(ranked, k) {
      if k in keys {
        var i :| 0 <= i < |keys| && keys[i] == k;
        assert queues[i] == [];
      }
    }
    forall p ensures multiset(out)[p] == multiset(ranked)[p] {
      FamilyCounts(out, p);
      FamilyCounts(ranked, p);
    }
  }

  /** One round: the next of every queue that is not empty. */
  method Round(keys: seq<Key>, queues: seq<seq<Pattern>>, given: seq<Pattern>, ghost ranked: seq<Pattern>, ghost r: nat)
    returns (left: seq<seq<Pattern>>, out: seq<Pattern>, progressed: bool)
    requires Pending(ranked, given, keys, queues) && Turn(given, keys, queues, r, 0)
    ensures Pending(ranked, out, keys, left) && Turn(out, keys, left, r, |keys|)
    ensures Progress(progressed, out, given, left, |left|)
  {
    left, out, progressed := queues, given, false;
    for k := 0 to |keys|
      invariant Pending(ranked, out, keys, left) && Turn(out, keys, left, r, k)
      invariant |left| == |keys| && Progress(progressed, out, given, left, k)
    {
      if left[k] != [] {
        TakeStep(ranked, out, keys, left, r, k);
        out, left := out + [left[k][0]], left[k := left[k][1..]];
        progressed := true;
      } else {
        SkipTurn(out, keys, left, r, k);
      }
    }
  }

  lemma NextRound(out: seq<Pattern>, keys: seq<Key>, queues: seq<seq<Pattern>>, r: nat)
    requires |queues| == |keys| && Turn(out, keys, queues, r, |keys|)
    ensures Turn(out, keys, queues, r + 1, 0)
  {
  }

  /** Round after round until all are out. */
  method Diversified(ranked: seq<Pattern>) returns (out: seq<Pattern>)
    ensures Spreads(ranked, out)
  {
    var keys, queues := Group(ranked);
    var progressed := true;
    ghost var r := 0;
    out := [];
    while |out| < |ranked| && progressed
      invariant Pending(ranked, out, keys, queues) && Turn(out, keys, queues, r, 0)
      invariant progressed || forall j :: 0 <= j < |queues| ==> queues[j] == []
      decreases progressed, |ranked| - |out|
    {
      queues, out, progressed := Round(keys, queues, out, ranked, r);
      NextRound(out, keys, queues, r);
      r := r + 1;
    }
    if progressed {
      AllOut(ranked, out, keys, queues);
    }
    SpreadsOut(ranked, out, keys, queues);
  }

  lemma {:induction false} AtPlace(ps: seq<Pattern>, i: nat)
    requires i < |ps|
    ensures Place(ps, i) < |Family(ps, KeyOf(ps[i]))| && Family(ps, KeyOf(ps[i]))[Place(ps, i)] == ps[i]
  {
    var n := |ps| - 1;
    if i < n {
      AtPlace(ps[..n], i);
      assert ps[..n][..i] == ps[..i];
    }
  }

  /** The position of the r-th of a family. */
  lemma {:induction false} Located(ps: seq<Pattern>, k: Key, r: nat) returns (i: nat)
    requires r < |Family(ps, k)|
    ensures i < |ps| && KeyOf(ps[i]) == k && Place(ps, i) == r
  {
    var n := |ps| - 1;
    if r < |Family(ps[..n], k)| {
      i := Located(ps[..n], k, r);
      assert ps[..n][..i] == ps[..i];
    } else {
      i := n;
    }
  }

  lemma PrefixPlace(a: seq<Pattern>, b: seq<Pattern>, n: nat, i: nat)
    requires i < n <= |a| && n <= |b| && a[..n] == b[..n]
    ensures a[i] == b[i] && Place(a, i) == Place(b, i)
  {
    assert a[..n][i] == a[i] && b[..n][i] == b[i];
    assert a[..n][..i] == a[..i] && b[..n][..i] == b[..i];
  }

  lemma NotBefore(ranked: seq<Pattern>, a: seq<Pattern>, b: seq<Pattern>, n: nat)
    requires Spreads(ranked, a) && Spreads(ranked, b) && n < |a| && n < |b| && a[..n] == b[..n]
    ensures !InTurn(Place(a, n), KeyOf(a[n]), Place(b, n), KeyOf(b[n]))
  {
    var r, k := Place(a, n), KeyOf(a[n]);
    forall j | 0 <= j < n ensures b[j] == a[j] && Place(b, j) == Place(a, j) {
      PrefixPlace(a, b, n, j);
    }
    AtPlace(a, n);
    assert Family(a, k) == Family(b, k);
    var i := Located(b, k, r);
  }

  lemma {:induction false} SamePrefix(ranked: seq<Pattern>, a: seq<Pattern>, b: seq<Pattern>, n: nat)
    requires Spreads(ranked, a) && Spreads(ranked, b) && n <= |a| && |a| == |b|
    ensures a[..n] == b[..n]
  {
    if n > 0 {
      SamePrefix(ranked, a, b, n - 1);
      NotBefore(ranked, a, b, n - 1);
      NotBefore(ranked, b, a, n - 1);
      AtPlace(a, n - 1);
      AtPlace(b, n - 1);
      assert Family(a, KeyOf(a[n - 1])) == Family(b, KeyOf(a[n - 1]));
      TakeNext(a, n - 1);
      TakeNext(b, n - 1);
    }
  }

  /** There is one such order only. */
  lemma SpreadIsUnique(ranked: seq<Pattern>, a: seq<Pattern>, b: seq<Pattern>)
    requires Spreads(ranked, a) && Spreads(ranked, b)
    ensures a == b
  {
    assert |a| == |multiset(a)| == |multiset(b)| == |b|;
    SamePrefix(ranked, a, b, |a|);
    assert a[..|a|] == a && b[..|b|] == b;
  }

  // ----- The mined list

  ghost predicate Mined(patterns: seq<Pattern>, known: set<Sig>) {
    Distinct(patterns) && forall i :: 0 <= i < |patterns| ==> Sound(patterns[i], known)
  }

  /** Some pattern of the list has the signature of r, and is at least as good. */
  ghost predicate Covers(patterns: seq<Pattern>, r: Option<Pattern>) {
    r.Some? ==> exists p :: p in patterns && p.signature == r.value.signature && p.score >= r.value.score
  }

  lemma CoversAll(best: map<Sig, Pattern>, known: set<Sig>, ps: seq<Pattern>, out: seq<Pattern>, r: Option<Pattern>)
    requires Keyed(best, known) && RanksOut(best, known, {}, ps) && multiset(out) == multiset(ps) && Beats(best, r)
    ensures Covers(out, r)
  {
    if r.Some? {
      var p := best[r.value.signature];
      assert p in multiset(ps);
      assert p in multiset(out);
    }
  }

  /** The whole list: spread from a ranking, with nothing lost that the candidates give. */
  ghost predicate Complete(full: seq<Pattern>, candidates: seq<Candidate>, known: set<Sig>)
    requires AllAllowed(candidates)
  {
    && Mined(full, known)
    && (forall i :: 0 <= i < |full| ==> GivenFirst(full[i], Results(candidates, known)))
    && (forall r :: r in Results(candidates, known) ==> Covers(full, r))
    && (exists ranked :: InOrder(ranked) && Spreads(ranked, full))
  }

  function Limited(full: seq<Pattern>, limit: Option<nat>): seq<Pattern> {
    if limit.Some? && limit.value < |full| then full[..limit.value] else full
  }

  lemma SpreadIsComplete(candidates: seq<Candidate>, known: set<Sig>, best: map<Sig, Pattern>,
                         ranked: seq<Pattern>, full: seq<Pattern>)
    requires AllAllowed(candidates) && Keyed(best, known) && RanksOut(best, known, {}, ranked) && Spreads(ranked, full)
    requires BeatsFirst(best, Results(candidates, known), |candidates|) && AllGiven(best, Results(candidates, known))
    ensures Complete(full, candidates, known)
  {
    CleanIsDistinct(full, known);
    var results := Results(candidates, known);
    forall i | 0 <= i < |full| ensures GivenFirst(full[i], results) {
      assert full[i] in multiset(full);
      assert full[i] in multiset(ranked);
    }
    forall r | r in results ensures Covers(full, r) {
      var i :| 0 <= i < |results| && results[i] == r;
      CoversAll(best, known, ranked, full, results[i]);
    }
  }

  lemma LimitedMined(full: seq<Pattern>, known: set<Sig>, limit: Option<nat>)
    requires Mined(full, known)
    ensures Mined(Limited(full, limit), known)
  {
  }

  /** Every pattern is true of every integer, unknown and not constant, and no two share a signature;
      a limit cuts the list short. */
  method Mine(candidates: seq<Candidate>, known: set<Sig>, limit: Option<nat>) returns (out: seq<Pattern>)
    requires AllAllowed(candidates)
    ensures Mined(out, known)
    ensures exists full :: Complete(full, candidates, known) && out == Limited(full, limit)
  {
    var best := Collect(candidates, known);
    var ranked := RankAll(best, known);
    var full := Diversified(ranked);
    SpreadIsComplete(candidates, known, best, ranked, full);
    LimitedMined(full, known, limit);
    out := Limited(full, limit);
  }

  class PatternMiner {
    const patterns: seq<Pattern>
    var cursor: nat
    ghost const known: set<Sig>
    ghost var given: seq<Pattern>

    /** What was handed out is what lies before the cursor. */
    ghost predicate Valid()
      reads this
    {
      cursor <= |patterns| && given == patterns[..cursor] && Mined(patterns, known)
    }

    constructor (candidates: seq<Candidate>, corpus: set<Sig>)
      requires AllAllowed(candidates)
      ensures Valid() && known == corpus && given == []
      ensures exists full :: Complete(full, candidates, known) && patterns == Limited(full, Some(POOL))
    {
      var mined := Mine(candidates, corpus, Some(POOL));
      patterns, cursor, known, given := mined, 0, corpus, [];
    }

    /** The next k patterns, or as many as there are left. Over a whole run every one is true, none is in
        the corpus, and no signature comes twice. */
    method Seeds(k: int) returns (batch: seq<Pattern>)
      requires Valid()
      modifies this
      ensures Valid() && given == old(given) + batch && Mined(given, known)
      ensures |batch| == if k <= 0 then 0 else if k <= |patterns| - old(cursor) then k else |patterns| - old(cursor)
    {
      if k <= 0 || cursor >= |patterns| {
        return [];
      }
      var end := if k <= |patterns| - cursor then cursor + k else |patterns|;
      batch := patterns[cursor..end];
      cursor := cursor + |batch|;
      given := given + batch;
    }
  }
}
