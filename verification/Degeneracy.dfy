/** Claims flagged as vacuous are constant. */
module Degeneracy {
  // The vacuity test: every atom's polynomial is constant modulo its modulus.

  import opened Collections
  import opened Arith
  import opened Congruence
  import opened Polynomials
  import opened NormalForms
  import opened Signatures

  predicate ConstantMod(p: Poly, m: int)
    requires m > 0
  {
    forall i :: 0 <= i < |p| && p[i].mono != multiset{} ==> p[i].coeff % m == 0
  }

  function AtomDegenerate(op: CmpOp, left: Node, right: Node): Option<bool> {
    if op.In? || op.NotIn? then
      var d := ModOf(left);
      if d.None? || d.value.m < 2 || Expand(d.value.term).None? then None
      else Some(ConstantMod(Expand(d.value.term).value, d.value.m))
    else if op.OtherOp? then None
    else
      match DifferenceOf(left, right, false)
      case None => None
      case Some(d) => Some(d.m >= 2 && ConstantMod(d.poly, d.m))
  }

  /** Whether all leaves are modular atoms, and all of them constant. */
  function Combo(n: Node): Option<bool> {
    match n
    case BoolOp(_, values) =>
      if exists i :: 0 <= i < |values| && Combo(values[i]).None? then None
      else Some(forall i :: 0 <= i < |values| ==> Combo(values[i]) == Some(true))
    case Not(a) => Combo(a)
    case Compare(op, left, right) =>
      if (op.Eq? || op.NotEq?) && IsBool(left) && IsBool(right) then
        if Combo(left).None? || Combo(right).None? then None
        else Some(Combo(left).value && Combo(right).value)
      else AtomDegenerate(op, left, right)
    case _ => None
  }

  predicate IsCoefficientDegenerate(n: Node) {
    Combo(n) == Some(true)
  }

  /** The sets that memberships are tested in hold integer literals only. */
  predicate LiteralSets(n: Node) {
    match n
    case BoolOp(_, values) => forall i :: 0 <= i < |values| ==> LiteralSets(values[i])
    case Not(a) => LiteralSets(a)
    case Compare(op, left, right) =>
      if op.In? || op.NotIn? then right.Literal? && AllConst(right.elts)
      else LiteralSets(left) && LiteralSets(right)
    case _ => true
  }

  lemma {:induction false} ConstantModValue(p: Poly, m: int, env: Env, other: Env)
    requires m > 0 && ConstantMod(p, m)
    ensures Cong(Value(p, env), Value(p, other), m)
  {
    if p == [] {
      CongRefl(0, m);
    } else {
      assert forall i :: 0 <= i < |p[1..]| ==> p[1..][i] == p[i + 1];
      ConstantModValue(p[1..], m, env, other);
      var c, v, w := p[0].coeff, MonoValue(p[0].mono, env), MonoValue(p[0].mono, other);
      if p[0].mono == multiset{} {
        CongRefl(c * v, m);
      } else {
        MultipleVanishes(c, v, w, m);
      }
      CongAdd(c * v, c * w, Value(p[1..], env), Value(p[1..], other), m);
    }
  }

  lemma MultipleVanishes(c: int, v: int, w: int, m: int)
    requires m > 0 && c % m == 0
    ensures Cong(c * v, c * w, m)
  {
    var t := c / m;
    assert c == m * t;
    assert c * v - c * w == m * (t * v - t * w) by {
      assert (m * t) * v == m * (t * v) && (m * t) * w == m * (t * w);
      Distribute(m, t * v, -(t * w));
    }
    CongByWitness(c * v, c * w, m, t * v - t * w);
  }

  /** The residue of a term that is constant modulo m. */
  lemma SameResidue(term: Node, p: Poly, m: int, env: Env, other: Env)
    requires m > 0 && Expand(term) == Some(p) && ConstantMod(p, m)
    ensures Eval(term, env) % m == Eval(term, other) % m
  {
    ExpandValue(term, env);
    ExpandValue(term, other);
    ConstantModValue(p, m, env, other);
    CongMeansResidue(Value(p, env), Value(p, other), m);
  }

  lemma MembershipSame(op: CmpOp, left: Node, right: Node, d: Modded, env: Env, other: Env)
    requires (op.In? || op.NotIn?) && ModOf(left) == Some(d) && d.m >= 2 && right.Literal? && AllConst(right.elts)
    requires Expand(d.term).Some? && ConstantMod(Expand(d.term).value, d.m)
    ensures True(Compare(op, left, right), env) == True(Compare(op, left, right), other)
  {
    SameResidue(d.term, Expand(d.term).value, d.m, env, other);
    ModuloIsResidue(left, d, env);
    ModuloIsResidue(left, d, other);
    forall i | 0 <= i < |right.elts| ensures Eval(right.elts[i], env) == Eval(right.elts[i], other) {
    }
  }

  /** a and c are congruent exactly if b and d are. */
  ghost predicate SameTest(a: int, c: int, b: int, d: int, m: int)
    requires m > 0
  {
    a % m == c % m <==> b % m == d % m
  }

  lemma SameZero(a: int, b: int, c: int, d: int, m: int, e: int, f: int)
    requires m > 0 && e == a + -c && f == b + -d && Cong(e, f, m)
    ensures SameTest(a, c, b, d, m)
  {
    CongZero(e, f, m);
    ZeroDifference(a, c, m);
    ZeroDifference(b, d, m);
  }

  /** The value of p is the same modulo m at both assignments. */
  ghost predicate Steady(p: Poly, m: int, env: Env, other: Env) {
    Cong(Value(p, env), Value(p, other), m)
  }

  lemma DifferenceValue(p: Poly, q: Poly, env: Env)
    ensures Value(AddPoly(p, NegPoly(q)), env) == Value(p, env) + -Value(q, env)
  {
    NegPolyValue(q, env);
    AddPolyValue(p, NegPoly(q), env);
  }

  lemma BothSteady(p: Poly, q: Poly, m: int, env: Env, other: Env, e: int, f: int)
    requires Steady(AddPoly(p, NegPoly(q)), m, env, other)
    requires e == Value(p, env) + -Value(q, env) && f == Value(p, other) + -Value(q, other)
    ensures Cong(e, f, m)
  {
    DifferenceValue(p, q, env);
    DifferenceValue(p, q, other);
    SteadyValues(AddPoly(p, NegPoly(q)), m, env, other, e, f);
  }

  lemma SteadyValues(d: Poly, m: int, env: Env, other: Env, e: int, f: int)
    requires Steady(d, m, env, other) && e == Value(d, env) && f == Value(d, other)
    ensures Cong(e, f, m)
  {
  }

  lemma BothSame(p: Poly, q: Poly, m: int, env: Env, other: Env, e: int, f: int)
    requires m > 0 && Steady(AddPoly(p, NegPoly(q)), m, env, other)
    requires e == Value(p, env) + -Value(q, env) && f == Value(p, other) + -Value(q, other)
    ensures SameTest(Value(p, env), Value(q, env), Value(p, other), Value(q, other), m)
  {
    BothSteady(p, q, m, env, other, e, f);
    SameZero(Value(p, env), Value(p, other), Value(q, env), Value(q, other), m, e, f);
  }

  lemma ShiftedValue(p: Poly, c: int, env: Env)
    ensures Value(AddPoly(p, [Term(multiset{}, -c)]), env) == Value(p, env) + -c
  {
    AddPolyValue(p, [Term(multiset{}, -c)], env);
    ConstValue(-c, env);
  }

  lemma ShiftBack(a: int, b: int, c: int, m: int)
    requires m > 0 && Cong(a + -c, b + -c, m)
    ensures a % m == b % m
  {
    CongRefl(c, m);
    CongAdd(a + -c, b + -c, c, c, m);
    CongMeansResidue(a, b, m);
  }

  lemma AgainstSame(p: Poly, c: int, m: int, env: Env, other: Env)
    requires m > 0 && Steady(AddPoly(p, [Term(multiset{}, -c)]), m, env, other)
    ensures Value(p, env) % m == Value(p, other) % m
  {
    ShiftedValue(p, c, env);
    ShiftedValue(p, c, other);
    ShiftBack(Value(p, env), Value(p, other), c, m);
  }

  lemma AgainstConstSame(n: Node, l: Modded, c: int, p: Poly, env: Env, other: Env)
    requires ModOf(n) == Some(l) && l.m >= 2 && Expand(l.term) == Some(p)
    requires Steady(AddPoly(p, [Term(multiset{}, -c)]), l.m, env, other)
    ensures Eval(n, env) == Eval(n, other)
  {
    AgainstSame(p, c, l.m, env, other);
    ExpandValue(l.term, env);
    ExpandValue(l.term, other);
    ModuloIsResidue(n, l, env);
    ModuloIsResidue(n, l, other);
  }

  lemma BothModSame(left: Node, right: Node, l: Modded, r: Modded, p: Poly, q: Poly, env: Env, other: Env)
    requires ModOf(left) == Some(l) && ModOf(right) == Some(r) && l.m == r.m >= 2
    requires Expand(l.term) == Some(p) && Expand(r.term) == Some(q) && Steady(AddPoly(p, NegPoly(q)), l.m, env, other)
    ensures Eval(left, env) == Eval(right, env) <==> Eval(left, other) == Eval(right, other)
  {
    BothSame(p, q, l.m, env, other, Value(p, env) + -Value(q, env), Value(p, other) + -Value(q, other));
    ExpandValue(l.term, env);
    ExpandValue(l.term, other);
    ExpandValue(r.term, env);
    ExpandValue(r.term, other);
    ModuloIsResidue(left, l, env);
    ModuloIsResidue(left, l, other);
    ModuloIsResidue(right, r, env);
    ModuloIsResidue(right, r, other);
  }

  lemma EqualitySame(left: Node, right: Node, env: Env, other: Env)
    requires DifferenceOf(left, right, false).Some?
    requires var d := DifferenceOf(left, right, false).value; d.m >= 2 && ConstantMod(d.poly, d.m)
    ensures Eval(left, env) == Eval(right, env) <==> Eval(left, other) == Eval(right, other)
  {
    var d := DifferenceOf(left, right, false).value;
    ConstantModValue(d.poly, d.m, env, other);
    var l, r := ModOf(left), ModOf(right);
    if l.Some? && r.Some? {
      BothModSame(left, right, l.value, r.value, Expand(l.value.term).value, Expand(r.value.term).value, env, other);
    } else if l.Some? {
      AgainstConstSame(left, l.value, right.value, Expand(l.value.term).value, env, other);
    } else {
      AgainstConstSame(right, r.value, left.value, Expand(r.value.term).value, env, other);
    }
  }

  lemma AtomSame(op: CmpOp, left: Node, right: Node, env: Env, other: Env)
    requires AtomDegenerate(op, left, right) == Some(true) && LiteralSets(Compare(op, left, right))
    ensures True(Compare(op, left, right), env) == True(Compare(op, left, right), other)
  {
    if op.In? || op.NotIn? {
      MembershipSame(op, left, right, ModOf(left).value, env, other);
    } else {
      EqualitySame(left, right, env, other);
    }
  }

  /** A claim that is flagged has one truth value for all assignments, whatever the nesting. */
  lemma {:induction false} DegenerateIsConstant(n: Node, env: Env, other: Env)
    requires IsCoefficientDegenerate(n) && LiteralSets(n)
    ensures True(n, env) == True(n, other)
  {
    match n
    case BoolOp(conj, values) =>
      forall i | 0 <= i < |values| ensures True(values[i], env) == True(values[i], other) {
        DegenerateIsConstant(values[i], env, other);
      }
      BoolOpTrue(conj, values, env);
      BoolOpTrue(conj, values, other);
    case Not(a) =>
      DegenerateIsConstant(a, env, other);
      NotTrue(a, env);
      NotTrue(a, other);
    case Compare(op, left, right) =>
      if (op.Eq? || op.NotEq?) && IsBool(left) && IsBool(right) {
        DegenerateIsConstant(left, env, other);
        DegenerateIsConstant(right, env, other);
        CompareTrue(op, left, right, env);
        CompareTrue(op, left, right, other);
      } else {
        AtomSame(op, left, right, env, other);
      }
  }

  // ----- Which claims are flagged

  /** The atoms of a claim: what its junctions, negations and biconditionals are built from. */
  function Atoms(n: Node): set<Node> {
    match n
    case BoolOp(_, values) => set i, x | 0 <= i < |values| && x in Atoms(values[i]) :: x
    case Not(a) => Atoms(a)
    case Compare(op, left, right) =>
      if (op.Eq? || op.NotEq?) && IsBool(left) && IsBool(right) then Atoms(left) + Atoms(right) else {n}
    case _ => {n}
  }

  /** The polynomials differ by a constant modulo m. */
  ghost predicate SameButConstant(p: Poly, q: Poly, m: int)
    requires m > 0
  {
    forall mono :: mono != multiset{} ==> SameCoeffAt(p, q, m, mono)
  }

  ghost predicate SameCoeffAt(p: Poly, q: Poly, m: int, mono: Mono)
    requires m > 0
  {
    CoeffOf(p, mono) % m == CoeffOf(q, mono) % m
  }

  /** term modulo m is constant in the coefficients. */
  ghost predicate ConstantTerm(term: Node, m: int) {
    m >= 2 && Expand(term).Some? && SameButConstant(Expand(term).value, [], m)
  }

  /** The atom compares a constant residue with integers, or two residues that differ by a constant. */
  ghost predicate Vacuous(atom: Node) {
    atom.Compare? && !atom.op.OtherOp? &&
    var l, r := ModOf(atom.left), ModOf(atom.right);
    if atom.op.In? || atom.op.NotIn? then l.Some? && ConstantTerm(l.value.term, l.value.m)
    else if l.Some? && r.Some? then
      && l.value.m == r.value.m >= 2 && Expand(l.value.term).Some? && Expand(r.value.term).Some?
      && SameButConstant(Expand(l.value.term).value, Expand(r.value.term).value, l.value.m)
    else if l.Some? then atom.right.Const? && ConstantTerm(l.value.term, l.value.m)
    else r.Some? && atom.left.Const? && ConstantTerm(r.value.term, r.value.m)
  }

  lemma EntryCoeff(p: Poly, names: set<string>, i: nat)
    requires Table(p, names) && i < |p|
    ensures CoeffOf(p, p[i].mono) == p[i].coeff
  {
    if i == 0 {
      AbsentMono(p[1..], p[0].mono);
    } else {
      assert p[1..][i - 1] == p[i] && p[0].mono != p[i].mono;
      EntryCoeff(p[1..], names, i - 1);
    }
  }

  lemma ConstantAt(p: Poly, m: int, names: set<string>, mono: Mono)
    requires m > 0 && Table(p, names) && ConstantMod(p, m) && mono != multiset{}
    ensures SameCoeffAt(p, [], m, mono)
  {
    if i :| 0 <= i < |p| && p[i].mono == mono {
      EntryCoeff(p, names, i);
    } else {
      AbsentMono(p, mono);
    }
  }

  lemma ConstantModWhen(p: Poly, m: int, names: set<string>)
    requires m > 0 && Table(p, names)
    ensures ConstantMod(p, m) <==> SameButConstant(p, [], m)
  {
    if ConstantMod(p, m) {
      forall mono | mono != multiset{} ensures SameCoeffAt(p, [], m, mono) {
        ConstantAt(p, m, names, mono);
      }
    }
    if SameButConstant(p, [], m) {
      forall i | 0 <= i < |p| && p[i].mono != multiset{} ensures p[i].coeff % m == 0 {
        EntryCoeff(p, names, i);
        assert SameCoeffAt(p, [], m, p[i].mono);
      }
    }
  }

  lemma DifferenceAt(p: Poly, q: Poly, m: int, mono: Mono)
    requires m > 0
    ensures SameCoeffAt(AddPoly(p, NegPoly(q)), [], m, mono) <==> SameCoeffAt(p, q, m, mono)
  {
    var a, b := CoeffOf(p, mono), CoeffOf(q, mono);
    NegPolyCoeff(q, mono);
    AddPolyCoeff(p, NegPoly(q), mono);
    ZeroDifference(a, b, m);
    CongMeansResidue(a + -b, 0, m);
  }

  lemma DifferenceConstant(p: Poly, q: Poly, m: int)
    requires m > 0
    ensures SameButConstant(AddPoly(p, NegPoly(q)), [], m) <==> SameButConstant(p, q, m)
  {
    forall mono ensures SameCoeffAt(AddPoly(p, NegPoly(q)), [], m, mono) <==> SameCoeffAt(p, q, m, mono) {
      DifferenceAt(p, q, m, mono);
    }
  }

  lemma ShiftConstant(p: Poly, c: int, m: int)
    requires m > 0
    ensures SameButConstant(AddPoly(p, [Term(multiset{}, c)]), [], m) <==> SameButConstant(p, [], m)
  {
    var one := [Term(multiset{}, c)];
    assert one[1..] == [];
    forall mono | mono != multiset{}
      ensures SameCoeffAt(AddPoly(p, one), [], m, mono) <==> SameCoeffAt(p, [], m, mono)
    {
      AddPolyCoeff(p, one, mono);
    }
  }

  lemma AtomFlaggedWhen(op: CmpOp, left: Node, right: Node)
    ensures AtomDegenerate(op, left, right) == Some(true) <==> Vacuous(Compare(op, left, right))
  {
    var atom := Compare(op, left, right);
    var l, r := ModOf(left), ModOf(right);
    if op.In? || op.NotIn? {
      if l.Some? && l.value.m >= 2 && Expand(l.value.term).Some? {
        ExpandTable(l.value.term, Names(left));
        ConstantModWhen(Expand(l.value.term).value, l.value.m, Names(left));
      }
    } else if !op.OtherOp? && DifferenceOf(left, right, false).Some? && DifferenceOf(left, right, false).value.m >= 2 {
      var d := DifferenceOf(left, right, false).value;
      DifferenceTable(left, right, false, Names(atom));
      ConstantModWhen(d.poly, d.m, Names(atom));
      if l.Some? && r.Some? {
        DifferenceConstant(Expand(l.value.term).value, Expand(r.value.term).value, d.m);
      } else if l.Some? {
        ShiftConstant(Expand(l.value.term).value, -right.value, d.m);
      } else {
        ShiftConstant(Expand(r.value.term).value, -left.value, d.m);
      }
    }
  }

  /** A claim is flagged exactly if every atom in it is vacuous, however they are combined. */
  lemma {:induction false} FlaggedWhen(n: Node)
    ensures IsCoefficientDegenerate(n) <==> forall atom :: atom in Atoms(n) ==> Vacuous(atom)
  {
    match n
    case BoolOp(_, values) =>
      forall i | 0 <= i < |values|
        ensures IsCoefficientDegenerate(values[i]) <==> forall atom :: atom in Atoms(values[i]) ==> Vacuous(atom)
      {
        FlaggedWhen(values[i]);
      }
      JunctionFlaggedWhen(n, values);
    case Not(a) => FlaggedWhen(a);
    case Compare(op, left, right) =>
      if (op.Eq? || op.NotEq?) && IsBool(left) && IsBool(right) {
        FlaggedWhen(left);
        FlaggedWhen(right);
      } else {
        AtomFlaggedWhen(op, left, right);
      }
    case _ =>
      assert Combo(n).None? && Atoms(n) == {n} && !Vacuous(n);
  }

  lemma JunctionFlaggedWhen(n: Node, values: seq<Node>)
    requires n.BoolOp? && n.values == values
    requires forall i :: 0 <= i < |values| ==>
      (IsCoefficientDegenerate(values[i]) <==> forall atom :: atom in Atoms(values[i]) ==> Vacuous(atom))
    ensures IsCoefficientDegenerate(n) <==> forall atom :: atom in Atoms(n) ==> Vacuous(atom)
  {
    assert IsCoefficientDegenerate(n) <==> forall i :: 0 <= i < |values| ==> IsCoefficientDegenerate(values[i]);
    assert forall i, atom :: 0 <= i < |values| && atom in Atoms(values[i]) ==> atom in Atoms(n);
  }

  /** `(2 * a) % 2 in {a}`. */
  function Doubled(a: string): Node {
    Compare(In, Node.Mod(Node.Mul(Const(2), Name(a)), Const(2)), Literal([Name(a)]))
  }

  lemma DoubledFlagged(a: string)
    ensures IsCoefficientDegenerate(Doubled(a))
  {
    var two, one: Poly := [Term(multiset{}, 2)], [Term(multiset{a}, 1)];
    assert two[1..] == [] && one[1..] == [];
    assert multiset{} + multiset{a} == multiset{a};
    assert MulTerm([], two[0], one) == MulTerm([Term(multiset{a}, 2)], two[0], []);
    assert MulInto([], two, one) == MulInto([Term(multiset{a}, 2)], [], one);
    assert Expand(Node.Mul(Const(2), Name(a))) == Some([Term(multiset{a}, 2)]);
  }

  lemma DoubledTrue(a: string, env: Env)
    ensures True(Doubled(a), env) <==> env(a) == 0
  {
    var left, right := Node.Mod(Node.Mul(Const(2), Name(a)), Const(2)), Literal([Name(a)]);
    assert Eval(left, env) == FloorMod(2 * env(a), 2) == 0;
    assert right.elts[0] == Name(a) && Eval(right.elts[0], env) == env(a);
  }

  /** Without the condition on the sets it fails: `(2 * a) % 2 in {a}` is flagged, and depends on a. */
  lemma VariableSetsFool(zero: Env, one: Env)
    requires zero("a") == 0 && one("a") == 1
    ensures IsCoefficientDegenerate(Doubled("a")) && True(Doubled("a"), zero) && !True(Doubled("a"), one)
  {
    DoubledFlagged("a");
    DoubledTrue("a", zero);
    DoubledTrue("a", one);
  }
}
