/** Signatures mean the claims they are given to. */
module Signatures {
  // Structural signatures of polynomial congruences and their boolean combinations. A signature has a
  // meaning of its own, and it is the meaning of every claim it is given to.

  import opened Collections
  import opened Arith
  import opened Congruence
  import opened Polynomials
  import opened NormalForms

  /** Sorted tuples of signatures are the multisets they list. A tag in front of a tuple is a
      constructor or a boolean here: `==` or `!=`, `and` or `or`, `iff` or `xor`. */
  datatype Sig =
    | Atom(eq: bool, m: nat, norm: Norm)
    | Junction(conj: bool, parts: multiset<Sig>)
    | Parity(iff: bool, pair: multiset<Sig>)
    | Negation(inner: Sig)
    | Residues(member: bool, m: nat, degrees: map<nat, int>, residues: set<int>)

  /** What a signature says at an assignment; x is the value of the variable if there is only one. */
  ghost predicate Denotes(s: Sig, env: Env, x: int) {
    match s
    case Atom(eq, m, norm) => Cong(NormValue(norm, env, x), 0, m) == eq
    case Junction(conj, parts) =>
      if conj then forall p :: p in parts ==> Denotes(p, env, x) else exists p :: p in parts && Denotes(p, env, x)
    case Parity(iff, pair) =>
      (forall p, q :: p in pair && q in pair ==> Denotes(p, env, x) == Denotes(q, env, x)) == iff
    case Negation(inner) => !Denotes(inner, env, x)
    case Residues(_, _, _, _) => true
  }

  // ----- Atoms

  datatype Modded = Modded(term: Node, m: int)

  /** term % m with a constant m. */
  function ModOf(n: Node): Option<Modded> {
    if n.Mod? && n.right.Const? then Some(Modded(n.left, n.right.value)) else None
  }

  datatype Difference = Difference(poly: Poly, m: int)

  /** The polynomial an atom compares with zero, modulo what. */
  function DifferenceOf(left: Node, right: Node, ranged: bool): Option<Difference> {
    var l, r := ModOf(left), ModOf(right);
    if l.Some? && r.Some? then
      var p, q := Expand(l.value.term), Expand(r.value.term);
      if l.value.m != r.value.m || p.None? || q.None? then None
      else Some(Difference(AddPoly(p.value, NegPoly(q.value)), l.value.m))
    else if l.Some? then AgainstConst(l.value, right, ranged)
    else if r.Some? then AgainstConst(r.value, left, ranged)
    else None
  }

  function AgainstConst(l: Modded, other: Node, ranged: bool): Option<Difference> {
    if !other.Const? || (ranged && !(0 <= other.value < l.m)) then None
    else
      match Expand(l.term)
      case None => None
      case Some(p) => Some(Difference(AddPoly(p, [Term(multiset{}, -other.value)]), l.m))
  }

  function AtomSig(n: Node, single: bool): Option<Sig> {
    if !n.Compare? || !(n.op.Eq? || n.op.NotEq?) then None
    else
      match DifferenceOf(n.left, n.right, true)
      case None => None
      case Some(d) => if d.m < 2 then None else Some(Atom(n.op.Eq?, d.m, Normalize(d.poly, d.m, single)))
  }

  // ----- Boolean combinations

  predicate IsBool(n: Node) {
    n.BoolOp? || n.Not? || n.Compare?
  }

  function BoolSig(n: Node, single: bool): Option<Sig>
    decreases n, 1
  {
    match n
    case BoolOp(conj, values) =>
      (match Subs(conj, values, single)
       case None => None
       case Some(parts) => Some(Junction(conj, parts)))
    case Not(inner) =>
      if inner.Not? then BoolSig(inner.operand, single)
      else
        var a := AtomSig(inner, single);
        if a.Some? then Some(a.value.(eq := !a.value.eq))
        else
          (match BoolSig(inner, single)
           case None => None
           case Some(s) => Some(if s.Parity? then s.(iff := !s.iff) else Negation(s)))
    case Compare(op, left, right) =>
      if (op.Eq? || op.NotEq?) && IsBool(left) && IsBool(right) then
        var p, q := BoolSig(left, single), BoolSig(right, single);
        if p.None? || q.None? then None else Some(Parity(op.Eq?, multiset{p.value, q.value}))
      else AtomSig(n, single)
    case _ => None
  }

  /** The signatures of the operands, those of nested operands of the same kind in their place. */
  function Subs(conj: bool, values: seq<Node>, single: bool): Option<multiset<Sig>>
    decreases values, 0
  {
    if values == [] then Some(multiset{})
    else
      var first := SubsOf(conj, values[0], single);
      var rest := Subs(conj, values[1..], single);
      if first.None? || rest.None? then None else Some(first.value + rest.value)
  }

  function SubsOf(conj: bool, v: Node, single: bool): Option<multiset<Sig>>
    decreases v, 2
  {
    if v.BoolOp? && v.conj == conj then Subs(conj, v.values, single)
    else
      match BoolSig(v, single)
      case None => None
      case Some(s) => Some(multiset{s})
  }

  // ----- Memberships

  /** P at n, for a polynomial in one variable. */
  function UniValue(p: Poly, n: int): int {
    if p == [] then 0 else p[0].coeff * Power(n, |p[0].mono|) + UniValue(p[1..], n)
  }

  const RESIDUE_BOUND := 64

  /** One period of values. */
  function ResidueSet(p: Poly, m: nat): Option<set<int>>
    requires m > 0
  {
    if m > RESIDUE_BOUND + 1 then None else Some(set n | 0 <= n < m :: UniValue(p, n) % m)
  }

  /** The polynomial of a membership or disjunction, in the form both share. */
  function MembershipSig(term: Node, m: nat, negate: bool): Option<Sig>
    requires m >= 2
  {
    match Expand(term)
    case None => None
    case Some(p) =>
      if |Names(term)| > 1 || ResidueSet(p, m).None? then None
      else Some(ResiduesSig(p, m, negate, ResidueSet(p, m).value))
  }

  /** A single residue is folded onto an atom. */
  function ResiduesSig(p: Poly, m: nat, negate: bool, residues: set<int>): Sig
    requires m >= 2
  {
    if r :| r in residues && residues == {r} then
      Atom(!negate, m, Normalize(AddPoly(p, [Term(multiset{}, -r)]), m, true))
    else Residues(!negate, m, ByDegree(Reduce(p, m)), residues)
  }

  /** The common term and modulus of a disjunction of `P % m == c`. */
  function DisjunctionOf(values: seq<Node>): Option<Modded> {
    if values == [] || !(values[0].Compare? && values[0].op.Eq? && values[0].right.Const?) then None
    else if |values| == 1 then ModOf(values[0].left)
    else
      var rest := DisjunctionOf(values[1..]);
      if rest.Some? && ModOf(values[0].left) == rest then rest else None
  }

  predicate AllConst(elts: seq<Node>) {
    forall i :: 0 <= i < |elts| ==> elts[i].Const?
  }

  predicate OneVariable(n: Node) {
    |Names(n)| <= 1
  }

  /** Membership claims are read by the polynomial and its residues; all others by their form. */
  datatype Route = ByForm | ByResidues(term: Node, m: int, negate: bool) | Unread

  function RouteOf(tree: Node): Route {
    match tree
    case BoolOp(conj, values) =>
      var d := DisjunctionOf(values);
      if !conj && d.Some? then ByResidues(d.value.term, d.value.m, false) else ByForm
    case Compare(op, left, right) =>
      if !(op.In? || op.NotIn?) then ByForm
      else
        var d := ModOf(left);
        if d.None? || !right.Literal? || right.elts == [] || !AllConst(right.elts) then Unread
        else ByResidues(d.value.term, d.value.m, op.NotIn?)
    case Not(_) => ByForm
    case _ => Unread
  }

  function CongruenceSig(tree: Node): Option<Sig> {
    match RouteOf(tree)
    case ByForm => BoolSig(tree, OneVariable(tree))
    case ByResidues(term, m, negate) => if m < 2 then None else MembershipSig(term, m, negate)
    case Unread => None
  }

  // ----- Soundness of atoms

  lemma ModuloIsResidue(n: Node, d: Modded, env: Env)
    requires ModOf(n) == Some(d) && d.m >= 2
    ensures Eval(n, env) == Eval(d.term, env) % d.m
  {
  }

  lemma ConstValue(c: int, env: Env)
    ensures Value([Term(multiset{}, c)], env) == c
  {
    assert [Term(multiset{}, c)][1..] == [];
  }

  lemma ZeroDifference(a: int, b: int, m: int)
    requires m > 0
    ensures Cong(a + -b, 0, m) <==> a % m == b % m
  {
    assert (a + -b) - 0 == a - b;
    CongMeansResidue(a, b, m);
  }

  lemma BothMean(p: Poly, q: Poly, m: int, env: Env)
    requires m > 0
    ensures Cong(Value(AddPoly(p, NegPoly(q)), env), 0, m) <==> Value(p, env) % m == Value(q, env) % m
  {
    NegPolyValue(q, env);
    AddPolyValue(p, NegPoly(q), env);
    ZeroDifference(Value(p, env), Value(q, env), m);
  }

  lemma AgainstMeans(p: Poly, c: int, m: int, env: Env)
    requires m > 0
    ensures Cong(Value(AddPoly(p, [Term(multiset{}, -c)]), env), 0, m) <==> Value(p, env) % m == c % m
  {
    ConstValue(-c, env);
    AddPolyValue(p, [Term(multiset{}, -c)], env);
    ZeroDifference(Value(p, env), c, m);
  }

  lemma AgainstConstMeans(n: Node, l: Modded, other: Node, p: Poly, env: Env)
    requires ModOf(n) == Some(l) && other.Const? && 0 <= other.value < l.m && l.m >= 2 && Expand(l.term) == Some(p)
    ensures Cong(Value(AddPoly(p, [Term(multiset{}, -other.value)]), env), 0, l.m) <==> Eval(n, env) == Eval(other, env)
  {
    ExpandValue(l.term, env);
    AgainstMeans(p, other.value, l.m, env);
    ModuloIsResidue(n, l, env);
    SmallResidue(other.value, l.m);
  }

  lemma BothModMean(left: Node, right: Node, l: Modded, r: Modded, env: Env)
    requires ModOf(left) == Some(l) && ModOf(right) == Some(r) && l.m == r.m >= 2
    requires Expand(l.term).Some? && Expand(r.term).Some?
    ensures Cong(Value(AddPoly(Expand(l.term).value, NegPoly(Expand(r.term).value)), env), 0, l.m)
      <==> Eval(left, env) == Eval(right, env)
  {
    ExpandValue(l.term, env);
    ExpandValue(r.term, env);
    BothMean(Expand(l.term).value, Expand(r.term).value, l.m, env);
    ModuloIsResidue(left, l, env);
    ModuloIsResidue(right, r, env);
  }

  lemma DifferenceMeans(left: Node, right: Node, env: Env)
    requires DifferenceOf(left, right, true).Some? && DifferenceOf(left, right, true).value.m >= 2
    ensures var d := DifferenceOf(left, right, true).value;
      Cong(Value(d.poly, env), 0, d.m) <==> Eval(left, env) == Eval(right, env)
  {
    var l, r := ModOf(left), ModOf(right);
    if l.Some? && r.Some? {
      BothModMean(left, right, l.value, r.value, env);
    } else if l.Some? {
      AgainstConstMeans(left, l.value, right, Expand(l.value.term).value, env);
    } else {
      AgainstConstMeans(right, r.value, left, Expand(r.value.term).value, env);
    }
  }

  lemma ConstTable(c: int, names: set<string>)
    ensures Table([Term(multiset{}, c)], names)
  {
  }

  lemma DifferenceTable(left: Node, right: Node, ranged: bool, names: set<string>)
    requires DifferenceOf(left, right, ranged).Some? && Names(left) <= names && Names(right) <= names
    ensures Table(DifferenceOf(left, right, ranged).value.poly, names)
  {
    var l, r := ModOf(left), ModOf(right);
    if l.Some? {
      ExpandTable(l.value.term, names);
    }
    if r.Some? {
      ExpandTable(r.value.term, names);
    }
    if l.Some? && r.Some? {
      var p, q := Expand(l.value.term).value, Expand(r.value.term).value;
      NegPolyTable(q, names);
      AddPolyTable(p, NegPoly(q), names);
    } else if l.Some? {
      ConstTable(-right.value, names);
      AddPolyTable(Expand(l.value.term).value, [Term(multiset{}, -right.value)], names);
    } else {
      ConstTable(-left.value, names);
      AddPolyTable(Expand(r.value.term).value, [Term(multiset{}, -left.value)], names);
    }
  }

  /** The claim is true at the assignment. */
  predicate True(n: Node, env: Env) {
    Eval(n, env) != 0
  }

  lemma AtomMeans(n: Node, single: bool, names: set<string>, env: Env, at: Env, x: int)
    requires AtomSig(n, single).Some? && Names(n) <= names && Reads(single, names, env, x) && (single || at == env)
    ensures Denotes(AtomSig(n, single).value, at, x) <==> True(n, env)
  {
    var d := DifferenceOf(n.left, n.right, true).value;
    DifferenceMeans(n.left, n.right, env);
    DifferenceTable(n.left, n.right, true, names);
    NormalizeKeepsZeros(d.poly, d.m, single, names, env, at, x);
  }

  /** The polynomials say the same modulo m: equal coefficients, or for a single variable and a prime
      modulus equal up to a unit. */
  ghost predicate SameCongruence(p: Poly, q: Poly, m: nat, single: bool)
    requires m > 0
  {
    if !single then SameCoeffs(p, q, m)
    else if Prime(m) then UnitMultiple(p, q, m)
    else Multiple(p, q, m, 1)
  }

  lemma NormalFormsAgree(p: Poly, q: Poly, m: nat, single: bool, names: set<string>, others: set<string>)
    requires m > 0 && Table(p, names) && Table(q, others) && (single ==> |names| <= 1 && |others| <= 1)
    ensures Normalize(p, m, single) == Normalize(q, m, single) <==> SameCongruence(p, q, m, single)
  {
    if !single {
      SeveralAgree(p, q, m, names + others);
    } else if Prime(m) {
      PrimeAgree(p, q, m, names, others);
    } else {
      CompositeAgree(p, q, m, names, others);
    }
  }

  ghost predicate SameAtom(a: Node, b: Node, single: bool)
    requires AtomSig(a, single).Some? && AtomSig(b, single).Some?
  {
    var d, e := DifferenceOf(a.left, a.right, true).value, DifferenceOf(b.left, b.right, true).value;
    a.op == b.op && d.m == e.m && SameCongruence(d.poly, e.poly, d.m, single)
  }

  /** Read with one and the same number of variables, two atoms share a signature exactly if they assert the
      same congruence. */
  lemma AtomsShare(a: Node, b: Node, single: bool)
    requires AtomSig(a, single).Some? && AtomSig(b, single).Some?
    requires single ==> |Names(a)| <= 1 && |Names(b)| <= 1
    ensures AtomSig(a, single) == AtomSig(b, single) <==> SameAtom(a, b, single)
  {
    var d, e := DifferenceOf(a.left, a.right, true).value, DifferenceOf(b.left, b.right, true).value;
    DifferenceTable(a.left, a.right, true, Names(a));
    DifferenceTable(b.left, b.right, true, Names(b));
    if d.m == e.m {
      NormalFormsAgree(d.poly, e.poly, d.m, single, Names(a), Names(b));
    }
  }

  /** No coefficient survives modulo m. */
  ghost predicate Vanishes(p: Poly, m: nat)
    requires m > 0
  {
    forall mono :: CoeffOf(p, mono) % m == 0
  }

  lemma VanishingReduces(p: Poly, m: nat, names: set<string>)
    requires m > 0 && Table(p, names)
    ensures Vanishes(p, m) <==> Reduce(p, m) == []
  {
    ReducedHolds(p, m, names);
    var f := ByMono(Reduce(p, m));
    assert forall mono :: (mono in f <==> MonoCoeffs(p)(mono) % m != 0);
    if Vanishes(p, m) {
      forall mono ensures mono !in f {
        assert CoeffOf(p, mono) % m == 0;
      }
    }
    if Reduce(p, m) == [] {
      forall mono ensures CoeffOf(p, mono) % m == 0 {
        assert mono !in f && MonoCoeffs(p)(mono) == CoeffOf(p, mono);
      }
    }
  }

  /** Normal forms for one variable and for several coincide only if nothing is left. */
  lemma ShapesDiffer(p: Poly, q: Poly, m: nat, names: set<string>, others: set<string>)
    requires m > 0 && Table(p, names) && Table(q, others)
    ensures Normalize(p, m, true) == Normalize(q, m, false) <==> Vanishes(p, m) && Vanishes(q, m)
  {
    VanishingReduces(p, m, names);
    VanishingReduces(q, m, others);
  }

  predicate IsAtom(n: Node) {
    AtomSig(n, OneVariable(n)).Some?
  }

  /** A claim that is an atom is read with its own number of variables. */
  lemma AtomIsClaim(n: Node)
    requires IsAtom(n)
    ensures CongruenceSig(n) == AtomSig(n, OneVariable(n))
  {
    assert RouteOf(n).ByForm?;
  }

  /** With as many variables, one or several, the claims assert the same congruence; otherwise both compare
      a constant with a constant. */
  ghost predicate SameClaim(a: Node, b: Node)
    requires IsAtom(a) && IsAtom(b)
  {
    var d, e := DifferenceOf(a.left, a.right, true).value, DifferenceOf(b.left, b.right, true).value;
    if OneVariable(a) == OneVariable(b) then SameAtom(a, b, OneVariable(a))
    else a.op == b.op && d.m == e.m && Vanishes(d.poly, d.m) && Vanishes(e.poly, d.m)
  }

  lemma OneAgainstSeveral(a: Node, b: Node)
    requires IsAtom(a) && IsAtom(b) && OneVariable(a) && !OneVariable(b)
    ensures AtomSig(a, true) == AtomSig(b, false) <==> SameClaim(a, b)
  {
    var d, e := DifferenceOf(a.left, a.right, true).value, DifferenceOf(b.left, b.right, true).value;
    DifferenceTable(a.left, a.right, true, Names(a));
    DifferenceTable(b.left, b.right, true, Names(b));
    if d.m == e.m {
      ShapesDiffer(d.poly, e.poly, d.m, Names(a), Names(b));
    }
  }

  /** When two single congruences, each with its own number of variables, share their signature. */
  lemma ClaimsShare(a: Node, b: Node)
    requires IsAtom(a) && IsAtom(b)
    ensures CongruenceSig(a) == CongruenceSig(b) <==> SameClaim(a, b)
  {
    AtomIsClaim(a);
    AtomIsClaim(b);
    if OneVariable(a) == OneVariable(b) {
      AtomsShare(a, b, OneVariable(a));
    } else if OneVariable(a) {
      OneAgainstSeveral(a, b);
    } else {
      OneAgainstSeveral(b, a);
    }
  }

  /** The claims v % m == c and (v + m w) % m == c. */
  function Short(v: string, m: int, c: int): Node {
    Compare(Eq, Node.Mod(Name(v), Const(m)), Const(c))
  }

  function Long(v: string, w: string, m: int, c: int): Node {
    Compare(Eq, Node.Mod(Add(Name(v), Mul(Const(m), Name(w))), Const(m)), Const(c))
  }

  lemma AddAbsent(p: Poly, mono: Mono, c: int)
    requires forall i :: 0 <= i < |p| ==> p[i].mono != mono
    ensures AddPoly(p, One(mono, c)) == p + One(mono, c)
  {
    assert One(mono, c)[1..] == [];
    AppendsAbsent(p, mono, c);
  }

  lemma {:induction false} AppendsAbsent(p: Poly, mono: Mono, c: int)
    requires forall i :: 0 <= i < |p| ==> p[i].mono != mono
    ensures AddTerm(p, mono, c) == p + One(mono, c)
  {
    if p != [] {
      AppendsAbsent(p[1..], mono, c);
    }
  }

  lemma ShortPoly(v: string, m: int, c: int)
    requires m >= 2 && 0 <= c < m
    ensures DifferenceOf(Short(v, m, c).left, Const(c), true)
         == Some(Difference(One(multiset{v}, 1) + One(multiset{}, -c), m))
  {
    assert v in multiset{v};
    AddAbsent(One(multiset{v}, 1), multiset{}, -c);
    assert Expand(Name(v)) == Some(One(multiset{v}, 1));
  }

  lemma LongExpands(v: string, w: string, m: int)
    requires v != w
    ensures Expand(Add(Name(v), Mul(Const(m), Name(w)))) == Some(One(multiset{v}, 1) + One(multiset{w}, m))
  {
    assert multiset{} + multiset{w} == multiset{w} && |multiset{w}| == 1;
    TimesOne(multiset{}, m, multiset{w}, 1);
    assert Expand(Const(m)) == Some(One(multiset{}, m)) && Expand(Name(w)) == Some(One(multiset{w}, 1));
    assert v in multiset{v} && v !in multiset{w};
    AddAbsent(One(multiset{v}, 1), multiset{w}, m);
  }

  lemma LongPoly(v: string, w: string, m: int, c: int)
    requires v != w && m >= 2 && 0 <= c < m
    ensures DifferenceOf(Long(v, w, m, c).left, Const(c), true)
         == Some(Difference(One(multiset{v}, 1) + One(multiset{w}, m) + One(multiset{}, -c), m))
  {
    LongExpands(v, w, m);
    assert v in multiset{v} && w in multiset{w};
    AddAbsent(One(multiset{v}, 1) + One(multiset{w}, m), multiset{}, -c);
  }

  lemma {:induction false} CoeffConcat(p: Poly, q: Poly, mono: Mono)
    ensures CoeffOf(p + q, mono) == CoeffOf(p, mono) + CoeffOf(q, mono)
  {
    if p == [] {
      assert p + q == q;
    } else {
      assert (p + q)[1..] == p[1..] + q;
      CoeffConcat(p[1..], q, mono);
    }
  }

  lemma CoeffOne(at: Mono, c: int, mono: Mono)
    ensures CoeffOf(One(at, c), mono) == if at == mono then c else 0
  {
    assert One(at, c)[1..] == [];
  }

  lemma WholeModulus(x: int, y: int, m: int)
    requires m > 0 && (y == 0 || y == m)
    ensures (x + y) % m == x % m
  {
    assert x + y - x == m * (if y == 0 then 0 else 1);
    CongByWitness(x + y, x, m, if y == 0 then 0 else 1);
    CongMeansResidue(x + y, x, m);
  }

  lemma LongCoeffs(v: string, w: string, m: nat, c: int)
    requires m > 0
    ensures SameCoeffs(One(multiset{v}, 1) + One(multiset{}, -c),
                       One(multiset{v}, 1) + One(multiset{w}, m) + One(multiset{}, -c), m)
  {
    var p, q, r := One(multiset{v}, 1), One(multiset{w}, m), One(multiset{}, -c);
    forall mono ensures CoeffOf(p + r, mono) % m == CoeffOf(p + q + r, mono) % m {
      CoeffConcat(p, r, mono);
      CoeffConcat(p + q, r, mono);
      CoeffConcat(p, q, mono);
      CoeffOne(multiset{w}, m, mono);
      WholeModulus(CoeffOf(p, mono) + CoeffOf(r, mono), CoeffOf(q, mono), m);
    }
  }

  lemma ShortStays(v: string, m: nat, c: int)
    requires m >= 2
    ensures !Vanishes(One(multiset{v}, 1) + One(multiset{}, -c), m)
  {
    assert v in multiset{v};
    CoeffConcat(One(multiset{v}, 1), One(multiset{}, -c), multiset{v});
    CoeffOne(multiset{v}, 1, multiset{v});
    CoeffOne(multiset{}, -c, multiset{v});
    SmallResidue(1, m);
  }

  lemma ClaimNames(v: string, w: string, m: int, c: int)
    ensures Names(Short(v, m, c)) == {v} && Names(Long(v, w, m, c)) == {v, w}
  {
    var sum := Add(Name(v), Mul(Const(m), Name(w)));
    assert Names(Mul(Const(m), Name(w))) == {w};
    assert Names(sum) == {v, w};
    assert Names(Node.Mod(sum, Const(m))) == {v, w} && Names(Node.Mod(Name(v), Const(m))) == {v};
    assert Names(Const(c)) == {};
  }

  lemma Arities(v: string, w: string, m: int, c: int)
    requires v != w
    ensures OneVariable(Short(v, m, c)) && !OneVariable(Long(v, w, m, c))
  {
    ClaimNames(v, w, m, c);
    if OneVariable(Long(v, w, m, c)) {
      AtMostOne(Names(Long(v, w, m, c)), v, w);
    }
  }

  /** Equal coefficients are not enough: the two claims have them, and different signatures. */
  lemma ArityCounts(v: string, w: string, m: nat, c: int)
    requires v != w && m >= 2 && 0 <= c < m
    ensures var a, b := Short(v, m, c), Long(v, w, m, c);
      && IsAtom(a) && IsAtom(b) && SameAtom(a, b, false)
      && CongruenceSig(a) != CongruenceSig(b)
  {
    var a, b := Short(v, m, c), Long(v, w, m, c);
    ShortPoly(v, m, c);
    LongPoly(v, w, m, c);
    LongCoeffs(v, w, m, c);
    ShortStays(v, m, c);
    Arities(v, w, m, c);
    ClaimsShare(a, b);
  }

  // ----- Soundness of combinations

  lemma PairDenotes(p: Sig, q: Sig, iff: bool, env: Env, x: int)
    ensures Denotes(Parity(iff, multiset{p, q}), env, x) <==> (Denotes(p, env, x) == Denotes(q, env, x)) == iff
  {
    var pair := multiset{p, q};
    assert p in pair && q in pair;
    assert forall s :: s in pair ==> s == p || s == q;
  }

  /** Every part of a junction is read with the meaning of its operand. */
  ghost predicate PartsMean(parts: multiset<Sig>, conj: bool, truth: bool, env: Env, x: int) {
    Denotes(Junction(conj, parts), env, x) == truth
  }

  lemma JunctionSplits(conj: bool, a: multiset<Sig>, b: multiset<Sig>, env: Env, x: int)
    ensures var da, db := Denotes(Junction(conj, a), env, x), Denotes(Junction(conj, b), env, x);
      Denotes(Junction(conj, a + b), env, x) == if conj then da && db else da || db
  {
    assert forall s :: s in a + b <==> s in a || s in b;
  }

  lemma JunctionOfOne(conj: bool, s: Sig, env: Env, x: int)
    ensures Denotes(Junction(conj, multiset{s}), env, x) == Denotes(s, env, x)
  {
    var parts := multiset{s};
    assert s in parts;
    assert forall p :: p in parts ==> p == s;
  }

  predicate AllTrue(conj: bool, values: seq<Node>, env: Env) {
    if conj then forall i :: 0 <= i < |values| ==> True(values[i], env)
    else exists i :: 0 <= i < |values| && True(values[i], env)
  }

  lemma AllTrueSplits(conj: bool, values: seq<Node>, env: Env)
    requires values != []
    ensures AllTrue(conj, values, env)
      == if conj then True(values[0], env) && AllTrue(conj, values[1..], env)
         else True(values[0], env) || AllTrue(conj, values[1..], env)
  {
    var rest := values[1..];
    assert forall i :: 0 < i < |values| ==> values[i] == rest[i - 1];
    if !conj && AllTrue(conj, rest, env) {
      var i :| 0 <= i < |rest| && True(rest[i], env);
      assert True(values[i + 1], env);
    }
    if conj && AllTrue(conj, values, env) {
      forall i | 0 <= i < |rest| ensures True(rest[i], env) {
        assert True(values[i + 1], env);
      }
    }
  }

  lemma BoolOpTrue(conj: bool, values: seq<Node>, env: Env)
    ensures True(BoolOp(conj, values), env) == AllTrue(conj, values, env)
  {
  }

  lemma NotTrue(inner: Node, env: Env)
    ensures True(Not(inner), env) == !True(inner, env)
  {
  }

  lemma BoolValue(n: Node, env: Env)
    requires IsBool(n)
    ensures Eval(n, env) == Truth(True(n, env))
  {
  }

  lemma CompareTrue(op: CmpOp, left: Node, right: Node, env: Env)
    requires (op.Eq? || op.NotEq?) && IsBool(left) && IsBool(right)
    ensures True(Compare(op, left, right), env) == ((True(left, env) == True(right, env)) == op.Eq?)
  {
    BoolValue(left, env);
    BoolValue(right, env);
  }

  lemma FlipDenotes(s: Sig, env: Env, x: int)
    ensures s.Atom? ==> Denotes(s.(eq := !s.eq), env, x) == !Denotes(s, env, x)
    ensures s.Parity? ==> Denotes(s.(iff := !s.iff), env, x) == !Denotes(s, env, x)
  {
  }

  /** A signature is given only to claims with its own meaning. */
  lemma {:induction false} BoolSigMeans(n: Node, single: bool, names: set<string>, env: Env, at: Env, x: int)
    requires BoolSig(n, single).Some? && Names(n) <= names && Reads(single, names, env, x) && (single || at == env)
    ensures Denotes(BoolSig(n, single).value, at, x) <==> True(n, env)
    decreases n, 1
  {
    match n
    case BoolOp(conj, values) =>
      SubsMean(conj, values, single, names, env, at, x);
      BoolOpTrue(conj, values, env);
    case Not(inner) =>
      NotMeans(inner, single, names, env, at, x);
    case Compare(op, left, right) =>
      if (op.Eq? || op.NotEq?) && IsBool(left) && IsBool(right) {
        BoolSigMeans(left, single, names, env, at, x);
        BoolSigMeans(right, single, names, env, at, x);
        PairDenotes(BoolSig(left, single).value, BoolSig(right, single).value, op.Eq?, at, x);
        CompareTrue(op, left, right, env);
      } else {
        AtomMeans(n, single, names, env, at, x);
      }
  }

  lemma {:induction false} NotMeans(inner: Node, single: bool, names: set<string>, env: Env, at: Env, x: int)
    requires BoolSig(Not(inner), single).Some? && Names(inner) <= names
    requires Reads(single, names, env, x) && (single || at == env)
    ensures Denotes(BoolSig(Not(inner), single).value, at, x) <==> True(Not(inner), env)
    decreases inner, 3
  {
    NotTrue(inner, env);
    if inner.Not? {
      NotTrue(inner.operand, env);
      BoolSigMeans(inner.operand, single, names, env, at, x);
    } else if AtomSig(inner, single).Some? {
      AtomMeans(inner, single, names, env, at, x);
      FlipDenotes(AtomSig(inner, single).value, at, x);
    } else {
      BoolSigMeans(inner, single, names, env, at, x);
      FlipDenotes(BoolSig(inner, single).value, at, x);
    }
  }

  lemma {:induction false} SubsMean(conj: bool, values: seq<Node>, single: bool, names: set<string>, env: Env,
                                    at: Env, x: int)
    requires Subs(conj, values, single).Some? && Reads(single, names, env, x) && (single || at == env)
    requires forall i :: 0 <= i < |values| ==> Names(values[i]) <= names
    ensures PartsMean(Subs(conj, values, single).value, conj, AllTrue(conj, values, env), at, x)
    decreases values, 0
  {
    if values != [] {
      SubsOfMeans(conj, values[0], single, names, env, at, x);
      SubsMean(conj, values[1..], single, names, env, at, x);
      JunctionSplits(conj, SubsOf(conj, values[0], single).value, Subs(conj, values[1..], single).value, at, x);
      AllTrueSplits(conj, values, env);
    }
  }

  lemma {:induction false} SubsOfMeans(conj: bool, v: Node, single: bool, names: set<string>, env: Env, at: Env, x: int)
    requires SubsOf(conj, v, single).Some? && Reads(single, names, env, x) && (single || at == env) && Names(v) <= names
    ensures PartsMean(SubsOf(conj, v, single).value, conj, True(v, env), at, x)
    decreases v, 2
  {
    if v.BoolOp? && v.conj == conj {
      SubsMean(conj, v.values, single, names, env, at, x);
    } else {
      BoolSigMeans(v, single, names, env, at, x);
      JunctionOfOne(conj, BoolSig(v, single).value, at, x);
    }
  }

  /** x is the value of the claim's variable, if it has only one. */
  ghost predicate At(tree: Node, env: Env, x: int) {
    OneVariable(tree) ==> forall y :: y in Names(tree) ==> env(y) == x
  }

  /** Claims read by their form that share a signature are true at exactly the same assignments; claims
      in one variable, at the same values of their variables. */
  lemma SameSignatureSameTruth(a: Node, b: Node, envA: Env, envB: Env, x: int)
    requires RouteOf(a).ByForm? && RouteOf(b).ByForm? && CongruenceSig(a).Some? && CongruenceSig(a) == CongruenceSig(b)
    requires At(a, envA, x) && At(b, envB, x) && (envA == envB || (OneVariable(a) && OneVariable(b)))
    ensures True(a, envA) == True(b, envB)
  {
    var at := if OneVariable(b) then envA else envB;
    BoolSigMeans(a, OneVariable(a), Names(a), envA, at, x);
    BoolSigMeans(b, OneVariable(b), Names(b), envB, at, x);
  }
}
