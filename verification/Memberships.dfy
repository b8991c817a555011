/** What signatures keep of claims that list residues. */
module Memberships {
  // Claims that list residues. Their signatures keep the polynomial and the residues it takes, not the
  // residues that were listed: what survives of their meaning, and when.

  import opened Collections
  import opened Arith
  import opened Congruence
  import opened Polynomials
  import opened NormalForms
  import opened Signatures

  lemma {:induction false} UniValuePeriodic(p: Poly, x: int, y: int, m: int)
    requires Cong(x, y, m)
    ensures Cong(UniValue(p, x), UniValue(p, y), m)
  {
    if p == [] {
      CongRefl(0, m);
    } else {
      UniValuePeriodic(p[1..], x, y, m);
      CongPower(x, y, |p[0].mono|, m);
      CongScale(p[0].coeff, Power(x, |p[0].mono|), Power(y, |p[0].mono|), m);
      CongAdd(p[0].coeff * Power(x, |p[0].mono|), p[0].coeff * Power(y, |p[0].mono|),
              UniValue(p[1..], x), UniValue(p[1..], y), m);
    }
  }

  /** P leaves the residue r at x. */
  ghost predicate Leaves(p: Poly, m: nat, x: int, r: int)
    requires m > 0
  {
    UniValue(p, x) % m == r
  }

  lemma LeavesAgain(p: Poly, m: nat, x: int, r: int) returns (y: int)
    requires m > 0 && Leaves(p, m, x, r)
    ensures 0 <= y < m && Leaves(p, m, y, r)
  {
    y := x % m;
    CongResidue(x, m);
    UniValuePeriodic(p, y, x, m);
    CongMeansResidue(UniValue(p, y), UniValue(p, x), m);
  }

  /** One period lists exactly the residues the polynomial takes over all integers. */
  lemma ResiduesExact(p: Poly, m: nat, r: int)
    requires m > 0 && ResidueSet(p, m).Some?
    ensures r in ResidueSet(p, m).value <==> exists x :: Leaves(p, m, x, r)
  {
    if r in ResidueSet(p, m).value {
      var x :| 0 <= x < m && UniValue(p, x) % m == r;
      assert Leaves(p, m, x, r);
    }
    if x :| Leaves(p, m, x, r) {
      var y := LeavesAgain(p, m, x, r);
      assert UniValue(p, y) % m == r;
    }
  }

  /** The assignment that gives every variable the value x. */
  function Everywhere(x: int): Env {
    (y: string) => x
  }

  lemma {:induction false} UniIsValue(p: Poly, env: Env, x: int)
    requires PowersAt(p, env, x)
    ensures UniValue(p, x) == Value(p, env)
  {
    if p != [] {
      assert MonoValue(p[0].mono, env) == Power(x, |p[0].mono|);
      UniIsValue(p[1..], env, x);
    }
  }

  lemma TermIsUni(term: Node, p: Poly, env: Env, x: int)
    requires Expand(term) == Some(p) && OneVariable(term) && forall y :: y in Names(term) ==> env(y) == x
    ensures Eval(term, env) == UniValue(p, x)
  {
    ExpandTable(term, Names(term));
    SingleVariable(p, Names(term), env, x);
    UniIsValue(p, env, x);
    ExpandValue(term, env);
  }

  // ----- What the claims say

  /** The residues a claim lists, as they are written. */
  function Listed(tree: Node): set<int> {
    match tree
    case Compare(_, _, right) =>
      if right.Literal? && AllConst(right.elts) then set i | 0 <= i < |right.elts| :: right.elts[i].value else {}
    case BoolOp(_, values) =>
      set i | 0 <= i < |values| && values[i].Compare? && values[i].right.Const? :: values[i].right.value
    case _ => {}
  }

  lemma {:induction false} DisjunctsShare(values: seq<Node>, d: Modded)
    requires DisjunctionOf(values) == Some(d)
    ensures forall i :: 0 <= i < |values| ==> IsDisjunct(values[i], d)
  {
    if |values| > 1 {
      DisjunctsShare(values[1..], d);
      assert forall i :: 0 < i < |values| ==> values[i] == values[1..][i - 1];
    }
  }

  ghost predicate IsDisjunct(v: Node, d: Modded) {
    v.Compare? && v.op.Eq? && v.right.Const? && ModOf(v.left) == Some(d)
  }

  lemma DisjunctTrue(v: Node, d: Modded, env: Env)
    requires IsDisjunct(v, d) && d.m >= 2
    ensures True(v, env) <==> v.right.value == Eval(d.term, env) % d.m
  {
    ModuloIsResidue(v.left, d, env);
    assert v == Compare(Eq, v.left, v.right) && Eval(v.right, env) == v.right.value;
  }

  lemma DisjunctionTrue(values: seq<Node>, d: Modded, env: Env)
    requires DisjunctionOf(values) == Some(d) && d.m >= 2
    ensures True(BoolOp(false, values), env) <==> Eval(d.term, env) % d.m in Listed(BoolOp(false, values))
  {
    DisjunctsShare(values, d);
    BoolOpTrue(false, values, env);
    forall i | 0 <= i < |values| ensures True(values[i], env) <==> values[i].right.value == Eval(d.term, env) % d.m {
      DisjunctTrue(values[i], d, env);
    }
  }

  lemma ComparisonTrue(op: CmpOp, left: Node, right: Node, d: Modded, env: Env)
    requires (op.In? || op.NotIn?) && ModOf(left) == Some(d) && d.m >= 2 && right.Literal? && AllConst(right.elts)
    ensures True(Compare(op, left, right), env) <==>
      (Eval(d.term, env) % d.m in Listed(Compare(op, left, right))) != op.NotIn?
  {
    ModuloIsResidue(left, d, env);
    forall i | 0 <= i < |right.elts| ensures Eval(right.elts[i], env) == right.elts[i].value {
    }
  }

  /** A claim read by residues says that the residue of its term is listed, or is not. */
  lemma MembershipTrue(tree: Node, term: Node, m: int, negate: bool, env: Env)
    requires RouteOf(tree) == ByResidues(term, m, negate) && m >= 2
    ensures True(tree, env) <==> (Eval(term, env) % m in Listed(tree)) != negate
  {
    match tree
    case BoolOp(conj, values) => DisjunctionTrue(values, Modded(term, m), env);
    case Compare(op, left, right) => ComparisonTrue(op, left, right, Modded(term, m), env);
  }

  // ----- Phrasings of one claim

  /** `P % m == c`. */
  function Equation(term: Node, m: int, c: int): Node {
    Compare(Eq, Node.Mod(term, Const(m)), Const(c))
  }

  /** `P % m == c_1 or P % m == c_2 or ..`. */
  function EitherOf(term: Node, m: int, cs: seq<int>): Node {
    BoolOp(false, seq(|cs|, i requires 0 <= i < |cs| => Equation(term, m, cs[i])))
  }

  /** `P % m in {c_1, c_2, ..}`, or `not in`. */
  function OneOf(term: Node, m: int, cs: seq<int>, negate: bool): Node {
    Compare(if negate then NotIn else In, Node.Mod(term, Const(m)),
            Literal(seq(|cs|, i requires 0 <= i < |cs| => Const(cs[i]))))
  }

  /** A disjunction is read by its residues exactly if all of it is about one term and modulus. */
  lemma {:induction false} DisjunctionWhen(values: seq<Node>, d: Modded)
    ensures DisjunctionOf(values) == Some(d) <==>
      values != [] && forall i :: 0 <= i < |values| ==> IsDisjunct(values[i], d)
  {
    if DisjunctionOf(values) == Some(d) {
      DisjunctsShare(values, d);
    } else if values != [] && forall i :: 0 <= i < |values| ==> IsDisjunct(values[i], d) {
      assert IsDisjunct(values[0], d);
      assert forall i :: 0 <= i < |values[1..]| ==> values[1..][i] == values[i + 1];
      DisjunctionWhen(values[1..], d);
    }
  }

  lemma RoutesAgree(term: Node, m: int, cs: seq<int>, negate: bool)
    requires cs != []
    ensures RouteOf(EitherOf(term, m, cs)) == ByResidues(term, m, false)
    ensures RouteOf(OneOf(term, m, cs, negate)) == ByResidues(term, m, negate)
  {
    var values := EitherOf(term, m, cs).values;
    assert forall i :: 0 <= i < |values| ==> IsDisjunct(values[i], Modded(term, m));
    DisjunctionWhen(values, Modded(term, m));
    assert OneOf(term, m, cs, negate).right.elts != [];
  }

  /** The terms and moduli with which such a claim is read at all. */
  predicate Enumerable(term: Node, m: int) {
    2 <= m <= RESIDUE_BOUND + 1 && Expand(term).Some? && OneVariable(term)
  }

  /** The signature says `!=` or `not in` instead of `==` or `in`. */
  predicate Opposite(s: Sig, t: Sig) {
    (s.Atom? && t == s.(eq := !s.eq)) || (s.Residues? && t == s.(member := !s.member))
  }

  lemma RoutedSig(tree: Node, term: Node, m: int, negate: bool)
    requires RouteOf(tree) == ByResidues(term, m, negate)
    ensures CongruenceSig(tree) == if m < 2 then None else MembershipSig(term, m, negate)
  {
  }

  lemma EnumerableWhen(term: Node, m: nat, negate: bool)
    requires m >= 2
    ensures MembershipSig(term, m, negate).Some? <==> Enumerable(term, m)
    ensures Enumerable(term, m) ==>
      Opposite(MembershipSig(term, m, negate).value, MembershipSig(term, m, !negate).value)
  {
  }

  /** A disjunction of equations and a membership have one signature, whatever the constants in them are,
      and non-membership has the opposite one. They have one exactly if the residues can be enumerated. */
  lemma PhrasingsShare(term: Node, m: int, cs: seq<int>, others: seq<int>)
    requires cs != [] && others != []
    ensures CongruenceSig(EitherOf(term, m, cs)) == CongruenceSig(OneOf(term, m, others, false))
    ensures CongruenceSig(OneOf(term, m, cs, false)).Some? <==> Enumerable(term, m)
    ensures CongruenceSig(OneOf(term, m, cs, true)).Some? <==> Enumerable(term, m)
    ensures Enumerable(term, m) ==>
      Opposite(CongruenceSig(OneOf(term, m, cs, false)).value, CongruenceSig(OneOf(term, m, others, true)).value)
  {
    RoutesAgree(term, m, cs, false);
    RoutesAgree(term, m, cs, true);
    RoutesAgree(term, m, others, false);
    RoutesAgree(term, m, others, true);
    RoutedSig(EitherOf(term, m, cs), term, m, false);
    RoutedSig(OneOf(term, m, cs, false), term, m, false);
    RoutedSig(OneOf(term, m, cs, true), term, m, true);
    RoutedSig(OneOf(term, m, others, false), term, m, false);
    RoutedSig(OneOf(term, m, others, true), term, m, true);
    if m >= 2 {
      EnumerableWhen(term, m, false);
      EnumerableWhen(term, m, true);
    }
  }

  /** No other membership is read: the left side has to be a residue, the right a nonempty literal of
      constants. */
  lemma MembershipWhen(op: CmpOp, left: Node, right: Node)
    requires op.In? || op.NotIn?
    ensures CongruenceSig(Compare(op, left, right)).Some? <==>
      exists term, m, cs :: cs != [] && Enumerable(term, m) && Compare(op, left, right) == OneOf(term, m, cs, op.NotIn?)
  {
    var tree := Compare(op, left, right);
    if CongruenceSig(tree).Some? {
      var d, elts := ModOf(left).value, right.elts;
      var cs := seq(|elts|, i requires 0 <= i < |elts| => elts[i].value);
      assert forall i :: 0 <= i < |elts| ==> elts[i] == Const(cs[i]);
      assert elts == OneOf(d.term, d.m, cs, op.NotIn?).right.elts;
      assert tree == OneOf(d.term, d.m, cs, op.NotIn?);
      assert Enumerable(d.term, d.m);
    }
    if term, m, cs :| cs != [] && Enumerable(term, m) && tree == OneOf(term, m, cs, op.NotIn?) {
      RoutesAgree(term, m, cs, op.NotIn?);
    }
  }

  // ----- A single residue

  /** The only residue the term of a claim takes. */
  ghost predicate TakesOnly(term: Node, m: nat, r: int) {
    m >= 2 && Expand(term).Some? && OneVariable(term) && ResidueSet(Expand(term).value, m) == Some({r})
  }

  lemma FoldedNorm(p: Poly, term: Node, m: nat, r: int, env: Env, x: int)
    requires Expand(term) == Some(p) && TakesOnly(term, m, r)
    ensures Cong(NormValue(Normalize(AddPoly(p, [Term(multiset{}, -r)]), m, true), env, x), 0, m)
  {
    var q, names, all := AddPoly(p, [Term(multiset{}, -r)]), Names(term), Everywhere(x);
    ExpandTable(term, names);
    ConstTable(-r, names);
    AddPolyTable(p, [Term(multiset{}, -r)], names);
    NormalizeKeepsZeros(q, m, true, names, all, env, x);
    AgainstMeans(p, r, m, all);
    ExpandValue(term, all);
    TermIsUni(term, p, all, x);
    ResiduesExact(p, m, UniValue(p, x) % m);
    ResiduesExact(p, m, r);
    var y :| Leaves(p, m, y, r);
    assert Leaves(p, m, x, UniValue(p, x) % m);
    ResidueAgain(UniValue(p, y), r, m);
  }

  lemma ResidueAgain(a: int, r: int, m: int)
    requires m > 0 && r == a % m
    ensures r % m == r
  {
  }

  lemma FoldedResidues(p: Poly, m: nat, negate: bool, r: int)
    requires m >= 2
    ensures ResiduesSig(p, m, negate, {r}) == Atom(!negate, m, Normalize(AddPoly(p, [Term(multiset{}, -r)]), m, true))
  {
    assert r in {r};
    assert forall x :: {x} == {r} ==> x in {r};
  }

  lemma FoldedMembership(term: Node, m: nat, negate: bool, r: int)
    requires TakesOnly(term, m, r)
    ensures MembershipSig(term, m, negate)
         == Some(Atom(!negate, m, Normalize(AddPoly(Expand(term).value, [Term(multiset{}, -r)]), m, true)))
  {
    FoldedResidues(Expand(term).value, m, negate, r);
  }

  lemma FoldedSig(tree: Node, term: Node, m: nat, negate: bool, r: int)
    requires RouteOf(tree) == ByResidues(term, m, negate) && TakesOnly(term, m, r)
    ensures CongruenceSig(tree)
         == Some(Atom(!negate, m, Normalize(AddPoly(Expand(term).value, [Term(multiset{}, -r)]), m, true)))
  {
    FoldedMembership(term, m, negate, r);
  }

  /** A claim whose term takes one residue r gets the signature of `== r` or, negated, of `!= r`. The
      signature agrees with the claim exactly when r is among the residues that were listed. */
  lemma SingletonFold(tree: Node, term: Node, m: nat, negate: bool, r: int, env: Env, x: int)
    requires RouteOf(tree) == ByResidues(term, m, negate) && TakesOnly(term, m, r)
    requires forall y :: y in Names(term) ==> env(y) == x
    ensures CongruenceSig(tree).Some?
    ensures (Denotes(CongruenceSig(tree).value, env, x) <==> True(tree, env)) <==> r in Listed(tree)
  {
    var p := Expand(term).value;
    FoldedSig(tree, term, m, negate, r);
    FoldedNorm(p, term, m, r, env, x);
    MembershipTrue(tree, term, m, negate, env);
    TermIsUni(term, p, env, x);
    ResiduesExact(p, m, UniValue(p, x) % m);
    assert Leaves(p, m, x, UniValue(p, x) % m);
  }

  // ----- Several residues

  lemma ManySig(tree: Node, term: Node, m: nat, negate: bool)
    requires RouteOf(tree) == ByResidues(term, m, negate) && CongruenceSig(tree).Some?
    requires CongruenceSig(tree).value.Residues?
    ensures m >= 2 && Expand(term).Some? && OneVariable(term)
    ensures CongruenceSig(tree).value
      == Residues(!negate, m, ByDegree(Reduce(Expand(term).value, m)), ResidueSet(Expand(term).value, m).value)
  {
  }

  lemma ReducedUni(p: Poly, term: Node, m: nat, x: int)
    requires m > 0 && Expand(term) == Some(p) && OneVariable(term)
    ensures Cong(MapSum(ByDegree(Reduce(p, m)), PowerOf(x)), UniValue(p, x), m)
  {
    var all, r := Everywhere(x), Reduce(p, m);
    ExpandTable(term, Names(term));
    ReduceTable(p, m, Names(term));
    SingleVariable(p, Names(term), all, x);
    SingleVariable(r, Names(term), all, x);
    ByDegreeValue(r, all, x);
    ReduceValue(p, m, all);
    UniIsValue(p, all, x);
  }

  lemma SameResidues(p: Poly, term: Node, q: Poly, other: Node, m: nat, x: int)
    requires m > 0 && Expand(term) == Some(p) && OneVariable(term) && Expand(other) == Some(q) && OneVariable(other)
    requires ByDegree(Reduce(p, m)) == ByDegree(Reduce(q, m))
    ensures UniValue(p, x) % m == UniValue(q, x) % m
  {
    var v := MapSum(ByDegree(Reduce(p, m)), PowerOf(x));
    ReducedUni(p, term, m, x);
    ReducedUni(q, other, m, x);
    CongMeansResidue(v, UniValue(p, x), m);
    CongMeansResidue(v, UniValue(q, x), m);
  }

  lemma MembershipAt(tree: Node, term: Node, m: nat, negate: bool, x: int)
    requires RouteOf(tree) == ByResidues(term, m, negate) && m >= 2 && Expand(term).Some? && OneVariable(term)
    ensures True(tree, Everywhere(x)) <==> (UniValue(Expand(term).value, x) % m in Listed(tree)) != negate
  {
    MembershipTrue(tree, term, m, negate, Everywhere(x));
    TermIsUni(term, Expand(term).value, Everywhere(x), x);
  }

  lemma AgreeAt(a: Node, b: Node, s: Sig, x: int, p: Poly)
    requires RouteOf(a).ByResidues? && RouteOf(b).ByResidues?
    requires CongruenceSig(a) == CongruenceSig(b) == Some(s) && s.Residues?
    requires s.m >= 2 && Expand(RouteOf(a).term) == Some(p)
    ensures True(a, Everywhere(x)) == True(b, Everywhere(x)) <==>
      (UniValue(p, x) % s.m in Listed(a) <==> UniValue(p, x) % s.m in Listed(b))
  {
    var ra, rb := RouteOf(a), RouteOf(b);
    ManySig(a, ra.term, ra.m, ra.negate);
    ManySig(b, rb.term, rb.m, rb.negate);
    MembershipAt(a, ra.term, ra.m, ra.negate, x);
    MembershipAt(b, rb.term, rb.m, rb.negate, x);
    SameResidues(p, ra.term, Expand(rb.term).value, rb.term, s.m, x);
  }

  ghost predicate AgreesAt(a: Node, b: Node, x: int) {
    True(a, Everywhere(x)) == True(b, Everywhere(x))
  }

  ghost predicate ListsAlike(a: Node, b: Node, r: int) {
    r in Listed(a) <==> r in Listed(b)
  }

  /** Claims with the same signature of several residues are about the same residue function. They are
      true at the same values exactly when they list the same ones of the residues it takes. */
  lemma SharedResidues(a: Node, b: Node, s: Sig)
    requires RouteOf(a).ByResidues? && RouteOf(b).ByResidues?
    requires CongruenceSig(a) == CongruenceSig(b) == Some(s) && s.Residues?
    ensures (forall x :: AgreesAt(a, b, x)) <==> (forall r :: r in s.residues ==> ListsAlike(a, b, r))
  {
    var ra := RouteOf(a);
    ManySig(a, ra.term, ra.m, ra.negate);
    var p := Expand(ra.term).value;
    if forall r :: r in s.residues ==> ListsAlike(a, b, r) {
      forall x ensures AgreesAt(a, b, x) {
        var r := UniValue(p, x) % s.m;
        ResiduesExact(p, s.m, r);
        assert Leaves(p, s.m, x, r);
        assert ListsAlike(a, b, r);
        AgreeAt(a, b, s, x, p);
      }
    }
    if forall x :: AgreesAt(a, b, x) {
      forall r | r in s.residues ensures ListsAlike(a, b, r) {
        ResiduesExact(p, s.m, r);
        var x :| Leaves(p, s.m, x, r);
        assert AgreesAt(a, b, x);
        AgreeAt(a, b, s, x, p);
      }
    }
  }
}
