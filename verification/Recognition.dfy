/** Which claims have a signature. */
module Recognition {
  // The claims that have a signature at all, told by how they are written: congruences between terms
  // within the degree cap, their combinations, and enumerable memberships.

  import opened Collections
  import opened Arith
  import opened Polynomials
  import opened Degrees
  import opened Signatures
  import opened Memberships

  /** A residue of a term within the cap, by a constant of at least two. */
  predicate IsResidue(n: Node) {
    n.Mod? && n.right.Const? && n.right.value >= 2 && InGrammar(n.left)
  }

  /** An integer below the modulus of the residue. */
  predicate InRange(n: Node, residue: Node)
    requires IsResidue(residue)
  {
    n.Const? && 0 <= n.value < residue.right.value
  }

  /** Two residues by one modulus, or a residue and an integer it can take, are equal or not. */
  predicate IsCongruence(n: Node) {
    && n.Compare? && (n.op.Eq? || n.op.NotEq?)
    && (if IsResidue(n.left) then InRange(n.right, n.left) || (IsResidue(n.right) && n.right.right == n.left.right)
        else IsResidue(n.right) && InRange(n.left, n.right))
  }

  /** Congruences under junctions, negations and biconditionals. */
  predicate Recognized(n: Node) {
    match n
    case BoolOp(_, values) => forall i :: 0 <= i < |values| ==> Recognized(values[i])
    case Not(a) => Recognized(a)
    case Compare(op, left, right) =>
      || IsCongruence(n)
      || ((op.Eq? || op.NotEq?) && IsBool(left) && IsBool(right) && Recognized(left) && Recognized(right))
    case _ => false
  }

  lemma ResidueWhen(n: Node)
    ensures IsResidue(n) <==> ModOf(n).Some? && ModOf(n).value.m >= 2 && Expand(ModOf(n).value.term).Some?
  {
    if ModOf(n).Some? {
      ExpandsWhen(n.left);
    }
  }

  lemma CongruenceWhen(n: Node, single: bool)
    ensures AtomSig(n, single).Some? <==> IsCongruence(n)
  {
    if n.Compare? {
      ResidueWhen(n.left);
      ResidueWhen(n.right);
    }
  }

  lemma {:induction false} RecognizedWhen(n: Node, single: bool)
    ensures BoolSig(n, single).Some? <==> Recognized(n)
    decreases n, 1
  {
    match n
    case BoolOp(conj, values) => AllRecognizedWhen(conj, values, single);
    case Not(inner) =>
      RecognizedWhen(inner, single);
      CongruenceWhen(inner, single);
      if inner.Not? {
        RecognizedWhen(inner.operand, single);
      }
    case Compare(op, left, right) =>
      CongruenceWhen(n, single);
      RecognizedWhen(left, single);
      RecognizedWhen(right, single);
    case _ =>
  }

  lemma {:induction false} AllRecognizedWhen(conj: bool, values: seq<Node>, single: bool)
    ensures Subs(conj, values, single).Some? <==> forall i :: 0 <= i < |values| ==> Recognized(values[i])
    decreases values, 0
  {
    if values != [] {
      OperandRecognizedWhen(conj, values[0], single);
      AllRecognizedWhen(conj, values[1..], single);
      assert forall i :: 0 < i < |values| ==> values[i] == values[1..][i - 1];
    }
  }

  lemma {:induction false} OperandRecognizedWhen(conj: bool, v: Node, single: bool)
    ensures SubsOf(conj, v, single).Some? <==> Recognized(v)
    decreases v, 2
  {
    if v.BoolOp? && v.conj == conj {
      AllRecognizedWhen(conj, v.values, single);
    } else {
      RecognizedWhen(v, single);
    }
  }

  /** The claim is about which residues one term leaves: a membership in a nonempty list of integers, or
      a disjunction of equations with integers. */
  ghost predicate AboutResidues(tree: Node, d: Modded) {
    match tree
    case BoolOp(conj, values) => !conj && values != [] && forall i :: 0 <= i < |values| ==> IsDisjunct(values[i], d)
    case Compare(op, left, right) =>
      (op.In? || op.NotIn?) && left == Node.Mod(d.term, Const(d.m)) && right.Literal? && right.elts != []
      && AllConst(right.elts)
    case _ => false
  }

  lemma ResiduesWhen(tree: Node, d: Modded)
    ensures RouteOf(tree) == ByResidues(d.term, d.m, tree.Compare? && tree.op.NotIn?) <==> AboutResidues(tree, d)
  {
    if tree.BoolOp? {
      DisjunctionWhen(tree.values, d);
    }
  }

  /** Claims about residues have a signature if the residues can be enumerated; all others exactly if they
      are combinations of congruences. */
  lemma SignedWhen(tree: Node)
    ensures forall d :: AboutResidues(tree, d) ==> (CongruenceSig(tree).Some? <==> Enumerable(d.term, d.m))
    ensures (forall d :: !AboutResidues(tree, d)) ==> (CongruenceSig(tree).Some? <==> Recognized(tree))
  {
    forall d | AboutResidues(tree, d) ensures CongruenceSig(tree).Some? <==> Enumerable(d.term, d.m) {
      ResiduesWhen(tree, d);
    }
    RecognizedWhen(tree, OneVariable(tree));
    if RouteOf(tree).ByResidues? {
      var d := Modded(RouteOf(tree).term, RouteOf(tree).m);
      ResiduesWhen(tree, d);
      assert AboutResidues(tree, d);
    }
  }
}
