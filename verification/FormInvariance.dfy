/** Signatures do not see grouping, order and negations. */
module FormInvariance {
  // What signatures do not see: grouping and order of operands, double negations, the sides of a
  // biconditional; and the loop that flattens nested operands.

  import opened Collections
  import opened Polynomials
  import opened Signatures

  /** None on either side, or both multisets together. */
  function Merge(a: Option<multiset<Sig>>, b: Option<multiset<Sig>>): Option<multiset<Sig>> {
    if a.None? || b.None? then None else Some(a.value + b.value)
  }

  lemma MergeLaws(a: Option<multiset<Sig>>, b: Option<multiset<Sig>>, c: Option<multiset<Sig>>)
    ensures Merge(a, Some(multiset{})) == a && Merge(Some(multiset{}), a) == a
    ensures Merge(Merge(a, b), c) == Merge(a, Merge(b, c)) && Merge(a, b) == Merge(b, a)
  {
    if a.Some? {
      assert a.value + multiset{} == a.value && multiset{} + a.value == a.value;
      if b.Some? {
        assert a.value + b.value == b.value + a.value;
        if c.Some? {
          assert (a.value + b.value) + c.value == a.value + (b.value + c.value);
        }
      }
    }
  }

  lemma {:induction false} SubsConcat(conj: bool, a: seq<Node>, b: seq<Node>, single: bool)
    ensures Subs(conj, a + b, single) == Merge(Subs(conj, a, single), Subs(conj, b, single))
  {
    if a == [] {
      assert a + b == b;
      MergeLaws(Subs(conj, b, single), None, None);
    } else {
      assert (a + b)[0] == a[0] && (a + b)[1..] == a[1..] + b;
      SubsConcat(conj, a[1..], b, single);
      MergeLaws(SubsOf(conj, a[0], single), Subs(conj, a[1..], single), Subs(conj, b, single));
    }
  }

  lemma SubsOne(conj: bool, v: Node, single: bool)
    ensures Subs(conj, [v], single) == SubsOf(conj, v, single)
  {
    assert [v][1..] == [];
    MergeLaws(SubsOf(conj, v, single), None, None);
  }

  /** Operands of the same kind may be grouped in any way. */
  lemma JunctionAssociates(conj: bool, a: seq<Node>, b: seq<Node>, c: seq<Node>, single: bool)
    ensures BoolSig(BoolOp(conj, a + [BoolOp(conj, b)] + c), single) == BoolSig(BoolOp(conj, a + b + c), single)
  {
    SubsConcat(conj, a + [BoolOp(conj, b)], c, single);
    SubsConcat(conj, a, [BoolOp(conj, b)], single);
    SubsOne(conj, BoolOp(conj, b), single);
    SubsConcat(conj, a + b, c, single);
    SubsConcat(conj, a, b, single);
  }

  lemma {:induction false} SubsCommute(conj: bool, a: seq<Node>, b: seq<Node>, single: bool)
    requires multiset(a) == multiset(b)
    ensures Subs(conj, a, single) == Subs(conj, b, single)
  {
    Rearranged(a, b);
    if a != [] {
      var j := TakeFirst(a, b);
      SubsCommute(conj, a[1..], Without(b, j), single);
      MoveFirst(conj, a[0], b[..j], b[j + 1..], single);
      assert a == [a[0]] + a[1..] && b == b[..j] + ([a[0]] + b[j + 1..]);
      SubsConcat(conj, [a[0]], a[1..], single);
    }
  }

  lemma MoveFirst(conj: bool, v: Node, a: seq<Node>, b: seq<Node>, single: bool)
    ensures Subs(conj, a + ([v] + b), single) == Merge(Subs(conj, [v], single), Subs(conj, a + b, single))
  {
    var sv, sa, sb := Subs(conj, [v], single), Subs(conj, a, single), Subs(conj, b, single);
    SubsConcat(conj, a, [v] + b, single);
    SubsConcat(conj, [v], b, single);
    SubsConcat(conj, a, b, single);
    MergeLaws(sa, sv, sb);
    MergeLaws(sv, sa, sb);
  }

  /** And they may come in any order. */
  lemma JunctionCommutes(conj: bool, a: seq<Node>, b: seq<Node>, single: bool)
    requires multiset(a) == multiset(b)
    ensures BoolSig(BoolOp(conj, a), single) == BoolSig(BoolOp(conj, b), single)
  {
    SubsCommute(conj, a, b, single);
  }

  function PairSig(iff: bool, p: Option<Sig>, q: Option<Sig>): Option<Sig> {
    if p.None? || q.None? then None else Some(Parity(iff, multiset{p.value, q.value}))
  }

  lemma ParitySig(op: CmpOp, a: Node, b: Node, single: bool)
    requires (op.Eq? || op.NotEq?) && IsBool(a) && IsBool(b)
    ensures BoolSig(Compare(op, a, b), single) == PairSig(op.Eq?, BoolSig(a, single), BoolSig(b, single))
  {
  }

  lemma PairSigCommutes(iff: bool, p: Option<Sig>, q: Option<Sig>)
    ensures PairSig(iff, p, q) == PairSig(iff, q, p)
  {
    if p.Some? && q.Some? {
      assert multiset{p.value, q.value} == multiset{q.value, p.value};
    }
  }

  /** The sides of a biconditional may be exchanged. */
  lemma ParityCommutes(op: CmpOp, a: Node, b: Node, single: bool)
    requires (op.Eq? || op.NotEq?) && IsBool(a) && IsBool(b)
    ensures BoolSig(Compare(op, a, b), single) == BoolSig(Compare(op, b, a), single)
  {
    ParitySig(op, a, b, single);
    ParitySig(op, b, a, single);
    PairSigCommutes(op.Eq?, BoolSig(a, single), BoolSig(b, single));
  }

  function OtherSide(op: CmpOp): CmpOp
    requires op.Eq? || op.NotEq?
  {
    if op.Eq? then NotEq else Eq
  }

  lemma BoolSidesAreNoAtom(op: CmpOp, a: Node, b: Node, single: bool)
    requires IsBool(a) && IsBool(b)
    ensures AtomSig(Compare(op, a, b), single).None?
  {
    assert ModOf(a).None? && ModOf(b).None?;
  }

  /** `not (a == b)` is signed as `a != b` and `not (a != b)` as `a == b`, between numbers and between
      claims. */
  lemma NegatedComparison(op: CmpOp, a: Node, b: Node, single: bool)
    requires op.Eq? || op.NotEq?
    ensures BoolSig(Not(Compare(op, a, b)), single) == BoolSig(Compare(OtherSide(op), a, b), single)
  {
    if IsBool(a) && IsBool(b) {
      BoolSidesAreNoAtom(op, a, b, single);
      ParitySig(op, a, b, single);
      ParitySig(OtherSide(op), a, b, single);
    }
  }

  /** A double negation is not seen. */
  lemma DoubleNegation(a: Node, single: bool)
    ensures BoolSig(Not(Not(a)), single) == BoolSig(a, single)
  {
  }

  /** What a negation does to a signature. */
  function Flipped(s: Sig): Sig {
    match s
    case Atom(eq, m, norm) => Atom(!eq, m, norm)
    case Parity(iff, pair) => Parity(!iff, pair)
    case Negation(inner) => inner
    case _ => Negation(s)
  }

  function FlippedOption(s: Option<Sig>): Option<Sig> {
    if s.None? then None else Some(Flipped(s.value))
  }

  /** No claim is signed as a doubly negated one, or by its residues. */
  predicate Stripped(s: Sig) {
    !s.Residues? && (s.Negation? ==> s.inner.Junction?)
  }

  lemma AtomsAreStripped(n: Node, single: bool)
    ensures AtomSig(n, single).Some? ==> AtomSig(n, single).value.Atom?
  {
  }

  /** A negated claim is signed by flipping the signature of the claim, whatever the claim looks like. */
  lemma {:induction false} NegationFlips(a: Node, single: bool)
    ensures BoolSig(Not(a), single) == FlippedOption(BoolSig(a, single))
    ensures BoolSig(a, single).Some? ==> Stripped(BoolSig(a, single).value)
  {
    AtomsAreStripped(a, single);
    if a.Not? {
      NegationFlips(a.operand, single);
    } else if a.Compare? {
      CompareIsAtomOrParity(a, single);
    }
  }

  lemma CompareIsAtomOrParity(n: Node, single: bool)
    requires n.Compare?
    ensures AtomSig(n, single).Some? ==> BoolSig(n, single) == AtomSig(n, single)
    ensures BoolSig(n, single).Some? ==> BoolSig(n, single).value.Atom? || BoolSig(n, single).value.Parity?
  {
    if (n.op.Eq? || n.op.NotEq?) && IsBool(n.left) && IsBool(n.right) {
      BoolSidesAreNoAtom(n.op, n.left, n.right, single);
    }
  }

  lemma FlipTwice(s: Sig)
    requires Stripped(s)
    ensures Flipped(Flipped(s)) == s
  {
  }

  /** So negations agree exactly where what is negated does. */
  lemma NegationIsInjective(a: Node, b: Node, single: bool)
    ensures BoolSig(Not(a), single) == BoolSig(Not(b), single) <==> BoolSig(a, single) == BoolSig(b, single)
  {
    NegationFlips(a, single);
    NegationFlips(b, single);
    var s, t := BoolSig(a, single), BoolSig(b, single);
    if s.Some? && t.Some? {
      FlipTwice(s.value);
      FlipTwice(t.value);
    }
  }

  ghost predicate Flat(conj: bool, values: seq<Node>) {
    forall i :: 0 <= i < |values| ==> !(values[i].BoolOp? && values[i].conj == conj)
  }

  ghost predicate Signed(values: seq<Node>, single: bool, sigs: seq<Sig>) {
    |sigs| == |values| && forall i :: 0 <= i < |values| ==> BoolSig(values[i], single) == Some(sigs[i])
  }

  lemma SignedRest(conj: bool, values: seq<Node>, single: bool, sigs: seq<Sig>)
    requires values != [] && Flat(conj, values) && Signed(values, single, sigs)
    ensures Flat(conj, values[1..]) && Signed(values[1..], single, sigs[1..])
    ensures SubsOf(conj, values[0], single) == Some(multiset{sigs[0]})
    ensures multiset(sigs) == multiset{sigs[0]} + multiset(sigs[1..])
  {
    assert forall i :: 0 <= i < |values[1..]| ==> values[1..][i] == values[i + 1] && sigs[1..][i] == sigs[i + 1];
    assert sigs == [sigs[0]] + sigs[1..];
  }

  lemma {:induction false} SubsList(conj: bool, values: seq<Node>, single: bool, sigs: seq<Sig>)
    requires Flat(conj, values) && Signed(values, single, sigs)
    ensures Subs(conj, values, single) == Some(multiset(sigs))
  {
    if values != [] {
      SignedRest(conj, values, single, sigs);
      SubsList(conj, values[1..], single, sigs[1..]);
    }
  }

  /** The signature of a flat junction lists those of its operands, each as often as it occurs. */
  lemma JunctionLists(conj: bool, values: seq<Node>, single: bool, sigs: seq<Sig>)
    requires Flat(conj, values) && Signed(values, single, sigs)
    ensures BoolSig(BoolOp(conj, values), single) == Some(Junction(conj, multiset(sigs)))
  {
    SubsList(conj, values, single, sigs);
  }

  /** The same of whole claims. */
  lemma NegationsDrop(op: CmpOp, a: Node, b: Node, n: Node)
    requires (op.Eq? || op.NotEq?) && RouteOf(n).ByForm?
    ensures CongruenceSig(Not(Compare(op, a, b))) == CongruenceSig(Compare(OtherSide(op), a, b))
    ensures CongruenceSig(Not(Not(n))) == CongruenceSig(n)
  {
    var c, d := Compare(op, a, b), Compare(OtherSide(op), a, b);
    assert Names(c) == Names(d) == Names(Not(c)) && Names(Not(Not(n))) == Names(Not(n)) == Names(n);
    NegatedComparison(op, a, b, OneVariable(d));
    DoubleNegation(n, OneVariable(n));
  }

  function Size(nodes: seq<Node>): nat {
    if nodes == [] then 0 else SizeOf(nodes[0]) + Size(nodes[1..])
  }

  function SizeOf(n: Node): (s: nat)
    ensures s > 0
  {
    if n.BoolOp? then 1 + Size(n.values) else 1
  }

  lemma {:induction false} SizeConcat(a: seq<Node>, b: seq<Node>)
    ensures Size(a + b) == Size(a) + Size(b)
  {
    if a == [] {
      assert a + b == b;
    } else {
      assert (a + b)[1..] == a[1..] + b;
      SizeConcat(a[1..], b);
    }
  }

  /** The operands still on the stack and the parts collected have the signatures of the operands. */
  ghost predicate SameSubs(conj: bool, stack: seq<Node>, parts: seq<Node>, values: seq<Node>) {
    forall single :: SameSubsAt(conj, stack, parts, values, single)
  }

  ghost predicate SameSubsAt(conj: bool, stack: seq<Node>, parts: seq<Node>, values: seq<Node>, single: bool) {
    Merge(Subs(conj, stack, single), Subs(conj, parts, single)) == Subs(conj, values, single)
  }

  lemma PopKeeps(conj: bool, rest: seq<Node>, v: Node, parts: seq<Node>, values: seq<Node>, single: bool)
    requires SameSubsAt(conj, rest + [v], parts, values, single)
    ensures SameSubsAt(conj, rest, parts + [v], values, single)
  {
    var sr, sv, sp := Subs(conj, rest, single), Subs(conj, [v], single), Subs(conj, parts, single);
    SubsConcat(conj, rest, [v], single);
    SubsConcat(conj, parts, [v], single);
    MergeLaws(sr, sv, sp);
    MergeLaws(sv, sp, None);
  }

  lemma PopOpens(conj: bool, rest: seq<Node>, v: Node, parts: seq<Node>, values: seq<Node>, single: bool)
    requires SameSubsAt(conj, rest + [v], parts, values, single) && v.BoolOp? && v.conj == conj
    ensures SameSubsAt(conj, rest + v.values, parts, values, single)
  {
    SubsConcat(conj, rest, [v], single);
    SubsConcat(conj, rest, v.values, single);
    SubsOne(conj, v, single);
  }

  lemma PopFlattens(conj: bool, rest: seq<Node>, v: Node, parts: seq<Node>, values: seq<Node>)
    requires SameSubs(conj, rest + [v], parts, values)
    ensures v.BoolOp? && v.conj == conj ==> SameSubs(conj, rest + v.values, parts, values)
    ensures SameSubs(conj, rest, parts + [v], values)
  {
    forall single ensures SameSubsAt(conj, rest, parts + [v], values, single) {
      PopKeeps(conj, rest, v, parts, values, single);
    }
    if v.BoolOp? && v.conj == conj {
      forall single ensures SameSubsAt(conj, rest + v.values, parts, values, single) {
        PopOpens(conj, rest, v, parts, values, single);
      }
    }
  }

  lemma FlattenStarts(conj: bool, values: seq<Node>)
    ensures SameSubs(conj, values, [], values)
  {
    forall single ensures SameSubsAt(conj, values, [], values, single) {
      MergeLaws(Subs(conj, values, single), None, None);
    }
  }

  lemma FlattenEnds(conj: bool, parts: seq<Node>, values: seq<Node>)
    requires SameSubs(conj, [], parts, values)
    ensures forall single :: Subs(conj, parts, single) == Subs(conj, values, single)
  {
    forall single ensures Subs(conj, parts, single) == Subs(conj, values, single) {
      assert SameSubsAt(conj, [], parts, values, single);
      MergeLaws(Subs(conj, parts, single), None, None);
    }
  }

  /** The stack that flattens nested operands of one kind. The signatures of the parts it collects are
      those of the operands. */
  method Flatten(conj: bool, values: seq<Node>) returns (parts: seq<Node>)
    ensures forall i :: 0 <= i < |parts| ==> !(parts[i].BoolOp? && parts[i].conj == conj)
    ensures forall single :: Subs(conj, parts, single) == Subs(conj, values, single)
  {
    parts := [];
    var stack := values;
    FlattenStarts(conj, values);
    while stack != []
      invariant forall i :: 0 <= i < |parts| ==> !(parts[i].BoolOp? && parts[i].conj == conj)
      invariant SameSubs(conj, stack, parts, values)
      decreases Size(stack)
    {
      var v, rest := stack[|stack| - 1], stack[..|stack| - 1];
      assert stack == rest + [v];
      SizeConcat(rest, [v]);
      PopFlattens(conj, rest, v, parts, values);
      if v.BoolOp? && v.conj == conj {
        SizeConcat(rest, v.values);
        stack := rest + v.values;
      } else {
        stack := rest;
        parts := parts + [v];
      }
    }
    FlattenEnds(conj, parts, values);
  }
}
