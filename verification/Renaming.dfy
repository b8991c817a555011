/** Claims in one variable do not say its name. */
module Renaming {
  // A claim in one variable keeps its signature when the variable is given another name, through
  // expansion, normal forms, combinations and residue sets.

  import opened Collections
  import opened Arith
  import opened Polynomials
  import opened NormalForms
  import opened Signatures

  /** n with w for every variable. */
  function Renamed(n: Node, w: string): Node
    decreases n, 1
  {
    match n
    case Const(_) => n
    case Name(_) => Name(w)
    case Neg(a) => Neg(Renamed(a, w))
    case Add(a, b) => Add(Renamed(a, w), Renamed(b, w))
    case Sub(a, b) => Sub(Renamed(a, w), Renamed(b, w))
    case Mul(a, b) => Mul(Renamed(a, w), Renamed(b, w))
    case Pow(a, b) => Pow(Renamed(a, w), Renamed(b, w))
    case Mod(a, b) => Node.Mod(Renamed(a, w), Renamed(b, w))
    case Compare(op, a, b) => Compare(op, Renamed(a, w), Renamed(b, w))
    case BoolOp(conj, vs) => BoolOp(conj, RenamedAll(vs, w))
    case Not(a) => Not(Renamed(a, w))
    case Literal(vs) => Literal(RenamedAll(vs, w))
    case Other(vs) => Other(RenamedAll(vs, w))
  }

  function RenamedAll(vs: seq<Node>, w: string): (r: seq<Node>)
    ensures |r| == |vs| && forall i :: 0 <= i < |vs| ==> r[i] == Renamed(vs[i], w)
    decreases vs, 0
  {
    if vs == [] then [] else [Renamed(vs[0], w)] + RenamedAll(vs[1..], w)
  }

  lemma {:induction false} RenamedNames(n: Node, w: string)
    ensures Names(Renamed(n, w)) <= {w}
  {
    match n
    case Const(_) =>
    case Name(_) =>
    case Neg(a) => RenamedNames(a, w);
    case Add(a, b) => RenamedNames(a, w); RenamedNames(b, w);
    case Sub(a, b) => RenamedNames(a, w); RenamedNames(b, w);
    case Mul(a, b) => RenamedNames(a, w); RenamedNames(b, w);
    case Pow(a, b) => RenamedNames(a, w); RenamedNames(b, w);
    case Mod(a, b) => RenamedNames(a, w); RenamedNames(b, w);
    case Compare(_, a, b) => RenamedNames(a, w); RenamedNames(b, w);
    case BoolOp(_, vs) => forall i | 0 <= i < |vs| { RenamedNames(vs[i], w); }
    case Not(a) => RenamedNames(a, w);
    case Literal(vs) => forall i | 0 <= i < |vs| { RenamedNames(vs[i], w); }
    case Other(vs) => forall i | 0 <= i < |vs| { RenamedNames(vs[i], w); }
  }

  /** Renaming back. */
  lemma {:induction false} RenamedBack(n: Node, v: string, w: string)
    requires Names(n) <= {v}
    ensures Renamed(Renamed(n, w), v) == n
  {
    match n
    case Const(_) =>
    case Name(id) => assert id in Names(n);
    case Neg(a) => RenamedBack(a, v, w);
    case Add(a, b) => RenamedBack(a, v, w); RenamedBack(b, v, w);
    case Sub(a, b) => RenamedBack(a, v, w); RenamedBack(b, v, w);
    case Mul(a, b) => RenamedBack(a, v, w); RenamedBack(b, v, w);
    case Pow(a, b) => RenamedBack(a, v, w); RenamedBack(b, v, w);
    case Mod(a, b) => RenamedBack(a, v, w); RenamedBack(b, v, w);
    case Compare(_, a, b) => RenamedBack(a, v, w); RenamedBack(b, v, w);
    case BoolOp(_, vs) => forall i | 0 <= i < |vs| { RenamedBack(vs[i], v, w); }
    case Not(a) => RenamedBack(a, v, w);
    case Literal(vs) => forall i | 0 <= i < |vs| { RenamedBack(vs[i], v, w); }
    case Other(vs) => forall i | 0 <= i < |vs| { RenamedBack(vs[i], v, w); }
  }

  // ----- Polynomials with the same degrees and coefficients

  /** The same degrees and coefficients. */
  ghost predicate Alike(p: Poly, q: Poly) {
    |p| == |q| && forall i :: 0 <= i < |p| ==> |p[i].mono| == |q[i].mono| && p[i].coeff == q[i].coeff
  }

  /** The same table but for the variable: at most one name on either side. */
  ghost predicate Twins(p: Poly, q: Poly, names: set<string>, w: string) {
    |names| <= 1 && Table(p, names) && Table(q, {w}) && Alike(p, q)
  }

  ghost predicate TwinOptions(p: Option<Poly>, q: Option<Poly>, names: set<string>, w: string) {
    (p.None? <==> q.None?) && (p.Some? ==> Twins(p.value, q.value, names, w))
  }

  lemma SameByDegree(a: Mono, c: Mono, names: set<string>)
    requires |names| <= 1 && Over(a, names) && Over(c, names)
    ensures a == c <==> |a| == |c|
  {
    if |a| == |c| {
      MonoByDegree(a, c, names);
    }
  }

  lemma {:induction false} AddTermAlike(p: Poly, q: Poly, a: Mono, b: Mono, c: int)
    requires Alike(p, q) && |a| == |b| && forall i :: 0 <= i < |p| ==> (p[i].mono == a <==> q[i].mono == b)
    ensures Alike(AddTerm(p, a, c), AddTerm(q, b, c))
  {
    if p != [] && p[0].mono != a {
      AddTermAlike(p[1..], q[1..], a, b, c);
    }
  }

  lemma AddTermTwins(p: Poly, q: Poly, a: Mono, b: Mono, c: int, names: set<string>, w: string)
    requires Twins(p, q, names, w) && Over(a, names) && Over(b, {w}) && |a| == |b|
    ensures Twins(AddTerm(p, a, c), AddTerm(q, b, c), names, w)
  {
    AddTermTable(p, a, c, names);
    AddTermTable(q, b, c, {w});
    forall i | 0 <= i < |p| ensures p[i].mono == a <==> q[i].mono == b {
      SameByDegree(p[i].mono, a, names);
      SameByDegree(q[i].mono, b, {w});
    }
    AddTermAlike(p, q, a, b, c);
  }

  lemma {:induction false} AddPolyTwins(a: Poly, b: Poly, c: Poly, d: Poly, names: set<string>, w: string)
    requires Twins(a, c, names, w) && Twins(b, d, names, w)
    ensures Twins(AddPoly(a, b), AddPoly(c, d), names, w)
    decreases |b|
  {
    if b != [] {
      AddTermTwins(a, c, b[0].mono, d[0].mono, b[0].coeff, names, w);
      AddPolyTwins(AddTerm(a, b[0].mono, b[0].coeff), b[1..], AddTerm(c, d[0].mono, d[0].coeff), d[1..], names, w);
    }
  }

  lemma {:induction false} NegPolyAt(a: Poly, i: nat)
    requires i < |a|
    ensures i < |NegPoly(a)| && NegPoly(a)[i] == Term(a[i].mono, -a[i].coeff)
  {
    if i > 0 {
      NegPolyAt(a[1..], i - 1);
    }
  }

  lemma NegPolyTwins(a: Poly, c: Poly, names: set<string>, w: string)
    requires Twins(a, c, names, w)
    ensures Twins(NegPoly(a), NegPoly(c), names, w)
  {
    NegPolyTable(a, names);
    NegPolyTable(c, {w});
    NegPolyKeys(a);
    NegPolyKeys(c);
    forall i | 0 <= i < |a| ensures NegPoly(a)[i].coeff == NegPoly(c)[i].coeff {
      NegPolyAt(a, i);
      NegPolyAt(c, i);
    }
  }

  lemma SumOver(a: Mono, b: Mono, names: set<string>)
    requires Over(a, names) && Over(b, names)
    ensures Over(a + b, names) && |a + b| == |a| + |b|
  {
  }

  ghost predicate TwinTerms(t: Term, u: Term, names: set<string>, w: string) {
    Over(t.mono, names) && Over(u.mono, {w}) && |t.mono| == |u.mono| && t.coeff == u.coeff
  }

  lemma {:induction false} MulTermTwins(acc: Poly, t: Term, b: Poly, acc': Poly, u: Term, d: Poly,
                                        names: set<string>, w: string)
    requires Twins(acc, acc', names, w) && TwinTerms(t, u, names, w) && Twins(b, d, names, w)
    ensures TwinOptions(MulTerm(acc, t, b), MulTerm(acc', u, d), names, w)
    decreases |b|
  {
    if b != [] {
      SumOver(t.mono, b[0].mono, names);
      SumOver(u.mono, d[0].mono, {w});
      var c := t.coeff * b[0].coeff;
      AddTermTwins(acc, acc', t.mono + b[0].mono, u.mono + d[0].mono, c, names, w);
      MulTermTwins(AddTerm(acc, t.mono + b[0].mono, c), t, b[1..], AddTerm(acc', u.mono + d[0].mono, c), u, d[1..],
                   names, w);
    }
  }

  lemma {:induction false} MulIntoTwins(acc: Poly, a: Poly, b: Poly, acc': Poly, c: Poly, d: Poly,
                                        names: set<string>, w: string)
    requires Twins(acc, acc', names, w) && Twins(a, c, names, w) && Twins(b, d, names, w)
    ensures TwinOptions(MulInto(acc, a, b), MulInto(acc', c, d), names, w)
    decreases |a|
  {
    if a != [] {
      MulTermTwins(acc, a[0], b, acc', c[0], d, names, w);
      var next, next' := MulTerm(acc, a[0], b), MulTerm(acc', c[0], d);
      if next.Some? {
        MulIntoTwins(next.value, a[1..], b, next'.value, c[1..], d, names, w);
      }
    }
  }

  lemma {:induction false} PowPolyTwins(a: Poly, c: Poly, k: nat, names: set<string>, w: string)
    requires Twins(a, c, names, w)
    ensures TwinOptions(PowPoly(a, k), PowPoly(c, k), names, w)
  {
    if k > 0 {
      PowPolyTwins(a, c, k - 1, names, w);
      if PowPoly(a, k - 1).Some? {
        MulIntoTwins([], PowPoly(a, k - 1).value, a, [], PowPoly(c, k - 1).value, c, names, w);
      }
    }
  }

  lemma NameTwins(id: string, names: set<string>, w: string)
    requires id in names && |names| <= 1
    ensures Twins([Term(multiset{id}, 1)], [Term(multiset{w}, 1)], names, w)
  {
    assert |multiset{id}| == |multiset{w}| == 1;
  }

  /** Renaming a term in one variable changes nothing but the variable of its expansion. */
  lemma {:induction false} ExpandTwins(n: Node, names: set<string>, w: string)
    requires |names| <= 1 && Names(n) <= names
    ensures TwinOptions(Expand(n), Expand(Renamed(n, w)), names, w)
    decreases n, 1
  {
    match n
    case Name(id) => NameTwins(id, names, w);
    case Neg(a) =>
      ExpandTwins(a, names, w);
      if Expand(a).Some? {
        NegPolyTwins(Expand(a).value, Expand(Renamed(a, w)).value, names, w);
      }
    case Add(a, b) => SumTwins(n, names, w);
    case Sub(a, b) => SumTwins(n, names, w);
    case Mul(a, b) =>
      ExpandTwins(a, names, w);
      ExpandTwins(b, names, w);
      if Expand(a).Some? && Expand(b).Some? {
        MulIntoTwins([], Expand(a).value, Expand(b).value, [], Expand(Renamed(a, w)).value,
                     Expand(Renamed(b, w)).value, names, w);
      }
    case Pow(a, k) =>
      ExpandTwins(a, names, w);
      if Expand(a).Some? && k.Const? && 0 <= k.value <= MAX_EXP {
        PowPolyTwins(Expand(a).value, Expand(Renamed(a, w)).value, k.value, names, w);
      }
    case _ =>
  }

  lemma {:induction false} SumTwins(n: Node, names: set<string>, w: string)
    requires |names| <= 1 && Names(n) <= names && (n.Add? || n.Sub?)
    ensures TwinOptions(Expand(n), Expand(Renamed(n, w)), names, w)
    decreases n, 0
  {
    var a, b := n.left, n.right;
    ExpandTwins(a, names, w);
    ExpandTwins(b, names, w);
    if Expand(a).Some? && Expand(b).Some? {
      var p, q, p', q' := Expand(a).value, Expand(b).value, Expand(Renamed(a, w)).value, Expand(Renamed(b, w)).value;
      if n.Add? {
        AddPolyTwins(p, q, p', q', names, w);
      } else {
        NegPolyTwins(q, q', names, w);
        AddPolyTwins(p, NegPoly(q), p', NegPoly(q'), names, w);
      }
    }
  }

  // ----- Twins have one normal form

  lemma {:induction false} ReduceAlike(p: Poly, q: Poly, m: int)
    requires m > 0 && Alike(p, q)
    ensures Alike(Reduce(p, m), Reduce(q, m))
  {
    if p != [] {
      ReduceAlike(p[1..], q[1..], m);
      ReduceFirst(p, m);
      ReduceFirst(q, m);
      var r, s := Reduce(p, m), Reduce(q, m);
      if p[0].coeff % m != 0 {
        assert r == [r[0]] + r[1..] && s == [s[0]] + s[1..];
      }
    }
  }

  lemma {:induction false} ByDegreeAlike(p: Poly, q: Poly)
    requires Alike(p, q)
    ensures ByDegree(p) == ByDegree(q)
    ensures p != [] ==> TopDegree(p) == TopDegree(q)
  {
    if p != [] {
      ByDegreeAlike(p[1..], q[1..]);
    }
  }

  lemma NormalizeAlike(p: Poly, q: Poly, m: nat)
    requires m > 0 && Alike(p, q)
    ensures Normalize(p, m, true) == Normalize(q, m, true)
  {
    ReduceAlike(p, q, m);
    ByDegreeAlike(Reduce(p, m), Reduce(q, m));
  }

  lemma {:induction false} UniValueAlike(p: Poly, q: Poly, x: int)
    requires Alike(p, q)
    ensures UniValue(p, x) == UniValue(q, x)
  {
    if p != [] {
      UniValueAlike(p[1..], q[1..], x);
    }
  }

  lemma ResidueSetAlike(p: Poly, q: Poly, m: nat)
    requires m > 0 && Alike(p, q)
    ensures ResidueSet(p, m) == ResidueSet(q, m)
  {
    var a, b := set n | 0 <= n < m :: UniValue(p, n) % m, set n | 0 <= n < m :: UniValue(q, n) % m;
    forall n ensures UniValue(p, n) == UniValue(q, n) {
      UniValueAlike(p, q, n);
    }
    forall y ensures y in a <==> y in b {
      if y in a {
        var n :| 0 <= n < m && UniValue(p, n) % m == y;
        assert UniValue(q, n) % m in b;
      }
      if y in b {
        var n :| 0 <= n < m && UniValue(q, n) % m == y;
        assert UniValue(p, n) % m in a;
      }
    }
    assert a == b;
  }

  // ----- Atoms

  lemma ConstTwins(c: int, names: set<string>, w: string)
    requires |names| <= 1
    ensures Twins([Term(multiset{}, c)], [Term(multiset{}, c)], names, w)
  {
  }

  lemma ModOfRenamed(n: Node, w: string)
    ensures ModOf(Renamed(n, w)) == if ModOf(n).None? then None
                                    else Some(Modded(Renamed(ModOf(n).value.term, w), ModOf(n).value.m))
  {
  }

  lemma AgainstConstTwins(l: Modded, other: Node, ranged: bool, names: set<string>, w: string)
    requires |names| <= 1 && Names(l.term) <= names
    ensures TwinDifferences(AgainstConst(l, other, ranged),
                            AgainstConst(Modded(Renamed(l.term, w), l.m), Renamed(other, w), ranged), names, w)
  {
    if other.Const? {
      ExpandTwins(l.term, names, w);
      if Expand(l.term).Some? {
        ConstTwins(-other.value, names, w);
        var c := [Term(multiset{}, -other.value)];
        AddPolyTwins(Expand(l.term).value, c, Expand(Renamed(l.term, w)).value, c, names, w);
      }
    }
  }

  ghost predicate TwinDifferences(d: Option<Difference>, e: Option<Difference>, names: set<string>, w: string) {
    (d.None? <==> e.None?) && (d.Some? ==> d.value.m == e.value.m && Twins(d.value.poly, e.value.poly, names, w))
  }

  lemma DifferenceTwins(left: Node, right: Node, ranged: bool, names: set<string>, w: string)
    requires |names| <= 1 && Names(left) <= names && Names(right) <= names
    ensures TwinDifferences(DifferenceOf(left, right, ranged),
                            DifferenceOf(Renamed(left, w), Renamed(right, w), ranged), names, w)
  {
    var l, r := ModOf(left), ModOf(right);
    ModOfRenamed(left, w);
    ModOfRenamed(right, w);
    if l.Some? && r.Some? {
      ExpandTwins(l.value.term, names, w);
      ExpandTwins(r.value.term, names, w);
      var p, q := Expand(l.value.term), Expand(r.value.term);
      if p.Some? && q.Some? {
        var p', q' := Expand(Renamed(l.value.term, w)).value, Expand(Renamed(r.value.term, w)).value;
        NegPolyTwins(q.value, q', names, w);
        AddPolyTwins(p.value, NegPoly(q.value), p', NegPoly(q'), names, w);
      }
    } else if l.Some? {
      AgainstConstTwins(l.value, right, ranged, names, w);
    } else if r.Some? {
      AgainstConstTwins(r.value, left, ranged, names, w);
    }
  }

  lemma AtomRenamed(n: Node, names: set<string>, w: string)
    requires |names| <= 1 && Names(n) <= names
    ensures AtomSig(Renamed(n, w), true) == AtomSig(n, true)
  {
    if n.Compare? {
      DifferenceTwins(n.left, n.right, true, names, w);
      var d, e := DifferenceOf(n.left, n.right, true), DifferenceOf(Renamed(n.left, w), Renamed(n.right, w), true);
      if d.Some? && d.value.m >= 2 {
        NormalizeAlike(d.value.poly, e.value.poly, d.value.m);
      }
    }
  }

  // ----- Combinations

  predicate IsParity(n: Node) {
    n.Compare? && (n.op.Eq? || n.op.NotEq?) && IsBool(n.left) && IsBool(n.right)
  }

  function ParityOf(iff: bool, p: Option<Sig>, q: Option<Sig>): Option<Sig> {
    if p.None? || q.None? then None else Some(Parity(iff, multiset{p.value, q.value}))
  }

  lemma CompareSig(n: Node)
    requires n.Compare?
    ensures BoolSig(n, true) == if IsParity(n) then ParityOf(n.op.Eq?, BoolSig(n.left, true), BoolSig(n.right, true))
                                else AtomSig(n, true)
  {
  }

  lemma IsBoolRenamed(n: Node, w: string)
    ensures IsBool(Renamed(n, w)) == IsBool(n)
  {
  }

  lemma {:induction false} CompareRenamed(n: Node, names: set<string>, w: string)
    requires |names| <= 1 && Names(n) <= names && n.Compare?
    ensures BoolSig(Renamed(n, w), true) == BoolSig(n, true)
    decreases n, 0
  {
    CompareSig(n);
    CompareSig(Renamed(n, w));
    IsBoolRenamed(n.left, w);
    IsBoolRenamed(n.right, w);
    if IsParity(n) {
      BoolRenamed(n.left, names, w);
      BoolRenamed(n.right, names, w);
    } else {
      AtomRenamed(n, names, w);
    }
  }

  lemma {:induction false} BoolRenamed(n: Node, names: set<string>, w: string)
    requires |names| <= 1 && Names(n) <= names
    ensures BoolSig(Renamed(n, w), true) == BoolSig(n, true)
    decreases n, 1
  {
    match n
    case BoolOp(conj, values) => SubsRenamed(conj, values, names, w);
    case Not(inner) => NotRenamed(inner, names, w);
    case Compare(_, _, _) => CompareRenamed(n, names, w);
    case _ =>
  }

  /** What becomes of a negation, by the atom and the signature of what is negated. */
  function Negated(a: Option<Sig>, s: Option<Sig>): Option<Sig> {
    if a.Some? && a.value.Atom? then Some(a.value.(eq := !a.value.eq))
    else if s.None? then None
    else Some(if s.value.Parity? then s.value.(iff := !s.value.iff) else Negation(s.value))
  }

  lemma NotSig(inner: Node)
    ensures BoolSig(Not(inner), true) == if inner.Not? then BoolSig(inner.operand, true)
                                         else Negated(AtomSig(inner, true), BoolSig(inner, true))
  {
  }

  lemma {:induction false} NotRenamed(inner: Node, names: set<string>, w: string)
    requires |names| <= 1 && Names(inner) <= names
    ensures BoolSig(Renamed(Not(inner), w), true) == BoolSig(Not(inner), true)
    decreases inner, 3
  {
    NotSig(inner);
    NotSig(Renamed(inner, w));
    if inner.Not? {
      BoolRenamed(inner.operand, names, w);
    } else {
      AtomRenamed(inner, names, w);
      BoolRenamed(inner, names, w);
    }
  }

  lemma {:induction false} SubsRenamed(conj: bool, values: seq<Node>, names: set<string>, w: string)
    requires |names| <= 1 && forall i :: 0 <= i < |values| ==> Names(values[i]) <= names
    ensures Subs(conj, RenamedAll(values, w), true) == Subs(conj, values, true)
    decreases values, 0
  {
    if values != [] {
      SubsOfRenamed(conj, values[0], names, w);
      SubsRenamed(conj, values[1..], names, w);
      assert RenamedAll(values, w)[1..] == RenamedAll(values[1..], w);
    }
  }

  lemma {:induction false} SubsOfRenamed(conj: bool, v: Node, names: set<string>, w: string)
    requires |names| <= 1 && Names(v) <= names
    ensures SubsOf(conj, Renamed(v, w), true) == SubsOf(conj, v, true)
    decreases v, 2
  {
    if v.BoolOp? && v.conj == conj {
      SubsRenamed(conj, v.values, names, w);
    } else {
      BoolRenamed(v, names, w);
    }
  }

  // ----- Claims that list residues

  lemma TermRenamedEqual(x: Node, y: Node, names: set<string>, w: string)
    requires |names| <= 1 && Names(x) <= names && Names(y) <= names
    ensures Renamed(x, w) == Renamed(y, w) <==> x == y
  {
    var v := if names == {} then w else OneOf(names);
    OnlyName(names, v);
    RenamedBack(x, v, w);
    RenamedBack(y, v, w);
  }

  ghost function OneOf(names: set<string>): (v: string)
    requires names != {}
    ensures v in names
  {
    var v :| v in names; v
  }

  lemma OnlyName(names: set<string>, v: string)
    requires |names| <= 1 && (names != {} ==> v in names)
    ensures names <= {v}
  {
    forall y | y in names ensures y == v {
      AtMostOne(names, y, v);
    }
  }

  function ModdedRenamed(d: Option<Modded>, w: string): Option<Modded> {
    if d.None? then None else Some(Modded(Renamed(d.value.term, w), d.value.m))
  }

  predicate IsEquation(v: Node) {
    v.Compare? && v.op.Eq? && v.right.Const?
  }

  lemma EquationRenamed(v: Node, w: string)
    ensures IsEquation(Renamed(v, w)) == IsEquation(v)
    ensures v.Compare? ==> ModOf(Renamed(v, w).left) == ModdedRenamed(ModOf(v.left), w)
    ensures v.Compare? && ModOf(v.left).Some? ==> Names(ModOf(v.left).value.term) <= Names(v)
  {
    if v.Compare? {
      ModOfRenamed(v.left, w);
    }
  }

  function Agreed(d: Option<Modded>, rest: Option<Modded>): Option<Modded> {
    if rest.Some? && d == rest then rest else None
  }

  lemma DisjunctionStep(values: seq<Node>)
    requires values != []
    ensures DisjunctionOf(values) == if !IsEquation(values[0]) then None
                                     else if |values| == 1 then ModOf(values[0].left)
                                     else Agreed(ModOf(values[0].left), DisjunctionOf(values[1..]))
  {
  }

  lemma AgreedRenamed(d: Option<Modded>, rest: Option<Modded>, names: set<string>, w: string)
    requires |names| <= 1 && (d.Some? ==> Names(d.value.term) <= names)
    requires rest.Some? ==> Names(rest.value.term) <= names
    ensures Agreed(ModdedRenamed(d, w), ModdedRenamed(rest, w)) == ModdedRenamed(Agreed(d, rest), w)
  {
    if d.Some? && rest.Some? {
      TermRenamedEqual(d.value.term, rest.value.term, names, w);
    }
  }

  lemma {:induction false} DisjunctionRenamed(values: seq<Node>, names: set<string>, w: string)
    requires |names| <= 1 && forall i :: 0 <= i < |values| ==> Names(values[i]) <= names
    ensures DisjunctionOf(RenamedAll(values, w)) == ModdedRenamed(DisjunctionOf(values), w)
    ensures DisjunctionOf(values).Some? ==> Names(DisjunctionOf(values).value.term) <= names
  {
    if values != [] {
      var r := RenamedAll(values, w);
      assert r[1..] == RenamedAll(values[1..], w);
      DisjunctionStep(values);
      DisjunctionStep(r);
      EquationRenamed(values[0], w);
      if IsEquation(values[0]) && |values| > 1 {
        DisjunctionRenamed(values[1..], names, w);
        AgreedRenamed(ModOf(values[0].left), DisjunctionOf(values[1..]), names, w);
      }
    }
  }

  lemma FoldedAlike(p: Poly, q: Poly, m: nat, r: int, names: set<string>, w: string)
    requires m > 0 && Twins(p, q, names, w)
    ensures Normalize(AddPoly(p, [Term(multiset{}, -r)]), m, true)
         == Normalize(AddPoly(q, [Term(multiset{}, -r)]), m, true)
  {
    var c := [Term(multiset{}, -r)];
    ConstTwins(-r, names, w);
    AddPolyTwins(p, c, q, c, names, w);
    NormalizeAlike(AddPoly(p, c), AddPoly(q, c), m);
  }

  lemma OneResidue(p: Poly, m: nat, negate: bool, r: int)
    requires m >= 2
    ensures ResiduesSig(p, m, negate, {r}) == Atom(!negate, m, Normalize(AddPoly(p, [Term(multiset{}, -r)]), m, true))
  {
    assert r in {r};
  }

  ghost predicate IsOne(residues: set<int>, r: int) {
    residues == {r}
  }

  lemma ManyResidues(p: Poly, m: nat, negate: bool, residues: set<int>)
    requires m >= 2 && forall r :: !IsOne(residues, r)
    ensures ResiduesSig(p, m, negate, residues) == Residues(!negate, m, ByDegree(Reduce(p, m)), residues)
  {
    forall r | r in residues ensures residues != {r} {
      assert !IsOne(residues, r);
    }
  }

  lemma ResiduesAlike(p: Poly, q: Poly, m: nat, negate: bool, residues: set<int>, names: set<string>, w: string)
    requires m >= 2 && Twins(p, q, names, w)
    ensures ResiduesSig(p, m, negate, residues) == ResiduesSig(q, m, negate, residues)
  {
    if r :| IsOne(residues, r) {
      OneResidue(p, m, negate, r);
      OneResidue(q, m, negate, r);
      FoldedAlike(p, q, m, r, names, w);
    } else {
      ManyResidues(p, m, negate, residues);
      ManyResidues(q, m, negate, residues);
      ReduceAlike(p, q, m);
      ByDegreeAlike(Reduce(p, m), Reduce(q, m));
    }
  }

  lemma MembershipRenamed(term: Node, m: nat, negate: bool, names: set<string>, w: string)
    requires m >= 2 && |names| <= 1 && Names(term) <= names
    ensures MembershipSig(Renamed(term, w), m, negate) == MembershipSig(term, m, negate)
  {
    ExpandTwins(term, names, w);
    RenamedNames(term, w);
    SubsetSize(Names(term), names);
    SubsetSize(Names(Renamed(term, w)), {w});
    if Expand(term).Some? {
      var p, q := Expand(term).value, Expand(Renamed(term, w)).value;
      ResidueSetAlike(p, q, m);
      if ResidueSet(p, m).Some? {
        ResiduesAlike(p, q, m, negate, ResidueSet(p, m).value, names, w);
      }
    }
  }

  function RouteRenamed(r: Route, w: string): Route {
    if r.ByResidues? then ByResidues(Renamed(r.term, w), r.m, r.negate) else r
  }

  lemma AllConstRenamed(elts: seq<Node>, w: string)
    ensures AllConst(RenamedAll(elts, w)) == AllConst(elts)
  {
    var r := RenamedAll(elts, w);
    if AllConst(r) {
      forall i | 0 <= i < |elts| ensures elts[i].Const? {
        assert r[i].Const? && r[i] == Renamed(elts[i], w);
      }
    }
    if AllConst(elts) {
      forall i | 0 <= i < |elts| ensures r[i].Const? {
        assert elts[i].Const? && r[i] == Renamed(elts[i], w);
      }
    }
  }

  lemma MembershipRoute(tree: Node, names: set<string>, w: string)
    requires |names| <= 1 && Names(tree) <= names && tree.Compare?
    ensures RouteOf(Renamed(tree, w)) == RouteRenamed(RouteOf(tree), w)
    ensures RouteOf(tree).ByResidues? ==> Names(RouteOf(tree).term) <= names
  {
    EquationRenamed(tree, w);
    if tree.right.Literal? {
      AllConstRenamed(tree.right.elts, w);
    }
  }

  lemma RouteStays(tree: Node, names: set<string>, w: string)
    requires |names| <= 1 && Names(tree) <= names
    ensures RouteOf(Renamed(tree, w)) == RouteRenamed(RouteOf(tree), w)
    ensures RouteOf(tree).ByResidues? ==> Names(RouteOf(tree).term) <= names
  {
    match tree
    case BoolOp(_, values) => DisjunctionRenamed(values, names, w);
    case Compare(_, _, _) => MembershipRoute(tree, names, w);
    case _ =>
  }

  /** A claim in one variable keeps its signature, or stays unread, whatever the variable is called. */
  lemma SingleNameDrops(tree: Node, w: string)
    requires OneVariable(tree)
    ensures CongruenceSig(Renamed(tree, w)) == CongruenceSig(tree)
  {
    var names := Names(tree);
    RenamedNames(tree, w);
    SubsetSize(Names(Renamed(tree, w)), {w});
    RouteStays(tree, names, w);
    BoolRenamed(tree, names, w);
    var route := RouteOf(tree);
    if route.ByResidues? && route.m >= 2 {
      MembershipRenamed(route.term, route.m, route.negate, names, w);
    }
  }
}
