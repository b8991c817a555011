/** Rendering keeps the order of a claim. */
module RenderedOrder {
  // A rendered statement names the constants and variables of its claim in the order of the claim, each
  // as often; only the inner terms of a chain come twice, once on either side.

  import opened Collections
  import opened LeanText
  import opened Renderer

  datatype Leaf = Digits(n: nat) | Variable(id: string)

  function LeavesOf(p: Claim): seq<Leaf>
    decreases p, 1
  {
    match p
    case Const(n) => [Digits(n)]
    case Name(id) => [Variable(id)]
    case Minus(a) => LeavesOf(a)
    case Arithmetic(_, a, b) => LeavesOf(a) + LeavesOf(b)
    case Power(a, k) => LeavesOf(a) + LeavesOf(k)
    case Divide(a, d) => LeavesOf(a) + LeavesOf(d)
    case Modulo(a, d) => LeavesOf(a) + LeavesOf(d)
    case Call(_, args) => LeavesOfAll(args)
    case Chain(first, links) => LeavesOfLinks(LeavesOf(first), links)
    case BoolOp(_, values) => LeavesOfAll(values)
    case Not(a) => LeavesOf(a)
    case Other => []
  }

  function LeavesOfAll(ps: seq<Claim>): seq<Leaf>
    decreases ps, 0
  {
    if ps == [] then [] else LeavesOf(ps[0]) + LeavesOfAll(ps[1..])
  }

  /** Both sides of every link. */
  function LeavesOfLinks(before: seq<Leaf>, links: seq<Link>): seq<Leaf>
    decreases links, 0
  {
    if links == [] then [] else before + LeavesOfLink(links[0]) + LeavesOfLinks(LeavesOfLink(links[0]), links[1..])
  }

  function LeavesOfLink(l: Link): seq<Leaf>
    decreases l, 0
  {
    LeavesOf(l.term)
  }

  function ArgLeaf(x: NatArg): Leaf {
    match x
    case Lit(n) => Digits(n)
    case ToNat(v) => Variable(v)
  }

  function Leaves(t: Lean): seq<Leaf>
    decreases t, 1
  {
    match t
    case Num(n) => [Digits(n)]
    case Var(v) => [Variable(v)]
    case Neg(a) => Leaves(a)
    case NotP(a) => Leaves(a)
    case Bin(_, a, b) => Leaves(a) + Leaves(b)
    case PowNat(a, k) => Leaves(a) + [Digits(k)]
    case PowVar(base, v) => [Digits(base), Variable(v)]
    case Fun(_, a, b) => Leaves(a) + Leaves(b)
    case Factorial(x) => [ArgLeaf(x)]
    case Gcd(x, y) => [ArgLeaf(x), ArgLeaf(y)]
    case Junction(_, parts) => LeavesOfParts(parts)
  }

  function LeavesOfParts(ts: seq<Lean>): seq<Leaf>
    decreases ts, 0
  {
    if ts == [] then [] else Leaves(ts[0]) + LeavesOfParts(ts[1..])
  }

  lemma ArgLeaves(p: Claim)
    requires ArgOf(p).Some?
    ensures LeavesOf(p) == [ArgLeaf(ArgOf(p).value)]
  {
  }

  /** A rendered term keeps the order. */
  lemma {:induction false} TermKeepsOrder(p: Claim)
    requires Term(p).Some?
    ensures Leaves(Term(p).value) == LeavesOf(p)
    decreases p, 2
  {
    match p
    case Const(_) =>
    case Name(_) =>
    case Minus(a) => TermKeepsOrder(a);
    case Arithmetic(_, a, b) =>
      TermKeepsOrder(a);
      TermKeepsOrder(b);
    case Power(a, _) => TermKeepsOrder(a);
    case Divide(a, _) => TermKeepsOrder(a);
    case Modulo(a, d) => ModuloKeepsOrder(a, d);
    case Call(_, _) => CallKeepsOrder(p);
  }

  lemma {:induction false} ModuloKeepsOrder(a: Claim, d: Claim)
    requires Term(Modulo(a, d)).Some?
    ensures Leaves(Term(Modulo(a, d)).value) == LeavesOf(a) + LeavesOf(d)
    decreases a, 3
  {
    if a.Power? && a.a.Const? && a.k.Name? {
      assert LeavesOf(a.a) == [Digits(a.a.n)] && LeavesOf(a.k) == [Variable(a.k.id)];
    } else {
      TermKeepsOrder(a);
    }
  }

  lemma {:induction false} CallKeepsOrder(p: Claim)
    requires Term(p).Some? && p.Call?
    ensures Leaves(Term(p).value) == LeavesOf(p)
    decreases p, 1
  {
    var f, args := p.f, p.args;
    if (f == "min" || f == "max") && |args| >= 2 {
      TermKeepsOrder(args[0]);
      FoldKeepsOrder(if f == "min" then MinOf else MaxOf, Term(args[0]).value, args[1..]);
    } else if f == "factorial" {
      ArgLeaves(args[0]);
      assert LeavesOfAll(args[1..]) == [];
    } else {
      ArgLeaves(args[0]);
      ArgLeaves(args[1]);
      TwoLeaves(args);
    }
  }

  lemma TwoLeaves(args: seq<Claim>)
    requires |args| == 2
    ensures LeavesOfAll(args) == LeavesOf(args[0]) + LeavesOf(args[1])
  {
    assert args[1..][0] == args[1] && args[1..][1..] == [];
    assert LeavesOfAll(args[1..]) == LeavesOf(args[1]) + LeavesOfAll(args[1..][1..]);
  }

  lemma {:induction false} FoldKeepsOrder(f: LeanFun, acc: Lean, more: seq<Claim>)
    requires FoldTerms(f, acc, more).Some?
    ensures Leaves(FoldTerms(f, acc, more).value) == Leaves(acc) + LeavesOfAll(more)
    decreases more, 1
  {
    if more != [] {
      TermKeepsOrder(more[0]);
      FoldKeepsOrder(f, Fun(f, acc, Term(more[0]).value), more[1..]);
    }
  }

  lemma PartsOrOne(conj: bool, ts: seq<Lean>)
    requires ts != []
    ensures Leaves(if |ts| == 1 then ts[0] else Junction(conj, ts)) == LeavesOfParts(ts)
  {
    if |ts| == 1 {
      assert ts[1..] == [];
    }
  }

  lemma {:induction false} ClausesKeepOrder(before: Claim, links: seq<Link>)
    requires Clauses(before, links).Some?
    ensures LeavesOfParts(Clauses(before, links).value) == LeavesOfLinks(LeavesOf(before), links)
    ensures |Clauses(before, links).value| == |links|
    decreases links
  {
    if links != [] {
      TermKeepsOrder(before);
      TermKeepsOrder(links[0].term);
      ClausesKeepOrder(links[0].term, links[1..]);
      FirstPart(Bin(RelOf(links[0].op).value, Term(before).value, Term(links[0].term).value),
                Clauses(links[0].term, links[1..]).value);
    }
  }

  lemma FirstPart(t: Lean, ts: seq<Lean>)
    ensures LeavesOfParts([t] + ts) == Leaves(t) + LeavesOfParts(ts)
  {
    assert ([t] + ts)[1..] == ts;
  }

  lemma {:induction false} PropsKeepOrder(values: seq<Claim>)
    requires Props(values).Some?
    ensures LeavesOfParts(Props(values).value) == LeavesOfAll(values)
    ensures |Props(values).value| == |values|
    decreases values, 0
  {
    if values != [] {
      PropKeepsOrder(values[0]);
      PropsKeepOrder(values[1..]);
      FirstPart(Prop(values[0]).value, Props(values[1..]).value);
    }
  }

  /** And so does a rendered proposition. */
  lemma {:induction false} PropKeepsOrder(p: Claim)
    requires Prop(p).Some?
    ensures Leaves(Prop(p).value) == LeavesOf(p)
    decreases p, 2
  {
    match p
    case BoolOp(conj, values) =>
      PropsKeepOrder(values);
      PartsOrOne(conj, Props(values).value);
    case Not(a) => PropKeepsOrder(a);
    case Chain(first, links) =>
      if IsEquivalence(first, links) {
        EquivalenceKeepsOrder(p);
      } else {
        ClausesKeepOrder(first, links);
        PartsOrOne(true, Clauses(first, links).value);
      }
  }

  lemma {:induction false} EquivalenceKeepsOrder(p: Claim)
    requires Prop(p).Some? && IsBiconditional(p)
    ensures Leaves(Prop(p).value) == LeavesOf(p)
    decreases p, 1
  {
    var first, link := p.first, p.links[0];
    assert p.links == [link];
    PropKeepsOrder(first);
    PropKeepsOrder(link.term);
    assert LeavesOfLinks(LeavesOfLink(link), p.links[1..]) == [];
    assert LeavesOfLink(link) == LeavesOf(link.term);
  }
}
