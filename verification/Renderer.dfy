/** Rendered claims mean what the claims mean. */
module Renderer {
  // The renderer from claims to statements over the integers: what it writes reads back as a statement
  // that means the claim wherever the variables are not negative.

  import opened Collections
  import opened Arith
  import opened LeanText

  const MAX_POW := 8
  const MAX_TABLE_BOUND := 128

  datatype CmpOp = Less | AtMost | Greater | AtLeast | Same | NotSame | OtherCmp

  datatype TermOp = Sum | Difference | Times

  /** Parsed claims. Literals are not negative; Other stands for everything the renderer refuses. */
  datatype Claim =
    | Const(n: nat)
    | Name(id: string)
    | Minus(a: Claim)
    | Arithmetic(op: TermOp, a: Claim, b: Claim)
    | Power(a: Claim, k: Claim)
    | Divide(a: Claim, d: Claim)
    | Modulo(a: Claim, d: Claim)
    | Call(f: string, args: seq<Claim>)
    | Chain(first: Claim, links: seq<Link>)
    | BoolOp(conj: bool, values: seq<Claim>)
    | Not(a: Claim)
    | Other

  /** A comparison with the term before it. */
  datatype Link = Link(op: CmpOp, term: Claim)

  type Env = string -> int

  // ----- What claims mean

  function NatOf(i: int): nat {
    if i < 0 then 0 else i
  }

  function FactorialOf(n: nat): nat {
    if n == 0 then 1 else n * FactorialOf(n - 1)
  }

  function Pick(low: bool, x: int, y: int): int {
    if low then (if x < y then x else y) else if x > y then x else y
  }

  predicate Compares(op: CmpOp, x: int, y: int) {
    match op
    case Less => x < y
    case AtMost => x <= y
    case Greater => x > y
    case AtLeast => x >= y
    case Same => x == y
    case NotSame => x != y
    case OtherCmp => false
  }

  function Operate(op: TermOp, x: int, y: int): int {
    match op
    case Sum => x + y
    case Difference => x - y
    case Times => x * y
  }

  /** The value; booleans count as 1 or 0, and what has no value is 0: a power with a negative exponent,
      the factorial of a negative number, a division by zero. */
  function Eval(p: Claim, env: Env): int
    decreases p, 1
  {
    match p
    case Const(n) => n
    case Name(id) => env(id)
    case Minus(a) => -Eval(a, env)
    case Arithmetic(op, a, b) => Operate(op, Eval(a, env), Eval(b, env))
    case Power(a, k) => if Eval(k, env) < 0 then 0 else Arith.Power(Eval(a, env), Eval(k, env))
    case Divide(a, d) => if Eval(d, env) == 0 then 0 else FloorDiv(Eval(a, env), Eval(d, env))
    case Modulo(a, d) => if Eval(d, env) == 0 then 0 else FloorMod(Eval(a, env), Eval(d, env))
    case Call(f, args) =>
      if args == [] then 0
      else if f == "min" then Fold(true, Eval(args[0], env), args[1..], env)
      else if f == "max" then Fold(false, Eval(args[0], env), args[1..], env)
      else if f == "factorial" then (if Eval(args[0], env) < 0 then 0 else FactorialOf(Eval(args[0], env)))
      else if f == "gcd" && |args| == 2 then Arith.Gcd(Abs(Eval(args[0], env)), Abs(Eval(args[1], env)))
      else 0
    case Chain(first, links) => Truth(ChainHolds(Eval(first, env), links, env))
    case BoolOp(conj, values) =>
      Truth(if conj then forall i :: 0 <= i < |values| ==> Eval(values[i], env) != 0
            else exists i :: 0 <= i < |values| && Eval(values[i], env) != 0)
    case Not(a) => Truth(Eval(a, env) == 0)
    case Other => 0
  }

  /** The least or greatest of an accumulated value and more. */
  function Fold(low: bool, acc: int, more: seq<Claim>, env: Env): int
    decreases more, 0
  {
    if more == [] then acc else Fold(low, Pick(low, acc, Eval(more[0], env)), more[1..], env)
  }

  /** Each link compares its term with the one before. */
  predicate ChainHolds(before: int, links: seq<Link>, env: Env)
    decreases links, 0
  {
    links == [] || (Compares(links[0].op, before, LinkValue(links[0], env))
                    && ChainHolds(LinkValue(links[0], env), links[1..], env))
  }

  function LinkValue(l: Link, env: Env): int
    decreases l, 0
  {
    Eval(l.term, env)
  }

  predicate True(p: Claim, env: Env) {
    Eval(p, env) != 0
  }

  // ----- What statements mean

  function ArgValue(x: NatArg, env: Env): nat {
    match x
    case Lit(n) => n
    case ToNat(v) => NatOf(env(v))
  }

  /** The integer a term denotes; division is Euclidean. */
  function Value(t: Lean, env: Env): int {
    match t
    case Num(n) => n
    case Var(v) => env(v)
    case Neg(a) => -Value(a, env)
    case Bin(op, a, b) =>
      (match op
       case Plus => Value(a, env) + Value(b, env)
       case Minus => Value(a, env) - Value(b, env)
       case Times => Value(a, env) * Value(b, env)
       case _ => 0)
    case PowNat(a, k) => Arith.Power(Value(a, env), k)
    case PowVar(base, v) => Arith.Power(base, NatOf(env(v)))
    case Fun(f, a, b) =>
      var x, y := Value(a, env), Value(b, env);
      (match f
       case Emod => if y == 0 then x else x % y
       case Ediv => if y == 0 then 0 else x / y
       case MinOf => if x <= y then x else y
       case MaxOf => if x <= y then y else x)
    case Factorial(x) => FactorialOf(ArgValue(x, env))
    case Gcd(x, y) => Arith.Gcd(ArgValue(x, env), ArgValue(y, env))
    case _ => 0
  }

  predicate Holds(t: Lean, env: Env) {
    match t
    case Bin(op, a, b) =>
      (match op
       case Lt => Value(a, env) < Value(b, env)
       case Le => Value(a, env) <= Value(b, env)
       case Gt => Value(a, env) > Value(b, env)
       case Ge => Value(a, env) >= Value(b, env)
       case Equals => Value(a, env) == Value(b, env)
       case Differs => Value(a, env) != Value(b, env)
       case Iff => Holds(a, env) == Holds(b, env)
       case _ => false)
    case NotP(a) => !Holds(a, env)
    case Junction(conj, parts) =>
      if conj then forall i :: 0 <= i < |parts| ==> Holds(parts[i], env)
      else exists i :: 0 <= i < |parts| && Holds(parts[i], env)
    case _ => false
  }

  // ----- The renderer

  function ArgOf(p: Claim): Option<NatArg> {
    match p
    case Const(n) => if n > MAX_TABLE_BOUND then None else Some(Lit(n))
    case Name(id) => Some(ToNat(id))
    case _ => None
  }

  function OpOf(op: TermOp): LeanOp {
    match op
    case Sum => Plus
    case Difference => LeanOp.Minus
    case Times => LeanOp.Times
  }

  function RelOf(op: CmpOp): Option<LeanOp> {
    match op
    case Less => Some(Lt)
    case AtMost => Some(Le)
    case Greater => Some(Gt)
    case AtLeast => Some(Ge)
    case Same => Some(Equals)
    case NotSame => Some(Differs)
    case OtherCmp => None
  }

  /** An integer term, or a refusal. */
  function Term(p: Claim): Option<Lean>
    decreases p, 1
  {
    match p
    case Const(n) => Some(Num(n))
    case Name(id) => Some(Var(id))
    case Minus(a) => (match Term(a) case None => None case Some(t) => Some(Neg(t)))
    case Arithmetic(op, a, b) =>
      var t, u := Term(a), Term(b);
      if t.None? || u.None? then None else Some(Bin(OpOf(op), t.value, u.value))
    case Power(a, k) =>
      if !k.Const? || k.n > MAX_POW then None
      else (match Term(a) case None => None case Some(t) => Some(PowNat(t, k.n)))
    case Divide(a, d) =>
      if !d.Const? || d.n == 0 then None
      else (match Term(a) case None => None case Some(t) => Some(Fun(Ediv, t, Num(d.n))))
    case Modulo(a, d) =>
      if !d.Const? || d.n == 0 then None
      else if a.Power? && a.a.Const? && a.k.Name? then Some(Fun(Emod, PowVar(a.a.n, a.k.id), Num(d.n)))
      else (match Term(a) case None => None case Some(t) => Some(Fun(Emod, t, Num(d.n))))
    case Call(f, args) =>
      if (f == "min" || f == "max") && |args| >= 2 then
        (match Term(args[0])
         case None => None
         case Some(t) => FoldTerms(if f == "min" then MinOf else MaxOf, t, args[1..]))
      else if f == "factorial" && |args| == 1 then
        (match ArgOf(args[0]) case None => None case Some(x) => Some(Factorial(x)))
      else if f == "gcd" && |args| == 2 then
        var x, y := ArgOf(args[0]), ArgOf(args[1]);
        if x.None? || y.None? then None else Some(Gcd(x.value, y.value))
      else None
    case _ => None
  }

  function FoldTerms(f: LeanFun, acc: Lean, more: seq<Claim>): Option<Lean>
    decreases more, 0
  {
    if more == [] then Some(acc)
    else
      match Term(more[0])
      case None => None
      case Some(t) => FoldTerms(f, Fun(f, acc, t), more[1..])
  }

  predicate IsBool(p: Claim) {
    p.BoolOp? || p.Not? || p.Chain?
  }

  /** A proposition, or a refusal. */
  function Prop(p: Claim): Option<Lean>
    decreases p, 1
  {
    match p
    case BoolOp(conj, values) =>
      (match Props(values)
       case None => None
       case Some(ts) => if |ts| == 0 then None else Some(if |ts| == 1 then ts[0] else Junction(conj, ts)))
    case Not(a) => (match Prop(a) case None => None case Some(t) => Some(NotP(t)))
    case Chain(first, links) =>
      if |links| == 1 && (links[0].op.Same? || links[0].op.NotSame?) && IsBool(first) && IsBool(links[0].term) then
        var t, u := Prop(first), Prop(links[0].term);
        if t.None? || u.None? then None
        else if links[0].op.Same? then Some(Bin(Iff, t.value, u.value))
        else Some(NotP(Bin(Iff, t.value, u.value)))
      else
        (match Clauses(first, links)
         case None => None
         case Some(ts) => if |ts| == 0 then None else Some(if |ts| == 1 then ts[0] else Junction(true, ts)))
    case _ => None
  }

  function Props(values: seq<Claim>): Option<seq<Lean>>
    decreases values, 0
  {
    if values == [] then Some([])
    else
      var t, ts := Prop(values[0]), Props(values[1..]);
      if t.None? || ts.None? then None else Some([t.value] + ts.value)
  }

  function Clauses(before: Claim, links: seq<Link>): Option<seq<Lean>>
    decreases links
  {
    if links == [] then Some([])
    else
      var r, t, u, ts := RelOf(links[0].op), Term(before), Term(links[0].term), Clauses(links[0].term, links[1..]);
      if r.None? || t.None? || u.None? || ts.None? then None else Some([Bin(r.value, t.value, u.value)] + ts.value)
  }

  // ----- What is rendered

  /** An argument of a tabulated function: a variable or a small integer. */
  predicate TableArg(p: Claim) {
    p.Name? || (p.Const? && p.n <= MAX_TABLE_BOUND)
  }

  /** The terms inside the fragment: small constant powers, constant positive divisors, a variable power
      of a constant only under a modulus, and known calls. */
  predicate InFragment(p: Claim) {
    match p
    case Const(_) => true
    case Name(_) => true
    case Minus(a) => InFragment(a)
    case Arithmetic(_, a, b) => InFragment(a) && InFragment(b)
    case Power(a, k) => InFragment(a) && k.Const? && k.n <= MAX_POW
    case Divide(a, d) => InFragment(a) && d.Const? && d.n > 0
    case Modulo(a, d) => d.Const? && d.n > 0 && (InFragment(a) || (a.Power? && a.a.Const? && a.k.Name?))
    case Call(f, args) =>
      if f == "min" || f == "max" then |args| >= 2 && forall i :: 0 <= i < |args| ==> InFragment(args[i])
      else ((f == "factorial" && |args| == 1) || (f == "gcd" && |args| == 2))
           && forall i :: 0 <= i < |args| ==> TableArg(args[i])
    case _ => false
  }

  /** The propositions: comparisons of such terms, and what junctions, negations and biconditionals make
      of them. */
  predicate IsProposition(p: Claim)
    decreases p, 1
  {
    match p
    case BoolOp(_, values) => values != [] && forall i :: 0 <= i < |values| ==> IsProposition(values[i])
    case Not(a) => IsProposition(a)
    case Chain(first, links) =>
      if IsEquivalence(first, links) then IsProposition(first) && LinkIsProposition(links[0])
      else links != [] && InFragment(first) && forall i :: 0 <= i < |links| ==> LinkInFragment(links[i])
    case _ => false
  }

  predicate LinkIsProposition(l: Link)
    decreases l, 0
  {
    IsProposition(l.term)
  }

  predicate LinkInFragment(l: Link) {
    !l.op.OtherCmp? && InFragment(l.term)
  }

  /** A single equality or inequality between propositions. */
  predicate IsEquivalence(first: Claim, links: seq<Link>) {
    |links| == 1 && (links[0].op.Same? || links[0].op.NotSame?) && IsBool(first) && IsBool(links[0].term)
  }

  lemma {:induction false} TermWhen(p: Claim)
    ensures Term(p).Some? <==> InFragment(p)
    decreases p, 2
  {
    match p
    case Minus(a) => TermWhen(a);
    case Arithmetic(_, a, b) =>
      TermWhen(a);
      TermWhen(b);
    case Power(a, _) => TermWhen(a);
    case Divide(a, _) => TermWhen(a);
    case Modulo(a, _) => TermWhen(a);
    case Call(f, args) =>
      if args != [] {
        TermWhen(args[0]);
        if Term(args[0]).Some? {
          FoldWhen(if f == "min" then MinOf else MaxOf, Term(args[0]).value, args[1..]);
        }
        assert forall i :: 0 < i < |args| ==> args[i] == args[1..][i - 1];
      }
    case _ =>
  }

  lemma {:induction false} FoldWhen(f: LeanFun, acc: Lean, more: seq<Claim>)
    ensures FoldTerms(f, acc, more).Some? <==> forall i :: 0 <= i < |more| ==> InFragment(more[i])
    decreases more, 1
  {
    if more != [] {
      TermWhen(more[0]);
      if Term(more[0]).Some? {
        FoldWhen(f, Fun(f, acc, Term(more[0]).value), more[1..]);
      }
      assert forall i :: 0 < i < |more| ==> more[i] == more[1..][i - 1];
    }
  }

  lemma {:induction false} ClausesWhen(before: Claim, links: seq<Link>)
    ensures Clauses(before, links).Some? <==>
      links == [] || (InFragment(before) && forall i :: 0 <= i < |links| ==> LinkInFragment(links[i]))
    ensures Clauses(before, links).Some? ==> |Clauses(before, links).value| == |links|
    decreases links
  {
    if links != [] {
      TermWhen(before);
      TermWhen(links[0].term);
      ClausesWhen(links[0].term, links[1..]);
      assert forall i :: 0 < i < |links| ==> links[i] == links[1..][i - 1];
    }
  }

  lemma {:induction false} PropsWhen(values: seq<Claim>)
    ensures Props(values).Some? <==> forall i :: 0 <= i < |values| ==> IsProposition(values[i])
    ensures Props(values).Some? ==> |Props(values).value| == |values|
    decreases values, 0
  {
    if values != [] {
      PropWhen(values[0]);
      PropsWhen(values[1..]);
      assert forall i :: 0 < i < |values| ==> values[i] == values[1..][i - 1];
    }
  }

  /** A claim is rendered exactly if it is a proposition of the fragment. */
  lemma {:induction false} PropWhen(p: Claim)
    ensures Prop(p).Some? <==> IsProposition(p)
    decreases p, 1
  {
    match p
    case BoolOp(_, values) => PropsWhen(values);
    case Not(a) => PropWhen(a);
    case Chain(first, links) =>
      if IsEquivalence(first, links) {
        PropWhen(first);
        LinkWhen(links[0]);
      } else {
        ClausesWhen(first, links);
      }
    case _ =>
  }

  lemma {:induction false} LinkWhen(l: Link)
    ensures Prop(l.term).Some? <==> LinkIsProposition(l)
    decreases l, 0
  {
    PropWhen(l.term);
  }

  // ----- The renderer preserves meaning

  /** The variables of a claim; the names of functions are not among them. */
  function Names(p: Claim): set<string>
    decreases p, 1
  {
    match p
    case Const(_) => {}
    case Name(id) => {id}
    case Minus(a) => Names(a)
    case Arithmetic(_, a, b) => Names(a) + Names(b)
    case Power(a, k) => Names(a) + Names(k)
    case Divide(a, d) => Names(a) + Names(d)
    case Modulo(a, d) => Names(a) + Names(d)
    case Call(_, args) => NamesOf(args)
    case Chain(first, links) => Names(first) + NamesOfLinks(links)
    case BoolOp(_, values) => NamesOf(values)
    case Not(a) => Names(a)
    case Other => {}
  }

  function NamesOf(ps: seq<Claim>): set<string>
    decreases ps, 0
  {
    if ps == [] then {} else Names(ps[0]) + NamesOf(ps[1..])
  }

  function NamesOfLinks(links: seq<Link>): set<string>
    decreases links, 0
  {
    if links == [] then {} else NamesOfLink(links[0]) + NamesOfLinks(links[1..])
  }

  function NamesOfLink(l: Link): set<string>
    decreases l, 0
  {
    Names(l.term)
  }

  lemma {:induction false} NamesWithin(ps: seq<Claim>, i: nat)
    requires i < |ps|
    ensures Names(ps[i]) <= NamesOf(ps)
  {
    if i > 0 {
      NamesWithin(ps[1..], i - 1);
    }
  }

  lemma LinkNames(links: seq<Link>)
    requires links != []
    ensures Names(links[0].term) <= NamesOfLinks(links) && NamesOfLinks(links[1..]) <= NamesOfLinks(links)
  {
    assert NamesOfLink(links[0]) == Names(links[0].term);
  }

  /** None of the names is negative. */
  ghost predicate Box(env: Env, names: set<string>) {
    forall v :: v in names ==> env(v) >= 0
  }

  lemma OperateMeans(op: TermOp, t: Lean, u: Lean, env: Env)
    ensures Value(Bin(OpOf(op), t, u), env) == Operate(op, Value(t, env), Value(u, env))
  {
    match op
    case Sum => assert OpOf(op) == Plus;
    case Difference => assert OpOf(op) == LeanOp.Minus;
    case Times => assert OpOf(op) == LeanOp.Times;
  }

  lemma ArgMeans(p: Claim, env: Env)
    requires ArgOf(p).Some? && Box(env, Names(p))
    ensures ArgValue(ArgOf(p).value, env) == Eval(p, env) >= 0
  {
  }

  lemma DivMeans(x: int, d: nat)
    requires d > 0
    ensures FloorDiv(x, d) == x / d && FloorMod(x, d) == x % d
  {
  }

  /** A term has the value of the claim's term. */
  lemma {:induction false} TermMeans(p: Claim, env: Env)
    requires Term(p).Some? && Box(env, Names(p))
    ensures Value(Term(p).value, env) == Eval(p, env)
    decreases p, 1
  {
    match p
    case Const(_) =>
    case Name(_) =>
    case Minus(a) => TermMeans(a, env);
    case Arithmetic(op, a, b) =>
      TermMeans(a, env);
      TermMeans(b, env);
      OperateMeans(op, Term(a).value, Term(b).value, env);
    case Power(a, k) => TermMeans(a, env);
    case Divide(a, d) =>
      TermMeans(a, env);
      DivMeans(Eval(a, env), d.n);
    case Modulo(a, d) =>
      DivMeans(Eval(a, env), d.n);
      if a.Power? && a.a.Const? && a.k.Name? {
        assert Names(a.k) == {a.k.id} && Names(a) == Names(a.a) + Names(a.k);
        assert a.k.id in Names(a);
        assert Eval(a.a, env) == a.a.n && Eval(a.k, env) == env(a.k.id) >= 0;
      } else {
        TermMeans(a, env);
      }
    case Call(_, _) => CallMeans(p, env);
  }

  lemma {:induction false} CallMeans(p: Claim, env: Env)
    requires Term(p).Some? && Box(env, Names(p)) && p.Call?
    ensures Value(Term(p).value, env) == Eval(p, env)
    decreases p, 0
  {
    var f, args := p.f, p.args;
    NamesWithin(args, 0);
    if (f == "min" || f == "max") && |args| >= 2 {
      TermMeans(args[0], env);
      FoldMeans(f == "min", Term(args[0]).value, args[1..], env);
    } else if f == "factorial" {
      ArgMeans(args[0], env);
    } else {
      NamesWithin(args, 1);
      ArgMeans(args[0], env);
      ArgMeans(args[1], env);
    }
  }

  lemma {:induction false} FoldMeans(low: bool, acc: Lean, more: seq<Claim>, env: Env)
    requires FoldTerms(if low then MinOf else MaxOf, acc, more).Some? && Box(env, NamesOf(more))
    ensures Value(FoldTerms(if low then MinOf else MaxOf, acc, more).value, env)
         == Fold(low, Value(acc, env), more, env)
    decreases more, 1
  {
    if more != [] {
      TermMeans(more[0], env);
      FoldMeans(low, Fun(if low then MinOf else MaxOf, acc, Term(more[0]).value), more[1..], env);
    }
  }

  lemma RelMeans(op: CmpOp, t: Lean, u: Lean, env: Env)
    requires RelOf(op).Some?
    ensures Holds(Bin(RelOf(op).value, t, u), env) == Compares(op, Value(t, env), Value(u, env))
  {
  }

  predicate AllHold(ts: seq<Lean>, env: Env) {
    forall i :: 0 <= i < |ts| ==> Holds(ts[i], env)
  }

  lemma AllHoldFirst(t: Lean, ts: seq<Lean>, env: Env)
    ensures AllHold([t] + ts, env) <==> Holds(t, env) && AllHold(ts, env)
  {
    var all := [t] + ts;
    assert all[0] == t && forall i :: 0 <= i < |ts| ==> all[i + 1] == ts[i];
  }

  lemma {:induction false} ClausesMean(before: Claim, links: seq<Link>, env: Env)
    requires Clauses(before, links).Some? && Box(env, Names(before)) && Box(env, NamesOfLinks(links))
    ensures AllHold(Clauses(before, links).value, env) == ChainHolds(Eval(before, env), links, env)
    ensures |Clauses(before, links).value| == |links|
    decreases links
  {
    if links != [] {
      LinkNames(links);
      var t, u := Term(before).value, Term(links[0].term).value;
      TermMeans(before, env);
      TermMeans(links[0].term, env);
      RelMeans(links[0].op, t, u, env);
      ClausesMean(links[0].term, links[1..], env);
      AllHoldFirst(Bin(RelOf(links[0].op).value, t, u), Clauses(links[0].term, links[1..]).value, env);
    }
  }

  predicate SomeHolds(ts: seq<Lean>, env: Env) {
    exists i :: 0 <= i < |ts| && Holds(ts[i], env)
  }

  lemma {:induction false} PropsMean(values: seq<Claim>, env: Env)
    requires Props(values).Some? && Box(env, NamesOf(values))
    ensures |Props(values).value| == |values|
    ensures forall i :: 0 <= i < |values| ==> Holds(Props(values).value[i], env) == True(values[i], env)
    decreases values, 0
  {
    if values != [] {
      PropMeans(values[0], env);
      PropsMean(values[1..], env);
      var ts := Props(values[1..]).value;
      assert Props(values).value == [Prop(values[0]).value] + ts;
      assert forall i :: 0 < i < |values| ==> values[i] == values[1..][i - 1] && Props(values).value[i] == ts[i - 1];
    }
  }

  lemma BoolTrue(p: Claim, env: Env)
    requires IsBool(p)
    ensures Eval(p, env) == Truth(True(p, env))
  {
  }

  lemma ChainTrue(first: Claim, links: seq<Link>, env: Env)
    ensures True(Chain(first, links), env) == ChainHolds(Eval(first, env), links, env)
  {
  }

  lemma OneLink(x: int, op: CmpOp, term: Claim, links: seq<Link>, env: Env)
    requires links == [Link(op, term)]
    ensures ChainHolds(x, links, env) == Compares(op, x, Eval(term, env))
  {
    assert links[1..] == [];
  }

  lemma JunctionMeans(conj: bool, values: seq<Claim>, ts: seq<Lean>, env: Env)
    requires |ts| == |values| > 0 && forall i :: 0 <= i < |values| ==> Holds(ts[i], env) == True(values[i], env)
    ensures Holds(if |ts| == 1 then ts[0] else Junction(conj, ts), env) == True(BoolOp(conj, values), env)
  {
    if |ts| == 1 {
      assert Holds(ts[0], env) == True(values[0], env);
    } else if !conj {
      assert SomeHolds(ts, env) == exists i :: 0 <= i < |values| && True(values[i], env) by {
        if SomeHolds(ts, env) {
          var i :| 0 <= i < |ts| && Holds(ts[i], env);
          assert True(values[i], env);
        }
        if i :| 0 <= i < |values| && True(values[i], env) {
          assert Holds(ts[i], env);
        }
      }
    }
  }

  /** A rendered proposition holds exactly where the claim is true, as long as none of its variables is negative. */
  lemma {:induction false} PropMeans(p: Claim, env: Env)
    requires Prop(p).Some? && Box(env, Names(p))
    ensures Holds(Prop(p).value, env) <==> True(p, env)
    decreases p, 2
  {
    match p
    case BoolOp(conj, values) =>
      PropsMean(values, env);
      JunctionMeans(conj, values, Props(values).value, env);
    case Not(a) => PropMeans(a, env);
    case Chain(_, _) => ChainMeans(p, env);
  }

  predicate IsBiconditional(p: Claim) {
    p.Chain? && IsEquivalence(p.first, p.links)
  }

  lemma {:induction false} ChainMeans(p: Claim, env: Env)
    requires Prop(p).Some? && Box(env, Names(p)) && p.Chain?
    ensures Holds(Prop(p).value, env) <==> True(p, env)
    decreases p, 1
  {
    ChainTrue(p.first, p.links, env);
    if IsBiconditional(p) {
      BiconditionalMeans(p, env);
    } else {
      var ts := Clauses(p.first, p.links).value;
      ClausesMean(p.first, p.links, env);
      if |ts| == 1 {
        assert AllHold(ts, env) == Holds(ts[0], env);
      }
    }
  }

  lemma {:induction false} BiconditionalMeans(p: Claim, env: Env)
    requires Prop(p).Some? && Box(env, Names(p)) && IsBiconditional(p)
    ensures Holds(Prop(p).value, env) <==> ChainHolds(Eval(p.first, env), p.links, env)
    decreases p, 0
  {
    var first, link := p.first, p.links[0];
    assert p.links == [link];
    LinkNames(p.links);
    PropMeans(first, env);
    PropMeans(link.term, env);
    BoolTrue(first, env);
    BoolTrue(link.term, env);
    OneLink(Eval(first, env), link.op, link.term, p.links, env);
  }

  // ----- The text

  ghost predicate PlainNames(kw: Keywords, names: set<string>) {
    forall v :: v in names ==> !Reserved(kw, v)
  }

  lemma PlainBoth(kw: Keywords, a: set<string>, b: set<string>)
    ensures PlainNames(kw, a + b) <==> PlainNames(kw, a) && PlainNames(kw, b)
  {
  }

  lemma PlainOne(kw: Keywords, ps: seq<Claim>)
    requires ps != []
    ensures PlainNames(kw, NamesOf(ps)) <==> PlainNames(kw, Names(ps[0])) && PlainNames(kw, NamesOf(ps[1..]))
  {
    PlainBoth(kw, Names(ps[0]), NamesOf(ps[1..]));
  }

  lemma ArgProper(kw: Keywords, p: Claim)
    requires ArgOf(p).Some?
    ensures ProperArg(kw, ArgOf(p).value) <==> PlainNames(kw, Names(p))
  {
    if p.Name? {
      assert p.id in Names(p);
    }
  }

  lemma PowerProper(kw: Keywords, a: Claim)
    requires a.Power? && a.a.Const? && a.k.Name?
    ensures PlainNames(kw, Names(a)) <==> !Reserved(kw, a.k.id)
  {
    assert Names(a.k) == {a.k.id} && Names(a) == Names(a.a) + Names(a.k) && Names(a.a) == {};
    assert a.k.id in Names(a);
  }

  /** A term can be read back exactly if none of its variables is named like a function. */
  lemma {:induction false} TermProper(kw: Keywords, p: Claim)
    requires Term(p).Some?
    ensures Proper(kw, Term(p).value) <==> PlainNames(kw, Names(p))
    decreases p, 1
  {
    match p
    case Const(_) =>
    case Name(id) => assert id in Names(p);
    case Minus(a) => TermProper(kw, a);
    case Arithmetic(_, a, b) =>
      TermProper(kw, a);
      TermProper(kw, b);
      PlainBoth(kw, Names(a), Names(b));
    case Power(a, k) =>
      TermProper(kw, a);
      PlainBoth(kw, Names(a), Names(k));
    case Divide(a, d) =>
      TermProper(kw, a);
      PlainBoth(kw, Names(a), Names(d));
    case Modulo(a, d) =>
      PlainBoth(kw, Names(a), Names(d));
      if a.Power? && a.a.Const? && a.k.Name? {
        PowerProper(kw, a);
      } else {
        TermProper(kw, a);
      }
    case Call(_, _) => CallProper(kw, p);
  }

  lemma {:induction false} CallProper(kw: Keywords, p: Claim)
    requires Term(p).Some? && p.Call?
    ensures Proper(kw, Term(p).value) <==> PlainNames(kw, Names(p))
    decreases p, 0
  {
    var f, args := p.f, p.args;
    PlainOne(kw, args);
    if (f == "min" || f == "max") && |args| >= 2 {
      TermProper(kw, args[0]);
      FoldProper(kw, if f == "min" then MinOf else MaxOf, Term(args[0]).value, args[1..]);
    } else if f == "factorial" {
      ArgProper(kw, args[0]);
      assert NamesOf(args[1..]) == {};
    } else {
      PlainOne(kw, args[1..]);
      ArgProper(kw, args[0]);
      ArgProper(kw, args[1]);
      assert NamesOf(args[1..][1..]) == {};
    }
  }

  lemma {:induction false} FoldProper(kw: Keywords, f: LeanFun, acc: Lean, more: seq<Claim>)
    requires FoldTerms(f, acc, more).Some?
    ensures Proper(kw, FoldTerms(f, acc, more).value) <==> Proper(kw, acc) && PlainNames(kw, NamesOf(more))
    decreases more, 1
  {
    if more != [] {
      PlainOne(kw, more);
      TermProper(kw, more[0]);
      FoldProper(kw, f, Fun(f, acc, Term(more[0]).value), more[1..]);
    }
  }

  predicate AllProper(kw: Keywords, ts: seq<Lean>) {
    forall i :: 0 <= i < |ts| ==> Proper(kw, ts[i])
  }

  lemma AllProperFirst(kw: Keywords, t: Lean, ts: seq<Lean>)
    ensures AllProper(kw, [t] + ts) <==> Proper(kw, t) && AllProper(kw, ts)
  {
    var all := [t] + ts;
    assert all[0] == t && forall i :: 0 <= i < |ts| ==> all[i + 1] == ts[i];
  }

  lemma PlainLinks(kw: Keywords, links: seq<Link>)
    requires links != []
    ensures PlainNames(kw, NamesOfLinks(links)) <==>
      PlainNames(kw, Names(links[0].term)) && PlainNames(kw, NamesOfLinks(links[1..]))
  {
    assert NamesOfLink(links[0]) == Names(links[0].term);
    PlainBoth(kw, NamesOfLink(links[0]), NamesOfLinks(links[1..]));
  }

  lemma {:induction false} ClausesProper(kw: Keywords, before: Claim, links: seq<Link>)
    requires Clauses(before, links).Some?
    ensures |Clauses(before, links).value| == |links|
    ensures AllProper(kw, Clauses(before, links).value) <==>
      links == [] || PlainNames(kw, Names(before) + NamesOfLinks(links))
    decreases links
  {
    if links != [] {
      PlainLinks(kw, links);
      PlainBoth(kw, Names(before), NamesOfLinks(links));
      PlainBoth(kw, Names(links[0].term), NamesOfLinks(links[1..]));
      TermProper(kw, before);
      TermProper(kw, links[0].term);
      ClausesProper(kw, links[0].term, links[1..]);
      var t := Bin(RelOf(links[0].op).value, Term(before).value, Term(links[0].term).value);
      AllProperFirst(kw, t, Clauses(links[0].term, links[1..]).value);
    }
  }

  lemma {:induction false} PropsProper(kw: Keywords, values: seq<Claim>)
    requires Props(values).Some?
    ensures |Props(values).value| == |values|
    ensures AllProper(kw, Props(values).value) <==> PlainNames(kw, NamesOf(values))
    decreases values, 0
  {
    if values != [] {
      PlainOne(kw, values);
      PropProper(kw, values[0]);
      PropsProper(kw, values[1..]);
      AllProperFirst(kw, Prop(values[0]).value, Props(values[1..]).value);
    }
  }

  lemma BundleProper(kw: Keywords, conj: bool, ts: seq<Lean>)
    requires |ts| > 0
    ensures Proper(kw, if |ts| == 1 then ts[0] else Junction(conj, ts)) <==> AllProper(kw, ts)
  {
  }

  /** A rendered claim can be read back exactly if none of its variables is named like a function. */
  lemma {:induction false} PropProper(kw: Keywords, p: Claim)
    requires Prop(p).Some?
    ensures Proper(kw, Prop(p).value) <==> PlainNames(kw, Names(p))
    decreases p, 1
  {
    match p
    case BoolOp(conj, values) =>
      PropsProper(kw, values);
      BundleProper(kw, conj, Props(values).value);
    case Not(a) => PropProper(kw, a);
    case Chain(first, links) =>
      if |links| == 1 && (links[0].op.Same? || links[0].op.NotSame?) && IsBool(first) && IsBool(links[0].term) {
        PlainLinks(kw, links);
        assert NamesOfLinks(links[1..]) == {};
        PlainBoth(kw, Names(first), NamesOfLinks(links));
        PropProper(kw, first);
        PropProper(kw, links[0].term);
      } else {
        ClausesProper(kw, first, links);
        BundleProper(kw, true, Clauses(first, links).value);
      }
  }

  /** The text of a rendered claim. */
  function Render(kw: Keywords, p: Claim): seq<Token>
    requires Prop(p).Some?
  {
    Write(kw, Prop(p).value, [])
  }

  /** The text reads back as one statement only, and that statement holds exactly where the claim is
      true, as long as none of its variables is negative. */
  lemma RenderedMeans(kw: Keywords, p: Claim, env: Env)
    requires Prop(p).Some? && PlainNames(kw, Names(p)) && Box(env, Names(p))
    ensures exists t :: Read(Render(kw, p)) == Some((t, [])) && (Holds(t, env) <==> True(p, env))
  {
    PropProper(kw, p);
    ReadBack(kw, Prop(p).value, []);
    PropMeans(p, env);
  }

  /** The text reads back as what was rendered exactly if no variable is named like a function. */
  lemma ReadableIsPlain(kw: Keywords, p: Claim)
    requires Prop(p).Some?
    ensures Read(Render(kw, p)) == Some((Prop(p).value, [])) <==> PlainNames(kw, Names(p))
  {
    PropProper(kw, p);
    ReadableIsProper(kw, Prop(p).value);
  }

  // ----- The faithfulness pair

  /** Quantified over the variables, with the box as antecedents or conjuncts. */
  datatype Statement =
    | Always(names: set<string>, given: seq<Lean>, goal: Lean)
    | Sometimes(names: set<string>, parts: seq<Lean>)

  ghost predicate Valid(s: Statement) {
    match s
    case Always(names, given, goal) => forall env :: Box(env, names) && AllHold(given, env) ==> Holds(goal, env)
    case Sometimes(names, parts) => exists env :: Box(env, names) && AllHold(parts, env)
  }

  datatype Pair = Pair(coverage: Statement, property: Statement, existsClaim: Statement, existsBoth: Statement)

  ghost predicate PairValid(p: Pair) {
    Valid(p.coverage) && Valid(p.property) && Valid(p.existsClaim) && Valid(p.existsBoth)
  }

  lemma AlwaysAt(s: Statement, env: Env)
    requires s.Always? && Valid(s) && Box(env, s.names) && AllHold(s.given, env)
    ensures Holds(s.goal, env)
  {
  }

  function FaithfulnessPair(domain: Claim, property: Claim, established: Claim): Option<Pair> {
    var cd, cp, ed := Prop(domain), Prop(property), Prop(established);
    var names := Names(domain) + Names(property) + Names(established);
    if cd.None? || cp.None? || ed.None? then None
    else Some(Pair(
      Always(names, [cd.value], ed.value),
      Always(names, [ed.value, cd.value], cp.value),
      Sometimes(names, [cd.value]),
      Sometimes(names, [ed.value, cd.value])))
  }

  /** Wherever a is true in the box, b is. */
  ghost predicate Forces(names: set<string>, a: Claim, b: Claim) {
    forall env :: Box(env, names) && True(a, env) ==> True(b, env)
  }

  ghost predicate ForcesBoth(names: set<string>, a: Claim, b: Claim, c: Claim) {
    forall env :: Box(env, names) && True(a, env) && True(b, env) ==> True(c, env)
  }

  ghost predicate Somewhere(names: set<string>, a: Claim) {
    exists env :: Box(env, names) && True(a, env)
  }

  ghost predicate SomewhereBoth(names: set<string>, a: Claim, b: Claim) {
    exists env :: Box(env, names) && True(a, env) && True(b, env)
  }

  lemma OneHolds(p: Claim, env: Env)
    requires Prop(p).Some? && Box(env, Names(p))
    ensures AllHold([Prop(p).value], env) <==> True(p, env)
  {
    PropMeans(p, env);
    assert [Prop(p).value][0] == Prop(p).value;
  }

  lemma TwoHold(p: Claim, q: Claim, env: Env)
    requires Prop(p).Some? && Prop(q).Some? && Box(env, Names(p)) && Box(env, Names(q))
    ensures AllHold([Prop(p).value, Prop(q).value], env) <==> True(p, env) && True(q, env)
  {
    PropMeans(p, env);
    PropMeans(q, env);
    var ts := [Prop(p).value, Prop(q).value];
    assert ts[0] == Prop(p).value && ts[1] == Prop(q).value;
  }

  lemma UniversalsMean(domain: Claim, property: Claim, established: Claim, names: set<string>)
    requires FaithfulnessPair(domain, property, established).Some?
    requires names == Names(domain) + Names(property) + Names(established)
    ensures var p := FaithfulnessPair(domain, property, established).value;
      && (Valid(p.coverage) <==> Forces(names, domain, established))
      && (Valid(p.property) <==> ForcesBoth(names, established, domain, property))
  {
    forall env | Box(env, names)
      ensures AllHold([Prop(domain).value], env) <==> True(domain, env)
      ensures AllHold([Prop(established).value, Prop(domain).value], env)
        <==> True(established, env) && True(domain, env)
      ensures Holds(Prop(established).value, env) <==> True(established, env)
      ensures Holds(Prop(property).value, env) <==> True(property, env)
    {
      OneHolds(domain, env);
      TwoHold(established, domain, env);
      PropMeans(established, env);
      PropMeans(property, env);
    }
  }

  lemma ExistentialsMean(domain: Claim, property: Claim, established: Claim, names: set<string>)
    requires FaithfulnessPair(domain, property, established).Some?
    requires names == Names(domain) + Names(property) + Names(established)
    ensures var p := FaithfulnessPair(domain, property, established).value;
      && (Valid(p.existsClaim) <==> Somewhere(names, domain))
      && (Valid(p.existsBoth) <==> SomewhereBoth(names, established, domain))
  {
    forall env | Box(env, names)
      ensures AllHold([Prop(domain).value], env) <==> True(domain, env)
      ensures AllHold([Prop(established).value, Prop(domain).value], env)
        <==> True(established, env) && True(domain, env)
    {
      OneHolds(domain, env);
      TwoHold(established, domain, env);
    }
  }

  /** Each of the four statements says its own part about the claims, everywhere or somewhere in the box. */
  lemma StatementsMean(domain: Claim, property: Claim, established: Claim, names: set<string>)
    requires FaithfulnessPair(domain, property, established).Some?
    requires names == Names(domain) + Names(property) + Names(established)
    ensures var p := FaithfulnessPair(domain, property, established).value;
      && (Valid(p.coverage) <==> Forces(names, domain, established))
      && (Valid(p.property) <==> ForcesBoth(names, established, domain, property))
      && (Valid(p.existsClaim) <==> Somewhere(names, domain))
      && (Valid(p.existsBoth) <==> SomewhereBoth(names, established, domain))
  {
    UniversalsMean(domain, property, established, names);
    ExistentialsMean(domain, property, established, names);
  }

  /** The four statements together make the claim: its domain forces its property everywhere in the box,
      and it is not empty. */
  lemma PairIsFaithful(domain: Claim, property: Claim, established: Claim, env: Env)
    requires FaithfulnessPair(domain, property, established).Some?
    requires PairValid(FaithfulnessPair(domain, property, established).value)
    requires Box(env, Names(domain) + Names(property) + Names(established)) && True(domain, env)
    ensures True(established, env) && True(property, env)
  {
    PropMeans(domain, env);
    PropMeans(property, env);
    PropMeans(established, env);
    var p := FaithfulnessPair(domain, property, established).value;
    assert AllHold([Prop(domain).value], env);
    AlwaysAt(p.coverage, env);
    assert AllHold([Prop(established).value, Prop(domain).value], env);
    AlwaysAt(p.property, env);
  }

  lemma PairIsInhabited(domain: Claim, property: Claim, established: Claim) returns (env: Env)
    requires FaithfulnessPair(domain, property, established).Some?
    requires Valid(FaithfulnessPair(domain, property, established).value.existsBoth)
    ensures Box(env, Names(domain) + Names(property) + Names(established)) && True(domain, env)
    ensures True(established, env)
  {
    var ts := [Prop(established).value, Prop(domain).value];
    env :| Box(env, Names(domain) + Names(property) + Names(established)) && AllHold(ts, env);
    assert Holds(ts[0], env) && Holds(ts[1], env);
    PropMeans(domain, env);
    PropMeans(established, env);
  }

  /** Conversely, a claim with a true coverage and a non-empty domain makes all four statements true. */
  lemma FaithfulIsProvable(domain: Claim, property: Claim, established: Claim, witness0: Env)
    requires FaithfulnessPair(domain, property, established).Some?
    requires var names := Names(domain) + Names(property) + Names(established);
      && (forall env :: Box(env, names) && True(domain, env) ==> True(established, env) && True(property, env))
      && Box(witness0, names) && True(domain, witness0)
    ensures PairValid(FaithfulnessPair(domain, property, established).value)
  {
    var names := Names(domain) + Names(property) + Names(established);
    var cd, cp, ed := Prop(domain).value, Prop(property).value, Prop(established).value;
    forall env | Box(env, names)
      ensures Holds(cd, env) == True(domain, env) && Holds(cp, env) == True(property, env)
      ensures Holds(ed, env) == True(established, env)
    {
      PropMeans(domain, env);
      PropMeans(property, env);
      PropMeans(established, env);
    }
    forall env | Box(env, names) && AllHold([cd], env) ensures Holds(ed, env) {
      assert Holds([cd][0], env);
    }
    forall env | Box(env, names) && AllHold([ed, cd], env) ensures Holds(cp, env) {
      assert Holds([ed, cd][1], env);
    }
    assert AllHold([cd], witness0) && AllHold([ed, cd], witness0);
  }
}
