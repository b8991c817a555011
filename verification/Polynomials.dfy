/** Polynomials as tables with one entry a monomial: expanding a term of the claim language keeps its
    value at every assignment. */
module Polynomials {
  import opened Collections
  import opened Arith

  const MAX_DEGREE := 64
  const MAX_EXP := 8

  datatype CmpOp = Eq | NotEq | In | NotIn | OtherOp

  /** Parsed claims. Other stands for every construct the signatures do not look into: calls,
      floor division, chained comparisons, booleans. */
  datatype Node =
    | Const(value: int)
    | Name(id: string)
    | Neg(operand: Node)
    | Add(left: Node, right: Node)
    | Sub(left: Node, right: Node)
    | Mul(left: Node, right: Node)
    | Pow(left: Node, right: Node)
    | Mod(left: Node, right: Node)
    | Compare(op: CmpOp, left: Node, right: Node)
    | BoolOp(conj: bool, values: seq<Node>)
    | Not(operand: Node)
    | Literal(elts: seq<Node>)
    | Other(parts: seq<Node>)

  type Env = string -> int

  /** The value of a node; a boolean counts as 1 or 0, as in the language the claims are written in.
      A remainder takes the sign of its divisor; what has no value, or is not looked into, is 0. */
  function Eval(n: Node, env: Env): int {
    match n
    case Const(v) => v
    case Name(id) => env(id)
    case Neg(a) => -Eval(a, env)
    case Add(a, b) => Eval(a, env) + Eval(b, env)
    case Sub(a, b) => Eval(a, env) - Eval(b, env)
    case Mul(a, b) => Eval(a, env) * Eval(b, env)
    case Pow(a, k) => if k.Const? && k.value >= 0 then Power(Eval(a, env), k.value) else 0
    case Mod(a, b) => if Eval(b, env) == 0 then 0 else FloorMod(Eval(a, env), Eval(b, env))
    case Compare(op, a, b) =>
      Truth(match op
            case Eq => Eval(a, env) == Eval(b, env)
            case NotEq => Eval(a, env) != Eval(b, env)
            case In => b.Literal? && exists i :: 0 <= i < |b.elts| && Eval(b.elts[i], env) == Eval(a, env)
            case NotIn => b.Literal? && forall i :: 0 <= i < |b.elts| ==> Eval(b.elts[i], env) != Eval(a, env)
            case OtherOp => false)
    case BoolOp(conj, vs) =>
      Truth(if conj then forall i :: 0 <= i < |vs| ==> Eval(vs[i], env) != 0
            else exists i :: 0 <= i < |vs| && Eval(vs[i], env) != 0)
    case Not(a) => Truth(Eval(a, env) == 0)
    case Literal(_) => 0
    case Other(_) => 0
  }

  function Names(n: Node): set<string> {
    match n
    case Const(_) => {}
    case Name(id) => {id}
    case Neg(a) => Names(a)
    case Add(a, b) => Names(a) + Names(b)
    case Sub(a, b) => Names(a) + Names(b)
    case Mul(a, b) => Names(a) + Names(b)
    case Pow(a, b) => Names(a) + Names(b)
    case Mod(a, b) => Names(a) + Names(b)
    case Compare(_, a, b) => Names(a) + Names(b)
    case BoolOp(_, vs) => set i, x | 0 <= i < |vs| && x in Names(vs[i]) :: x
    case Not(a) => Names(a)
    case Literal(vs) => set i, x | 0 <= i < |vs| && x in Names(vs[i]) :: x
    case Other(vs) => set i, x | 0 <= i < |vs| && x in Names(vs[i]) :: x
  }

  // ----- Polynomials as insertion-ordered tables from monomials to coefficients

  /** A monomial: each variable as often as its exponent. */
  type Mono = multiset<string>

  datatype Term = Term(mono: Mono, coeff: int)

  type Poly = seq<Term>

  /** The coefficient of a monomial, zero where it is absent. */
  function CoeffOf(p: Poly, mono: Mono): int {
    if p == [] then 0 else (if p[0].mono == mono then p[0].coeff else 0) + CoeffOf(p[1..], mono)
  }

  /** Add to the entry of a monomial, or append one. */
  function AddTerm(p: Poly, mono: Mono, c: int): (r: Poly)
    ensures r != []
  {
    if p == [] then [Term(mono, c)]
    else if p[0].mono == mono then [Term(mono, p[0].coeff + c)] + p[1..]
    else [p[0]] + AddTerm(p[1..], mono, c)
  }

  function AddPoly(a: Poly, b: Poly): Poly
    decreases |b|
  {
    if b == [] then a else AddPoly(AddTerm(a, b[0].mono, b[0].coeff), b[1..])
  }

  function NegPoly(a: Poly): Poly {
    if a == [] then [] else [Term(a[0].mono, -a[0].coeff)] + NegPoly(a[1..])
  }

  /** Accumulate t times b, unless a degree exceeds the cap. */
  function MulTerm(acc: Poly, t: Term, b: Poly): Option<Poly>
    decreases |b|
  {
    if b == [] then Some(acc)
    else if |t.mono + b[0].mono| > MAX_DEGREE then None
    else MulTerm(AddTerm(acc, t.mono + b[0].mono, t.coeff * b[0].coeff), t, b[1..])
  }

  function MulInto(acc: Poly, a: Poly, b: Poly): Option<Poly>
    decreases |a|
  {
    if a == [] then Some(acc)
    else
      match MulTerm(acc, a[0], b)
      case None => None
      case Some(next) => MulInto(next, a[1..], b)
  }

  function MulPoly(a: Poly, b: Poly): Option<Poly> {
    MulInto([], a, b)
  }

  const ONE: Poly := [Term(multiset{}, 1)]

  function PowPoly(base: Poly, k: nat): Option<Poly> {
    if k == 0 then Some(ONE)
    else
      match PowPoly(base, k - 1)
      case None => None
      case Some(p) => MulPoly(p, base)
  }

  function Expand(n: Node): Option<Poly> {
    match n
    case Const(v) => Some([Term(multiset{}, v)])
    case Name(id) => Some([Term(multiset{id}, 1)])
    case Neg(a) => (match Expand(a) case None => None case Some(p) => Some(NegPoly(p)))
    case Add(a, b) =>
      var p, q := Expand(a), Expand(b);
      if p.None? || q.None? then None else Some(AddPoly(p.value, q.value))
    case Sub(a, b) =>
      var p, q := Expand(a), Expand(b);
      if p.None? || q.None? then None else Some(AddPoly(p.value, NegPoly(q.value)))
    case Mul(a, b) =>
      var p, q := Expand(a), Expand(b);
      if p.None? || q.None? then None else MulPoly(p.value, q.value)
    case Pow(a, k) =>
      if !(k.Const? && 0 <= k.value <= MAX_EXP) then None
      else (match Expand(a) case None => None case Some(p) => PowPoly(p, k.value))
    case _ => None
  }

  // ----- Coefficients of sums

  lemma {:induction false} AddTermCoeff(p: Poly, at: Mono, c: int, mono: Mono)
    ensures CoeffOf(AddTerm(p, at, c), mono) == CoeffOf(p, mono) + if at == mono then c else 0
  {
    if p != [] && p[0].mono != at {
      AddTermCoeff(p[1..], at, c, mono);
    }
  }

  lemma {:induction false} AddPolyCoeff(a: Poly, b: Poly, mono: Mono)
    ensures CoeffOf(AddPoly(a, b), mono) == CoeffOf(a, mono) + CoeffOf(b, mono)
    decreases |b|
  {
    if b != [] {
      AddTermCoeff(a, b[0].mono, b[0].coeff, mono);
      AddPolyCoeff(AddTerm(a, b[0].mono, b[0].coeff), b[1..], mono);
    }
  }

  lemma {:induction false} NegPolyCoeff(a: Poly, mono: Mono)
    ensures CoeffOf(NegPoly(a), mono) == -CoeffOf(a, mono)
  {
    if a != [] {
      NegPolyCoeff(a[1..], mono);
    }
  }

  // ----- Values of monomials and polynomials

  ghost function Pick<T>(s: multiset<T>): (x: T)
    requires s != multiset{}
    ensures x in s
  {
    var x :| x in s; x
  }

  /** The product of the values of the variables, whatever the order they are taken in. */
  ghost function MonoValue(mono: Mono, env: Env): int
    decreases |mono|
  {
    if mono == multiset{} then 1
    else var x := Pick(mono); env(x) * MonoValue(mono - multiset{x}, env)
  }

  lemma {:induction false} MonoTakeOut(mono: Mono, env: Env, x: string)
    requires x in mono
    ensures MonoValue(mono, env) == env(x) * MonoValue(mono - multiset{x}, env)
    decreases |mono|
  {
    var y := Pick(mono);
    if y != x {
      var rest := mono - multiset{y};
      MonoTakeOut(rest, env, x);
      MonoTakeOut(mono - multiset{x}, env, y);
      assert rest - multiset{x} == (mono - multiset{x}) - multiset{y};
      ExchangeFactors(env(x), env(y), MonoValue(rest - multiset{x}, env));
    }
  }

  lemma ExchangeFactors(a: int, b: int, c: int)
    ensures a * (b * c) == b * (a * c)
  {
  }

  lemma {:induction false} MonoProduct(a: Mono, b: Mono, env: Env)
    ensures MonoValue(a + b, env) == MonoValue(a, env) * MonoValue(b, env)
    decreases |a|
  {
    if a == multiset{} {
      assert a + b == b;
    } else {
      var x := Pick(a);
      var rest := a - multiset{x};
      MonoTakeOut(a + b, env, x);
      MonoTakeOut(a, env, x);
      assert (a + b) - multiset{x} == rest + b;
      MonoProduct(rest, b, env);
      AssociateFactors(env(x), MonoValue(rest, env), MonoValue(b, env));
    }
  }

  lemma AssociateFactors(a: int, b: int, c: int)
    ensures (a * b) * c == a * (b * c)
  {
  }

  lemma MonoOne(id: string, env: Env)
    ensures MonoValue(multiset{id}, env) == env(id)
  {
    MonoTakeOut(multiset{id}, env, id);
    assert multiset{id} - multiset{id} == multiset{};
  }

  ghost function Value(p: Poly, env: Env): int {
    if p == [] then 0 else p[0].coeff * MonoValue(p[0].mono, env) + Value(p[1..], env)
  }

  lemma {:induction false} AddTermValue(p: Poly, mono: Mono, c: int, env: Env)
    ensures Value(AddTerm(p, mono, c), env) == Value(p, env) + c * MonoValue(mono, env)
  {
    if p == [] {
    } else if p[0].mono == mono {
      Distribute(MonoValue(mono, env), p[0].coeff, c);
    } else {
      AddTermValue(p[1..], mono, c, env);
    }
  }

  lemma {:induction false} AddPolyValue(a: Poly, b: Poly, env: Env)
    ensures Value(AddPoly(a, b), env) == Value(a, env) + Value(b, env)
    decreases |b|
  {
    if b != [] {
      AddTermValue(a, b[0].mono, b[0].coeff, env);
      AddPolyValue(AddTerm(a, b[0].mono, b[0].coeff), b[1..], env);
    }
  }

  lemma {:induction false} NegPolyValue(a: Poly, env: Env)
    ensures Value(NegPoly(a), env) == -Value(a, env)
  {
    if a != [] {
      NegPolyValue(a[1..], env);
      assert (-a[0].coeff) * MonoValue(a[0].mono, env) == -(a[0].coeff * MonoValue(a[0].mono, env));
    }
  }

  lemma TermTimesPoly(c: int, mono: int, d: int, other: int, both: int, rest: int, b: int, acc: int, next: int)
    requires both == mono * other && b == d * other + rest && next == acc + (c * d) * both
    ensures next + (c * mono) * rest == acc + (c * mono) * b
  {
    Distribute(c * mono, d * other, rest);
    assert (c * d) * (mono * other) == (c * mono) * (d * other);
  }

  lemma {:induction false} MulTermValue(acc: Poly, t: Term, b: Poly, env: Env)
    requires MulTerm(acc, t, b).Some?
    ensures Value(MulTerm(acc, t, b).value, env)
         == Value(acc, env) + (t.coeff * MonoValue(t.mono, env)) * Value(b, env)
    decreases |b|
  {
    if b != [] {
      var next := AddTerm(acc, t.mono + b[0].mono, t.coeff * b[0].coeff);
      MulTermValue(next, t, b[1..], env);
      AddTermValue(acc, t.mono + b[0].mono, t.coeff * b[0].coeff, env);
      MonoProduct(t.mono, b[0].mono, env);
      TermTimesPoly(t.coeff, MonoValue(t.mono, env), b[0].coeff, MonoValue(b[0].mono, env),
                    MonoValue(t.mono + b[0].mono, env), Value(b[1..], env), Value(b, env), Value(acc, env),
                     Value(next, env));
    }
  }

  lemma SumTimes(x: int, y: int, z: int)
    ensures x * z + y * z == (x + y) * z
  {
  }

  lemma {:induction false} MulIntoValue(acc: Poly, a: Poly, b: Poly, env: Env)
    requires MulInto(acc, a, b).Some?
    ensures Value(MulInto(acc, a, b).value, env) == Value(acc, env) + Value(a, env) * Value(b, env)
    decreases |a|
  {
    if a != [] {
      var next := MulTerm(acc, a[0], b).value;
      MulTermValue(acc, a[0], b, env);
      MulIntoValue(next, a[1..], b, env);
      SumTimes(a[0].coeff * MonoValue(a[0].mono, env), Value(a[1..], env), Value(b, env));
    }
  }

  lemma OneValue(env: Env)
    ensures Value(ONE, env) == 1
  {
    assert ONE[1..] == [];
  }

  lemma {:induction false} PowPolyValue(base: Poly, k: nat, env: Env)
    requires PowPoly(base, k).Some?
    ensures Value(PowPoly(base, k).value, env) == Power(Value(base, env), k)
  {
    if k == 0 {
      OneValue(env);
    } else {
      PowPolyValue(base, k - 1, env);
      MulIntoValue([], PowPoly(base, k - 1).value, base, env);
    }
  }

  /** Expansion preserves the value of every term it accepts, at every assignment. */
  lemma {:induction false} ExpandValue(n: Node, env: Env)
    requires Expand(n).Some?
    ensures Value(Expand(n).value, env) == Eval(n, env)
  {
    match n
    case Const(v) => assert Expand(n).value[1..] == [];
    case Name(id) =>
      MonoOne(id, env);
      assert Expand(n).value[1..] == [];
    case Neg(a) =>
      ExpandValue(a, env);
      NegPolyValue(Expand(a).value, env);
    case Add(a, b) =>
      ExpandValue(a, env);
      ExpandValue(b, env);
      AddPolyValue(Expand(a).value, Expand(b).value, env);
    case Sub(a, b) =>
      ExpandValue(a, env);
      ExpandValue(b, env);
      NegPolyValue(Expand(b).value, env);
      AddPolyValue(Expand(a).value, NegPoly(Expand(b).value), env);
    case Mul(a, b) =>
      ExpandValue(a, env);
      ExpandValue(b, env);
      MulIntoValue([], Expand(a).value, Expand(b).value, env);
    case Pow(a, k) =>
      ExpandValue(a, env);
      PowPolyValue(Expand(a).value, k.value, env);
  }

  // ----- Single terms

  function One(mono: Mono, c: int): Poly {
    [Term(mono, c)]
  }

  lemma TimesOne(a: Mono, c: int, b: Mono, d: int)
    requires |a + b| <= MAX_DEGREE
    ensures MulPoly(One(a, c), One(b, d)) == Some(One(a + b, c * d))
  {
    var t := Term(a, c);
    assert One(b, d)[1..] == [] && One(a, c)[1..] == [];
    assert MulTerm([], t, One(b, d)) == MulTerm(AddTerm([], a + b, c * d), t, []);
    assert MulInto([], One(a, c), One(b, d)) == MulInto(One(a + b, c * d), [], One(b, d));
  }

  // ----- Invariants of the tables: one entry a monomial, and no variable but the term's own

  ghost predicate Table(p: Poly, names: set<string>) {
    && (forall i, j :: 0 <= i < j < |p| ==> p[i].mono != p[j].mono)
    && (forall i :: 0 <= i < |p| ==> Over(p[i].mono, names))
  }

  ghost predicate Over(mono: Mono, names: set<string>) {
    forall x :: x in mono ==> x in names
  }

  lemma {:induction false} AddTermKeys(p: Poly, mono: Mono, c: int, i: nat)
    requires i < |AddTerm(p, mono, c)|
    ensures AddTerm(p, mono, c)[i].mono == (if i < |p| then p[i].mono else mono)
    ensures i >= |p| ==> i == |p| && forall j :: 0 <= j < |p| ==> p[j].mono != mono
  {
    if p != [] && p[0].mono != mono && i > 0 {
      AddTermKeys(p[1..], mono, c, i - 1);
      assert i - 1 >= |p[1..]| ==> forall j :: 0 < j < |p| ==> p[j].mono == p[1..][j - 1].mono;
    }
  }

  lemma AddTermTable(p: Poly, mono: Mono, c: int, names: set<string>)
    requires Table(p, names) && Over(mono, names)
    ensures Table(AddTerm(p, mono, c), names)
  {
    var r := AddTerm(p, mono, c);
    forall i | 0 <= i < |r| ensures Over(r[i].mono, names) {
      AddTermKeys(p, mono, c, i);
    }
    forall i, j | 0 <= i < j < |r| ensures r[i].mono != r[j].mono {
      AddTermKeys(p, mono, c, i);
      AddTermKeys(p, mono, c, j);
    }
  }

  lemma {:induction false} AddPolyTable(a: Poly, b: Poly, names: set<string>)
    requires Table(a, names) && Table(b, names)
    ensures Table(AddPoly(a, b), names)
    decreases |b|
  {
    if b != [] {
      AddTermTable(a, b[0].mono, b[0].coeff, names);
      AddPolyTable(AddTerm(a, b[0].mono, b[0].coeff), b[1..], names);
    }
  }

  lemma {:induction false} NegPolyTable(a: Poly, names: set<string>)
    requires Table(a, names)
    ensures Table(NegPoly(a), names)
  {
    NegPolyKeys(a);
  }

  lemma {:induction false} NegPolyKeys(a: Poly)
    ensures |NegPoly(a)| == |a| && forall i :: 0 <= i < |a| ==> NegPoly(a)[i].mono == a[i].mono
  {
    if a != [] {
      NegPolyKeys(a[1..]);
    }
  }

  lemma {:induction false} MulTermTable(acc: Poly, t: Term, b: Poly, names: set<string>)
    requires Table(acc, names) && Over(t.mono, names) && Table(b, names) && MulTerm(acc, t, b).Some?
    ensures Table(MulTerm(acc, t, b).value, names)
    decreases |b|
  {
    if b != [] {
      AddTermTable(acc, t.mono + b[0].mono, t.coeff * b[0].coeff, names);
      MulTermTable(AddTerm(acc, t.mono + b[0].mono, t.coeff * b[0].coeff), t, b[1..], names);
    }
  }

  lemma {:induction false} MulIntoTable(acc: Poly, a: Poly, b: Poly, names: set<string>)
    requires Table(acc, names) && Table(a, names) && Table(b, names) && MulInto(acc, a, b).Some?
    ensures Table(MulInto(acc, a, b).value, names)
    decreases |a|
  {
    if a != [] {
      MulTermTable(acc, a[0], b, names);
      MulIntoTable(MulTerm(acc, a[0], b).value, a[1..], b, names);
    }
  }

  lemma {:induction false} PowPolyTable(base: Poly, k: nat, names: set<string>)
    requires Table(base, names) && PowPoly(base, k).Some?
    ensures Table(PowPoly(base, k).value, names)
  {
    if k > 0 {
      PowPolyTable(base, k - 1, names);
      MulIntoTable([], PowPoly(base, k - 1).value, base, names);
    }
  }

  lemma {:induction false} ExpandTable(n: Node, names: set<string>)
    requires Expand(n).Some? && Names(n) <= names
    ensures Table(Expand(n).value, names)
  {
    match n
    case Const(_) =>
    case Name(_) =>
    case Neg(a) =>
      ExpandTable(a, names);
      NegPolyTable(Expand(a).value, names);
    case Add(a, b) =>
      ExpandTable(a, names);
      ExpandTable(b, names);
      AddPolyTable(Expand(a).value, Expand(b).value, names);
    case Sub(a, b) =>
      ExpandTable(a, names);
      ExpandTable(b, names);
      NegPolyTable(Expand(b).value, names);
      AddPolyTable(Expand(a).value, NegPoly(Expand(b).value), names);
    case Mul(a, b) =>
      ExpandTable(a, names);
      ExpandTable(b, names);
      MulIntoTable([], Expand(a).value, Expand(b).value, names);
    case Pow(a, k) =>
      ExpandTable(a, names);
      PowPolyTable(Expand(a).value, k.value, names);
  }
}
