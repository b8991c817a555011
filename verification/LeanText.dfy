/** The fully parenthesised statements the renderer writes, as token lists, and a reader for them: the
    text determines the statement. */
module LeanText {
  import opened Collections

  datatype LeanOp = Plus | Minus | Times | Lt | Le | Gt | Ge | Equals | Differs | Iff

  datatype LeanFun = Emod | Ediv | MinOf | MaxOf

  /** A natural number literal, or a variable through toNat. */
  datatype NatArg = Lit(n: nat) | ToNat(v: string)

  datatype Lean =
    | Num(n: nat)
    | Var(v: string)
    | Neg(a: Lean)
    | Bin(op: LeanOp, a: Lean, b: Lean)
    | PowNat(a: Lean, k: nat)
    | PowVar(base: nat, v: string)
    | Fun(f: LeanFun, a: Lean, b: Lean)
    | Factorial(x: NatArg)
    | Gcd(x: NatArg, y: NatArg)
    | NotP(a: Lean)
    | Junction(conj: bool, parts: seq<Lean>)

  datatype Token =
    | LPar
    | RPar
    | Number(n: nat)
    | Word(text: string)
    | FunWord(f: LeanFun)
    | FactorialWord
    | GcdWord
    | Keyword(text: string)
    | Op(op: LeanOp)
    | NotSign
    | AndSign
    | OrSign
    | Caret
    | Colon
    | NatSort
    | IntSort
    | DotToNat

  /** Of the target language; what follows holds of any set of them. */
  type Keywords = set<string>

  /** The token a word is read as. No variables are the names of the functions, the keywords, and the first
      halves of the functions' names, which a variable of that name would capture. */
  function TokenOf(kw: Keywords, w: string): Token {
    if w == "Int.emod" then FunWord(Emod)
    else if w == "Int.ediv" then FunWord(Ediv)
    else if w == "min" then FunWord(MinOf)
    else if w == "max" then FunWord(MaxOf)
    else if w == "Nat.factorial" then FactorialWord
    else if w == "Nat.gcd" then GcdWord
    else if w == "Int" || w == "Nat" || w in kw then Keyword(w)
    else Word(w)
  }

  predicate Reserved(kw: Keywords, w: string) {
    TokenOf(kw, w) != Word(w)
  }

  function Connective(conj: bool): Token {
    if conj then AndSign else OrSign
  }

  // ----- Writing; the tokens of what follows come last

  function WriteArg(kw: Keywords, x: NatArg, rest: seq<Token>): seq<Token> {
    match x
    case Lit(n) => [Number(n)] + rest
    case ToNat(v) => [LPar, LPar, TokenOf(kw, v), RPar, DotToNat, RPar] + rest
  }

  function Write(kw: Keywords, t: Lean, rest: seq<Token>): seq<Token>
    decreases t, 0
  {
    match t
    case Num(n) => [Number(n)] + rest
    case Var(v) => [TokenOf(kw, v)] + rest
    case Neg(a) => [LPar, Op(Minus)] + Write(kw, a, [RPar] + rest)
    case Bin(op, a, b) => [LPar] + Write(kw, a, [Op(op)] + Write(kw, b, [RPar] + rest))
    case PowNat(a, k) => [LPar] + Write(kw, a, [Caret, LPar, Number(k), Colon, NatSort, RPar, RPar] + rest)
    case PowVar(base, v) =>
      [LPar, LPar, Number(base), Colon, IntSort, RPar, Caret, LPar, TokenOf(kw, v), RPar, DotToNat, RPar] + rest
    case Fun(f, a, b) => [LPar, FunWord(f)] + Write(kw, a, Write(kw, b, [RPar] + rest))
    case Factorial(x) =>
      [LPar, LPar, FactorialWord] + WriteArg(kw, x, [Colon, NatSort, RPar, Colon, IntSort, RPar] + rest)
    case Gcd(x, y) =>
      [LPar, LPar, GcdWord] + WriteArg(kw, x, WriteArg(kw, y, [Colon, NatSort, RPar, Colon, IntSort, RPar] + rest))
    case NotP(a) => [LPar, NotSign] + Write(kw, a, [RPar] + rest)
    case Junction(conj, parts) =>
      if parts == [] then rest else [LPar] + Write(kw, parts[0], WriteMore(kw, conj, parts[1..], [RPar] + rest))
  }

  function WriteMore(kw: Keywords, conj: bool, parts: seq<Lean>, rest: seq<Token>): seq<Token>
    decreases parts, 1
  {
    if parts == [] then rest else [Connective(conj)] + Write(kw, parts[0], WriteMore(kw, conj, parts[1..], rest))
  }

  // ----- Reading

  type Parse<T> = Option<(T, seq<Token>)>

  /** The tokens after a fixed list of tokens. */
  function After(ts: seq<Token>, fixed: seq<Token>): Option<seq<Token>> {
    if fixed <= ts then Some(ts[|fixed|..]) else None
  }

  function ReadArg(ts: seq<Token>): (r: Parse<NatArg>)
    ensures r.Some? ==> |r.value.1| < |ts|
  {
    if ts != [] && ts[0].Number? then Some((Lit(ts[0].n), ts[1..]))
    else if |ts| >= 6 && ts[0].LPar? && ts[1].LPar? && ts[2].Word? && ts[3].RPar? && ts[4].DotToNat? && ts[5].RPar? then
      Some((ToNat(ts[2].text), ts[6..]))
    else None
  }

  /** What the first tokens after an opening parenthesis announce. */
  datatype Form = Negative | Negated | Applied(f: LeanFun) | AFactorial | AGcd | VarPower | Compound

  function FormOf(ts: seq<Token>): Form {
    if ts == [] then Compound
    else if ts[0] == Op(Minus) then Negative
    else if ts[0].NotSign? then Negated
    else if ts[0].FunWord? then Applied(ts[0].f)
    else if |ts| >= 3 && ts[0].LPar? && ts[1] == FactorialWord then AFactorial
    else if |ts| >= 3 && ts[0].LPar? && ts[1] == GcdWord then AGcd
    else if |ts| >= 3 && ts[0].LPar? && ts[1].Number? && ts[2].Colon? then VarPower
    else Compound
  }

  function ReadVarPower(ts: seq<Token>): (r: Parse<Lean>)
    ensures r.Some? ==> |r.value.1| < |ts|
  {
    if |ts| >= 11 && ts[0].LPar? && ts[1].Number? && ts[2].Colon? && ts[3].IntSort? && ts[4].RPar? && ts[5].Caret?
       && ts[6].LPar? && ts[7].Word? && ts[8].RPar? && ts[9].DotToNat? && ts[10].RPar? then
      Some((PowVar(ts[1].n, ts[7].text), ts[11..]))
    else None
  }

  const CAST: seq<Token> := [Colon, NatSort, RPar, Colon, IntSort, RPar]

  function ReadFactorial(ts: seq<Token>): (r: Parse<Lean>)
    ensures r.Some? ==> |r.value.1| < |ts|
  {
    match ReadArg(ts)
    case None => None
    case Some((x, more)) =>
      match After(more, CAST)
      case None => None
      case Some(rest) => Some((Factorial(x), rest))
  }

  function ReadGcd(ts: seq<Token>): (r: Parse<Lean>)
    ensures r.Some? ==> |r.value.1| < |ts|
  {
    match ReadArg(ts)
    case None => None
    case Some((x, more)) =>
      match ReadArg(more)
      case None => None
      case Some((y, again)) =>
        match After(again, CAST)
        case None => None
        case Some(rest) => Some((Gcd(x, y), rest))
  }

  /** One statement or term, and the tokens after it. */
  function Read(ts: seq<Token>): (r: Parse<Lean>)
    ensures r.Some? ==> |r.value.1| < |ts|
    decreases |ts|, 1
  {
    if ts == [] then None
    else
      match ts[0]
      case Number(n) => Some((Num(n), ts[1..]))
      case Word(v) => Some((Var(v), ts[1..]))
      case LPar => ReadForm(ts[1..])
      case _ => None
  }

  /** The same behind an opening parenthesis. */
  function ReadForm(ts: seq<Token>): (r: Parse<Lean>)
    ensures r.Some? ==> |r.value.1| < |ts|
    decreases |ts|, 3
  {
    match FormOf(ts)
    case Negative =>
      (match Read(ts[1..])
       case Some((a, rest)) => if rest != [] && rest[0].RPar? then Some((Neg(a), rest[1..])) else None
       case None => None)
    case Negated =>
      (match Read(ts[1..])
       case Some((a, rest)) => if rest != [] && rest[0].RPar? then Some((NotP(a), rest[1..])) else None
       case None => None)
    case Applied(f) =>
      (match Read(ts[1..])
       case None => None
       case Some((a, more)) =>
         match Read(more)
         case None => None
         case Some((b, rest)) => if rest != [] && rest[0].RPar? then Some((Fun(f, a, b), rest[1..])) else None)
    case AFactorial => ReadFactorial(ts[2..])
    case AGcd => ReadGcd(ts[2..])
    case VarPower => ReadVarPower(ts)
    case Compound =>
      match Read(ts)
      case None => None
      case Some((a, more)) => ReadCompound(a, more)
  }

  /** What may follow the first operand. */
  function ReadCompound(a: Lean, ts: seq<Token>): (r: Parse<Lean>)
    ensures r.Some? ==> |r.value.1| < |ts|
    decreases |ts|, 2
  {
    if ts == [] then None
    else
      match ts[0]
      case Op(op) =>
        (match Read(ts[1..])
         case None => None
         case Some((b, rest)) => if rest != [] && rest[0].RPar? then Some((Bin(op, a, b), rest[1..])) else None)
      case Caret =>
        if |ts| >= 7 && ts[1].LPar? && ts[2].Number? && ts[3].Colon? && ts[4].NatSort?
           && ts[5].RPar? && ts[6].RPar? then
          Some((PowNat(a, ts[2].n), ts[7..]))
        else None
      case AndSign => ReadJunction(true, a, ts)
      case OrSign => ReadJunction(false, a, ts)
      case _ => None
  }

  function ReadJunction(conj: bool, a: Lean, ts: seq<Token>): (r: Parse<Lean>)
    ensures r.Some? ==> |r.value.1| < |ts|
    decreases |ts|, 1
  {
    var (parts, rest) := ReadMore(conj, ts);
    if rest != [] && rest[0].RPar? then Some((Junction(conj, [a] + parts), rest[1..])) else None
  }

  /** As many further operands as there are. */
  function ReadMore(conj: bool, ts: seq<Token>): (r: (seq<Lean>, seq<Token>))
    ensures |r.1| <= |ts|
    decreases |ts|, 0
  {
    if ts == [] || ts[0] != Connective(conj) then ([], ts)
    else
      match Read(ts[1..])
      case None => ([], ts)
      case Some((b, more)) =>
        var (parts, rest) := ReadMore(conj, more);
        ([b] + parts, rest)
  }

  // ----- Reading what was written

  predicate ProperArg(kw: Keywords, x: NatArg) {
    x.ToNat? ==> !Reserved(kw, x.v)
  }

  /** No variable is named like one of the functions, and junctions have at least two operands. */
  predicate Proper(kw: Keywords, t: Lean) {
    match t
    case Num(_) => true
    case Var(v) => !Reserved(kw, v)
    case Neg(a) => Proper(kw, a)
    case Bin(_, a, b) => Proper(kw, a) && Proper(kw, b)
    case PowNat(a, _) => Proper(kw, a)
    case PowVar(_, v) => !Reserved(kw, v)
    case Fun(_, a, b) => Proper(kw, a) && Proper(kw, b)
    case Factorial(x) => ProperArg(kw, x)
    case Gcd(x, y) => ProperArg(kw, x) && ProperArg(kw, y)
    case NotP(a) => Proper(kw, a)
    case Junction(_, parts) => |parts| >= 2 && forall i :: 0 <= i < |parts| ==> Proper(kw, parts[i])
  }

  lemma ReadWriteArg(kw: Keywords, x: NatArg, rest: seq<Token>)
    requires ProperArg(kw, x)
    ensures ReadArg(WriteArg(kw, x, rest)) == Some((x, rest))
  {
    match x
    case Lit(n) => assert WriteArg(kw, x, rest)[1..] == rest;
    case ToNat(v) => assert WriteArg(kw, x, rest)[6..] == rest;
  }

  predicate StartsOperand(ts: seq<Token>) {
    ts != [] && (ts[0].LPar? || ts[0].Number? || ts[0].Word?)
  }

  lemma {:induction false} OperandStarts(kw: Keywords, t: Lean, rest: seq<Token>)
    requires Proper(kw, t)
    ensures StartsOperand(Write(kw, t, rest))
  {
  }

  predicate IsCompound(t: Lean) {
    t.Bin? || t.PowNat? || t.Junction?
  }

  /** The first operand of a compound, and what is written after it. */
  function Head(kw: Keywords, t: Lean): Lean
    requires Proper(kw, t) && IsCompound(t)
  {
    if t.Junction? then t.parts[0] else t.a
  }

  function Tail(kw: Keywords, t: Lean, rest: seq<Token>): (r: seq<Token>)
    requires Proper(kw, t) && IsCompound(t)
    ensures r != [] && !r[0].Colon?
  {
    match t
    case Bin(op, _, b) => [Op(op)] + Write(kw, b, [RPar] + rest)
    case PowNat(_, k) => [Caret, LPar, Number(k), Colon, NatSort, RPar, RPar] + rest
    case Junction(conj, parts) => WriteMore(kw, conj, parts[1..], [RPar] + rest)
  }

  lemma CompoundWrites(kw: Keywords, t: Lean, rest: seq<Token>)
    requires Proper(kw, t) && IsCompound(t)
    ensures Write(kw, t, rest) == [LPar] + Write(kw, Head(kw, t), Tail(kw, t, rest)) && Proper(kw, Head(kw, t))
  {
  }

  /** The second and third token of an operand in parentheses. */
  lemma {:induction false} SecondToken(kw: Keywords, t: Lean, rest: seq<Token>)
    requires Proper(kw, t) && Write(kw, t, rest)[0].LPar?
    ensures |Write(kw, t, rest)| >= 3 && Write(kw, t, rest)[1] != FactorialWord && Write(kw, t, rest)[1] != GcdWord
    ensures Write(kw, t, rest)[1].Number? ==> !Write(kw, t, rest)[2].Colon?
  {
    if IsCompound(t) {
      CompoundWrites(kw, t, rest);
      var h, tail := Head(kw, t), Tail(kw, t, rest);
      OperandStarts(kw, h, tail);
      if h.Num? {
        assert Write(kw, h, tail)[1] == tail[0];
      } else if Write(kw, h, tail)[0].LPar? {
        Longer(kw, h, tail);
      }
    } else {
      Longer(kw, t, rest);
    }
  }

  lemma {:induction false} Longer(kw: Keywords, t: Lean, rest: seq<Token>)
    requires Proper(kw, t)
    ensures |Write(kw, t, rest)| > |rest| && (Write(kw, t, rest)[0].LPar? ==> |Write(kw, t, rest)| > |rest| + 2)
    decreases t, 0
  {
    match t
    case Num(_) =>
    case Var(_) =>
    case Neg(a) => Longer(kw, a, [RPar] + rest);
    case Bin(op, a, b) =>
      Longer(kw, b, [RPar] + rest);
      Longer(kw, a, [Op(op)] + Write(kw, b, [RPar] + rest));
    case PowNat(a, k) => Longer(kw, a, [Caret, LPar, Number(k), Colon, NatSort, RPar, RPar] + rest);
    case PowVar(_, _) =>
    case Fun(_, a, b) =>
      Longer(kw, b, [RPar] + rest);
      Longer(kw, a, Write(kw, b, [RPar] + rest));
    case Factorial(_) =>
    case Gcd(_, _) =>
    case NotP(a) => Longer(kw, a, [RPar] + rest);
    case Junction(conj, parts) =>
      MoreLonger(kw, conj, parts[1..], [RPar] + rest);
      Longer(kw, parts[0], WriteMore(kw, conj, parts[1..], [RPar] + rest));
  }

  lemma {:induction false} MoreLonger(kw: Keywords, conj: bool, parts: seq<Lean>, rest: seq<Token>)
    requires forall i :: 0 <= i < |parts| ==> Proper(kw, parts[i])
    ensures |WriteMore(kw, conj, parts, rest)| >= |rest|
    decreases parts, 1
  {
    if parts != [] {
      MoreLonger(kw, conj, parts[1..], rest);
      Longer(kw, parts[0], WriteMore(kw, conj, parts[1..], rest));
    }
  }

  /** Behind its parenthesis a compound does not look like anything else. */
  lemma CompoundForm(kw: Keywords, t: Lean, rest: seq<Token>)
    requires Proper(kw, t) && IsCompound(t)
    ensures FormOf(Write(kw, t, rest)[1..]).Compound?
  {
    CompoundWrites(kw, t, rest);
    var h, tail := Head(kw, t), Tail(kw, t, rest);
    assert Write(kw, t, rest)[1..] == Write(kw, h, tail);
    OperandStarts(kw, h, tail);
    if Write(kw, h, tail)[0].LPar? {
      SecondToken(kw, h, tail);
    }
  }

  lemma ReadOpened(kw: Keywords, t: Lean, rest: seq<Token>, inner: seq<Token>)
    requires Write(kw, t, rest) == [LPar] + inner && ReadForm(inner) == Some((t, rest))
    ensures Read(Write(kw, t, rest)) == Some((t, rest))
  {
    assert Write(kw, t, rest)[1..] == inner;
  }

  lemma ReadClosed(a: Lean, rest: seq<Token>, ts: seq<Token>)
    requires Read(ts) == Some((a, [RPar] + rest))
    ensures Read(ts).value.1 != [] && Read(ts).value.1[0].RPar? && Read(ts).value.1[1..] == rest
  {
  }

  lemma {:induction false} ReadBackSign(kw: Keywords, t: Lean, rest: seq<Token>)
    requires Proper(kw, t) && (t.Neg? || t.NotP?)
    ensures Read(Write(kw, t, rest)) == Some((t, rest))
    decreases t, 0
  {
    var sign := if t.Neg? then Op(Minus) else NotSign;
    var inner := Write(kw, t.a, [RPar] + rest);
    ReadBack(kw, t.a, [RPar] + rest);
    ReadClosed(t.a, rest, inner);
    assert ([sign] + inner)[1..] == inner;
    ReadOpened(kw, t, rest, [sign] + inner);
  }

  lemma {:induction false} ReadBackBin(kw: Keywords, t: Lean, rest: seq<Token>)
    requires Proper(kw, t) && t.Bin?
    ensures Read(Write(kw, t, rest)) == Some((t, rest))
    decreases t, 0
  {
    var second := Write(kw, t.b, [RPar] + rest);
    var tail := [Op(t.op)] + second;
    CompoundForm(kw, t, rest);
    assert Write(kw, t, rest)[1..] == Write(kw, t.a, tail);
    ReadBack(kw, t.a, tail);
    ReadBack(kw, t.b, [RPar] + rest);
    ReadClosed(t.b, rest, second);
    assert tail[1..] == second;
    ReadOpened(kw, t, rest, Write(kw, t.a, tail));
  }

  lemma PowReads(a: Lean, k: nat, ts: seq<Token>, tail: seq<Token>, rest: seq<Token>)
    requires tail == [Caret, LPar, Number(k), Colon, NatSort, RPar, RPar] + rest
    requires FormOf(ts).Compound? && Read(ts) == Some((a, tail))
    ensures ReadForm(ts) == Some((PowNat(a, k), rest))
  {
    CompoundReads(a, ts, tail);
    assert tail[7..] == rest;
  }

  lemma CompoundReads(a: Lean, ts: seq<Token>, tail: seq<Token>)
    requires FormOf(ts).Compound? && Read(ts) == Some((a, tail))
    ensures ReadForm(ts) == ReadCompound(a, tail)
  {
  }

  lemma JunctionReads(t: Lean, ts: seq<Token>, tail: seq<Token>, rest: seq<Token>)
    requires t.Junction? && |t.parts| >= 2 && tail != [] && tail[0] == Connective(t.conj)
    requires FormOf(ts).Compound? && Read(ts) == Some((t.parts[0], tail))
    requires ReadMore(t.conj, tail) == (t.parts[1..], [RPar] + rest)
    ensures ReadForm(ts) == Some((t, rest))
  {
    CompoundReads(t.parts[0], ts, tail);
    assert ([RPar] + rest)[1..] == rest;
    assert [t.parts[0]] + t.parts[1..] == t.parts;
    assert ReadCompound(t.parts[0], tail) == ReadJunction(t.conj, t.parts[0], tail);
  }

  lemma {:induction false} ReadBackPow(kw: Keywords, t: Lean, rest: seq<Token>)
    requires Proper(kw, t) && t.PowNat?
    ensures Read(Write(kw, t, rest)) == Some((t, rest))
    decreases t, 0
  {
    var tail := [Caret, LPar, Number(t.k), Colon, NatSort, RPar, RPar] + rest;
    CompoundForm(kw, t, rest);
    CompoundWrites(kw, t, rest);
    assert Write(kw, t, rest)[1..] == Write(kw, t.a, tail);
    ReadBack(kw, t.a, tail);
    PowReads(t.a, t.k, Write(kw, t.a, tail), tail, rest);
    ReadOpened(kw, t, rest, Write(kw, t.a, tail));
  }

  lemma AppliedReads(f: LeanFun, a: Lean, b: Lean, first: seq<Token>, second: seq<Token>, rest: seq<Token>)
    requires Read(first) == Some((a, second)) && Read(second) == Some((b, [RPar] + rest))
    ensures ReadForm([FunWord(f)] + first) == Some((Fun(f, a, b), rest))
  {
    ReadClosed(b, rest, second);
    assert ([FunWord(f)] + first)[1..] == first;
  }

  lemma WriteFun(kw: Keywords, f: LeanFun, a: Lean, b: Lean, rest: seq<Token>)
    ensures Write(kw, Fun(f, a, b), rest) == [LPar] + ([FunWord(f)] + Write(kw, a, Write(kw, b, [RPar] + rest)))
  {
  }

  lemma {:induction false} ReadBackFun(kw: Keywords, t: Lean, rest: seq<Token>)
    requires Proper(kw, t) && t.Fun?
    ensures Read(Write(kw, t, rest)) == Some((t, rest))
    decreases t, 0
  {
    var second := Write(kw, t.b, [RPar] + rest);
    ReadBack(kw, t.a, second);
    ReadBack(kw, t.b, [RPar] + rest);
    WriteFun(kw, t.f, t.a, t.b, rest);
    AppliedReads(t.f, t.a, t.b, Write(kw, t.a, second), second, rest);
    ReadOpened(kw, t, rest, [FunWord(t.f)] + Write(kw, t.a, second));
  }

  lemma AfterCast(rest: seq<Token>)
    ensures After(CAST + rest, CAST) == Some(rest)
  {
    assert (CAST + rest)[|CAST|..] == rest;
  }

  lemma FactorialReads(x: NatArg, tail: seq<Token>, rest: seq<Token>)
    requires ReadArg(tail) == Some((x, CAST + rest))
    ensures ReadForm([LPar, FactorialWord] + tail) == Some((Factorial(x), rest))
  {
    AfterCast(rest);
    assert ([LPar, FactorialWord] + tail)[2..] == tail;
  }

  lemma WriteFactorial(kw: Keywords, x: NatArg, rest: seq<Token>)
    ensures Write(kw, Factorial(x), rest) == [LPar] + ([LPar, FactorialWord] + WriteArg(kw, x, CAST + rest))
  {
  }

  lemma ReadBackFactorial(kw: Keywords, t: Lean, rest: seq<Token>)
    requires Proper(kw, t) && t.Factorial?
    ensures Read(Write(kw, t, rest)) == Some((t, rest))
  {
    var tail := WriteArg(kw, t.x, CAST + rest);
    ReadWriteArg(kw, t.x, CAST + rest);
    FactorialReads(t.x, tail, rest);
    WriteFactorial(kw, t.x, rest);
    ReadOpened(kw, t, rest, [LPar, FactorialWord] + tail);
  }

  lemma GcdReads(x: NatArg, y: NatArg, tail: seq<Token>, second: seq<Token>, rest: seq<Token>)
    requires ReadArg(tail) == Some((x, second)) && ReadArg(second) == Some((y, CAST + rest))
    ensures ReadForm([LPar, GcdWord] + tail) == Some((Gcd(x, y), rest))
  {
    AfterCast(rest);
    assert ([LPar, GcdWord] + tail)[2..] == tail;
  }

  lemma WriteGcd(kw: Keywords, x: NatArg, y: NatArg, rest: seq<Token>)
    ensures Write(kw, Gcd(x, y), rest) == [LPar] + ([LPar, GcdWord] + WriteArg(kw, x, WriteArg(kw, y, CAST + rest)))
  {
    var args := WriteArg(kw, x, WriteArg(kw, y, CAST + rest));
    assert Write(kw, Gcd(x, y), rest) == [LPar, LPar, GcdWord] + args;
  }

  lemma ReadBackGcd(kw: Keywords, t: Lean, rest: seq<Token>)
    requires Proper(kw, t) && t.Gcd?
    ensures Read(Write(kw, t, rest)) == Some((t, rest))
  {
    var second := WriteArg(kw, t.y, CAST + rest);
    var tail := WriteArg(kw, t.x, second);
    ReadWriteArg(kw, t.x, second);
    ReadWriteArg(kw, t.y, CAST + rest);
    GcdReads(t.x, t.y, tail, second, rest);
    WriteGcd(kw, t.x, t.y, rest);
    ReadOpened(kw, t, rest, [LPar, GcdWord] + tail);
  }

  lemma ReadBackVarPower(kw: Keywords, t: Lean, rest: seq<Token>)
    requires Proper(kw, t) && t.PowVar?
    ensures Read(Write(kw, t, rest)) == Some((t, rest))
  {
    var fixed := [LPar, Number(t.base), Colon, IntSort, RPar, Caret, LPar, TokenOf(kw, t.v), RPar, DotToNat, RPar];
    var inner := fixed + rest;
    assert inner[11..] == rest;
    assert FormOf(inner).VarPower?;
    ReadOpened(kw, t, rest, inner);
  }

  lemma ReadMoreStops(conj: bool, rest: seq<Token>)
    ensures ReadMore(conj, [RPar] + rest) == ([], [RPar] + rest)
  {
  }

  lemma {:induction false} ReadBackMore(kw: Keywords, conj: bool, parts: seq<Lean>, rest: seq<Token>)
    requires forall i :: 0 <= i < |parts| ==> Proper(kw, parts[i])
    ensures ReadMore(conj, WriteMore(kw, conj, parts, [RPar] + rest)) == (parts, [RPar] + rest)
    decreases parts, 2
  {
    if parts == [] {
      ReadMoreStops(conj, rest);
    } else {
      var more := WriteMore(kw, conj, parts[1..], [RPar] + rest);
      ReadBackMore(kw, conj, parts[1..], rest);
      ReadBack(kw, parts[0], more);
      var ts := [Connective(conj)] + Write(kw, parts[0], more);
      assert ts[1..] == Write(kw, parts[0], more);
      assert parts == [parts[0]] + parts[1..];
    }
  }

  lemma {:induction false} ReadBackJunction(kw: Keywords, t: Lean, rest: seq<Token>)
    requires Proper(kw, t) && t.Junction?
    ensures Read(Write(kw, t, rest)) == Some((t, rest))
    decreases t, 0
  {
    var tail := WriteMore(kw, t.conj, t.parts[1..], [RPar] + rest);
    CompoundForm(kw, t, rest);
    assert Write(kw, t, rest)[1..] == Write(kw, t.parts[0], tail);
    ReadBack(kw, t.parts[0], tail);
    ReadBackMore(kw, t.conj, t.parts[1..], rest);
    assert tail[0] == Connective(t.conj);
    JunctionReads(t, Write(kw, t.parts[0], tail), tail, rest);
    ReadOpened(kw, t, rest, Write(kw, t.parts[0], tail));
  }

  /** Reading what was written gives the statement back, whatever follows. */
  lemma {:induction false} ReadBack(kw: Keywords, t: Lean, rest: seq<Token>)
    requires Proper(kw, t)
    ensures Read(Write(kw, t, rest)) == Some((t, rest))
    decreases t, 1
  {
    match t
    case Num(_) =>
    case Var(_) =>
    case Neg(_) => ReadBackSign(kw, t, rest);
    case NotP(_) => ReadBackSign(kw, t, rest);
    case Bin(_, _, _) => ReadBackBin(kw, t, rest);
    case PowNat(_, _) => ReadBackPow(kw, t, rest);
    case PowVar(_, _) => ReadBackVarPower(kw, t, rest);
    case Fun(_, _, _) => ReadBackFun(kw, t, rest);
    case Factorial(_) => ReadBackFactorial(kw, t, rest);
    case Gcd(_, _) => ReadBackGcd(kw, t, rest);
    case Junction(_, _) => ReadBackJunction(kw, t, rest);
  }

  // ----- Only proper statements are read

  /** No word is the name of a function; so it is in every text. */
  predicate Clean(kw: Keywords, ts: seq<Token>) {
    forall i :: 0 <= i < |ts| ==> (ts[i].Word? ==> !Reserved(kw, ts[i].text))
  }

  lemma CleanConcat(kw: Keywords, a: seq<Token>, b: seq<Token>)
    requires Clean(kw, a) && Clean(kw, b)
    ensures Clean(kw, a + b)
  {
  }

  lemma CleanRest(kw: Keywords, ts: seq<Token>, n: nat)
    requires Clean(kw, ts) && n <= |ts|
    ensures Clean(kw, ts[n..])
  {
  }

  lemma WrittenArgClean(kw: Keywords, x: NatArg, rest: seq<Token>)
    requires Clean(kw, rest)
    ensures Clean(kw, WriteArg(kw, x, rest))
  {
    match x
    case Lit(n) => CleanConcat(kw, [Number(n)], rest);
    case ToNat(v) => CleanConcat(kw, [LPar, LPar, TokenOf(kw, v), RPar, DotToNat, RPar], rest);
  }

  lemma CleanBehind(kw: Keywords, first: Token, rest: seq<Token>)
    requires Clean(kw, rest) && !first.Word?
    ensures Clean(kw, [first] + rest)
  {
  }

  lemma NamedClean(kw: Keywords, t: Lean, rest: seq<Token>)
    requires Clean(kw, rest) && (t.Factorial? || t.Gcd?)
    ensures Clean(kw, Write(kw, t, rest))
  {
    CleanConcat(kw, CAST, rest);
    if t.Factorial? {
      WrittenArgClean(kw, t.x, CAST + rest);
      WriteFactorial(kw, t.x, rest);
      CleanConcat(kw, [LPar, LPar, FactorialWord], WriteArg(kw, t.x, CAST + rest));
    } else {
      WrittenArgClean(kw, t.y, CAST + rest);
      WrittenArgClean(kw, t.x, WriteArg(kw, t.y, CAST + rest));
      WriteGcd(kw, t.x, t.y, rest);
      CleanConcat(kw, [LPar, LPar, GcdWord], WriteArg(kw, t.x, WriteArg(kw, t.y, CAST + rest)));
    }
  }

  lemma VarPowerClean(kw: Keywords, t: Lean, rest: seq<Token>)
    requires Clean(kw, rest) && t.PowVar?
    ensures Clean(kw, Write(kw, t, rest))
  {
  }

  lemma {:induction false} SignClean(kw: Keywords, t: Lean, rest: seq<Token>)
    requires Clean(kw, rest) && (t.Neg? || t.NotP?)
    ensures Clean(kw, Write(kw, t, rest))
    decreases t, 0
  {
    CleanBehind(kw, RPar, rest);
    WrittenClean(kw, t.a, [RPar] + rest);
  }

  lemma {:induction false} OperandsClean(kw: Keywords, t: Lean, rest: seq<Token>)
    requires Clean(kw, rest) && (t.Bin? || t.Fun?)
    ensures Clean(kw, Write(kw, t, rest))
    decreases t, 0
  {
    var second := Write(kw, t.b, [RPar] + rest);
    CleanBehind(kw, RPar, rest);
    WrittenClean(kw, t.b, [RPar] + rest);
    if t.Bin? {
      CleanBehind(kw, Op(t.op), second);
      WrittenClean(kw, t.a, [Op(t.op)] + second);
    } else {
      WrittenClean(kw, t.a, second);
    }
  }

  lemma {:induction false} PowClean(kw: Keywords, t: Lean, rest: seq<Token>)
    requires Clean(kw, rest) && t.PowNat?
    ensures Clean(kw, Write(kw, t, rest))
    decreases t, 0
  {
    var tail := [Caret, LPar, Number(t.k), Colon, NatSort, RPar, RPar];
    CleanConcat(kw, tail, rest);
    WrittenClean(kw, t.a, tail + rest);
  }

  lemma {:induction false} WrittenClean(kw: Keywords, t: Lean, rest: seq<Token>)
    requires Clean(kw, rest)
    ensures Clean(kw, Write(kw, t, rest))
    decreases t, 1
  {
    match t
    case Num(_) =>
    case Var(_) =>
    case Neg(_) => SignClean(kw, t, rest);
    case NotP(_) => SignClean(kw, t, rest);
    case Bin(_, _, _) => OperandsClean(kw, t, rest);
    case Fun(_, _, _) => OperandsClean(kw, t, rest);
    case PowNat(_, _) => PowClean(kw, t, rest);
    case PowVar(_, _) => VarPowerClean(kw, t, rest);
    case Factorial(_) => NamedClean(kw, t, rest);
    case Gcd(_, _) => NamedClean(kw, t, rest);
    case Junction(conj, parts) =>
      if parts != [] {
        CleanBehind(kw, RPar, rest);
        MoreClean(kw, conj, parts[1..], [RPar] + rest);
        WrittenClean(kw, parts[0], WriteMore(kw, conj, parts[1..], [RPar] + rest));
      }
  }

  lemma {:induction false} MoreClean(kw: Keywords, conj: bool, parts: seq<Lean>, rest: seq<Token>)
    requires Clean(kw, rest)
    ensures Clean(kw, WriteMore(kw, conj, parts, rest))
    decreases parts, 1
  {
    if parts != [] {
      MoreClean(kw, conj, parts[1..], rest);
      WrittenClean(kw, parts[0], WriteMore(kw, conj, parts[1..], rest));
    }
  }

  lemma ArgReadProper(kw: Keywords, ts: seq<Token>)
    requires Clean(kw, ts) && ReadArg(ts).Some?
    ensures ProperArg(kw, ReadArg(ts).value.0) && Clean(kw, ReadArg(ts).value.1)
  {
  }

  /** What is read is proper, and so is the rest of the text. */
  ghost predicate ProperParse(kw: Keywords, r: Parse<Lean>) {
    r.Some? ==> Proper(kw, r.value.0) && Clean(kw, r.value.1)
  }

  lemma {:induction false} ReadProper(kw: Keywords, ts: seq<Token>)
    requires Clean(kw, ts)
    ensures ProperParse(kw, Read(ts))
    decreases |ts|, 1
  {
    if ts != [] {
      CleanRest(kw, ts, 1);
      if ts[0].LPar? {
        FormProper(kw, ts[1..]);
      }
    }
  }

  lemma NamedProper(kw: Keywords, ts: seq<Token>)
    requires Clean(kw, ts)
    ensures ProperParse(kw, ReadVarPower(ts)) && ProperParse(kw, ReadFactorial(ts)) && ProperParse(kw, ReadGcd(ts))
  {
    var x := ReadArg(ts);
    if x.Some? {
      ArgReadProper(kw, ts);
      var y := ReadArg(x.value.1);
      if y.Some? {
        ArgReadProper(kw, x.value.1);
      }
    }
  }

  lemma {:induction false} FormProper(kw: Keywords, ts: seq<Token>)
    requires Clean(kw, ts)
    ensures ProperParse(kw, ReadForm(ts))
    decreases |ts|, 3
  {
    match FormOf(ts)
    case Negative => ReadProper(kw, ts[1..]);
    case Negated => ReadProper(kw, ts[1..]);
    case Applied(_) =>
      ReadProper(kw, ts[1..]);
      if Read(ts[1..]).Some? {
        ReadProper(kw, Read(ts[1..]).value.1);
      }
    case AFactorial => NamedProper(kw, ts[2..]);
    case AGcd => NamedProper(kw, ts[2..]);
    case VarPower => NamedProper(kw, ts);
    case Compound =>
      ReadProper(kw, ts);
      if Read(ts).Some? {
        CompoundProper(kw, Read(ts).value.0, Read(ts).value.1);
      }
  }

  lemma {:induction false} CompoundProper(kw: Keywords, a: Lean, ts: seq<Token>)
    requires Proper(kw, a) && Clean(kw, ts)
    ensures ProperParse(kw, ReadCompound(a, ts))
    decreases |ts|, 2
  {
    if ts != [] {
      match ts[0]
      case Op(_) => ReadProper(kw, ts[1..]);
      case AndSign => JunctionProper(kw, true, a, ts);
      case OrSign => JunctionProper(kw, false, a, ts);
      case _ =>
    }
  }

  lemma {:induction false} JunctionProper(kw: Keywords, conj: bool, a: Lean, ts: seq<Token>)
    requires Proper(kw, a) && Clean(kw, ts) && ts != [] && ts[0] == Connective(conj)
    ensures ProperParse(kw, ReadJunction(conj, a, ts))
    decreases |ts|, 1
  {
    MoreProper(kw, conj, ts);
    var (parts, rest) := ReadMore(conj, ts);
    assert parts == [] ==> rest == ts;
  }

  lemma {:induction false} MoreProper(kw: Keywords, conj: bool, ts: seq<Token>)
    requires Clean(kw, ts)
    ensures Clean(kw, ReadMore(conj, ts).1)
    ensures forall i :: 0 <= i < |ReadMore(conj, ts).0| ==> Proper(kw, ReadMore(conj, ts).0[i])
    decreases |ts|, 0
  {
    if ts != [] && ts[0] == Connective(conj) {
      ReadProper(kw, ts[1..]);
      if Read(ts[1..]).Some? {
        MoreProper(kw, conj, Read(ts[1..]).value.1);
      }
    }
  }

  /** Exactly the proper statements can be read back. */
  lemma ReadableIsProper(kw: Keywords, t: Lean)
    ensures Read(Write(kw, t, [])) == Some((t, [])) <==> Proper(kw, t)
  {
    if Proper(kw, t) {
      ReadBack(kw, t, []);
    }
    WrittenClean(kw, t, []);
    ReadProper(kw, Write(kw, t, []));
  }

  /** Statements with the same text are the same. */
  lemma TextDetermines(kw: Keywords, t: Lean, u: Lean)
    requires Proper(kw, t) && Proper(kw, u) && Write(kw, t, []) == Write(kw, u, [])
    ensures t == u
  {
    ReadBack(kw, t, []);
    ReadBack(kw, u, []);
  }

  /** `min`, `Int` and the keywords may be names of a claim's variables, and as such cannot be read back. */
  lemma NamesClash(kw: Keywords, v: string)
    requires v == "min" || v == "Int" || v in kw
    ensures Read(Write(kw, Bin(Equals, Var(v), Num(0)), [])) != Some((Bin(Equals, Var(v), Num(0)), []))
  {
    ReadableIsProper(kw, Bin(Equals, Var(v), Num(0)));
  }
}
