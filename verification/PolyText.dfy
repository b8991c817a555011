/** Writing a coefficient list as a polynomial in n, and reading it back with the precedences of the
    claim language: expansion recovers the coefficients. */
module PolyText {
  import opened Collections
  import opened Arith
  import opened Polynomials

  datatype Token = Digits(n: nat) | Variable | Star | Hat | PlusSign | MinusSign

  const N := "n"

  // ----- Writing

  function VariableText(power: nat): seq<Token> {
    if power == 1 then [Variable] else [Variable, Hat, Digits(power)]
  }

  function BodyText(mag: nat, power: nat): seq<Token> {
    if power == 0 then [Digits(mag)]
    else if mag == 1 then VariableText(power)
    else [Digits(mag), Star] + VariableText(power)
  }

  /** The text of the terms of power k and above, highest first; zeros are skipped. */
  function TextFrom(coeffs: seq<int>, k: nat): seq<Token>
    requires k <= |coeffs|
    decreases |coeffs| - k
  {
    if k == |coeffs| then []
    else
      var higher := TextFrom(coeffs, k + 1);
      var body := BodyText(Abs(coeffs[k]), k);
      if coeffs[k] == 0 then higher
      else if higher == [] then (if coeffs[k] < 0 then [MinusSign] else []) + body
      else higher + [if coeffs[k] < 0 then MinusSign else PlusSign] + body
  }

  function PolyStr(coeffs: seq<int>): seq<Token> {
    if TextFrom(coeffs, 0) == [] then [Digits(0)] else TextFrom(coeffs, 0)
  }

  // ----- Reading

  type Parse = Option<(Node, seq<Token>)>

  /** A number or the variable, possibly to a power. */
  function ReadPower(ts: seq<Token>): (r: Parse)
    ensures r.Some? ==> |r.value.1| < |ts|
  {
    if ts == [] || !(ts[0].Digits? || ts[0].Variable?) then None
    else
      var atom := if ts[0].Digits? then Const(ts[0].n) else Name(N);
      if |ts| >= 3 && ts[1].Hat? && ts[2].Digits? then Some((Pow(atom, Const(ts[2].n)), ts[3..]))
      else Some((atom, ts[1..]))
  }

  /** A sign binds weaker than a power and stronger than a product. */
  function ReadSigned(ts: seq<Token>): (r: Parse)
    ensures r.Some? ==> |r.value.1| < |ts|
  {
    if ts != [] && ts[0].MinusSign? then
      match ReadSigned(ts[1..])
      case None => None
      case Some((a, rest)) => Some((Neg(a), rest))
    else ReadPower(ts)
  }

  function ReadFactors(acc: Node, ts: seq<Token>): (r: Parse)
    ensures r.Some? ==> |r.value.1| <= |ts|
    decreases |ts|
  {
    if ts == [] || !ts[0].Star? then Some((acc, ts))
    else
      match ReadSigned(ts[1..])
      case None => None
      case Some((a, rest)) => ReadFactors(Mul(acc, a), rest)
  }

  function ReadProduct(ts: seq<Token>): (r: Parse)
    ensures r.Some? ==> |r.value.1| < |ts|
  {
    match ReadSigned(ts)
    case None => None
    case Some((a, rest)) => ReadFactors(a, rest)
  }

  /** Sums and differences associate to the left. */
  function ReadTerms(acc: Node, ts: seq<Token>): Option<Node>
    decreases |ts|
  {
    if ts == [] then Some(acc)
    else if ts[0].PlusSign? || ts[0].MinusSign? then
      match ReadProduct(ts[1..])
      case None => None
      case Some((b, rest)) => ReadTerms(if ts[0].PlusSign? then Add(acc, b) else Sub(acc, b), rest)
    else None
  }

  function ReadSum(ts: seq<Token>): Option<Node> {
    match ReadProduct(ts)
    case None => None
    case Some((a, rest)) => ReadTerms(a, rest)
  }

  // ----- What is read

  function VariableNode(power: nat): Node {
    if power == 1 then Name(N) else Pow(Name(N), Const(power))
  }

  function BodyNode(mag: nat, power: nat): Node {
    if power == 0 then Const(mag)
    else if mag == 1 then VariableNode(power)
    else Mul(Const(mag), VariableNode(power))
  }

  /** A leading sign goes to the first factor. */
  function FirstNode(c: int, power: nat): Node {
    var body := BodyNode(Abs(c), power);
    if c >= 0 then body
    else if body.Mul? then Mul(Neg(body.left), body.right)
    else Neg(body)
  }

  /** A further term under its sign. */
  function Joined(acc: Node, c: int, power: nat): Node {
    if c < 0 then Sub(acc, BodyNode(Abs(c), power)) else Add(acc, BodyNode(Abs(c), power))
  }

  function NodeFrom(coeffs: seq<int>, k: nat): Option<Node>
    requires k <= |coeffs|
    decreases |coeffs| - k
  {
    if k == |coeffs| then None
    else
      var higher := NodeFrom(coeffs, k + 1);
      if coeffs[k] == 0 then higher
      else if higher.None? then Some(FirstNode(coeffs[k], k))
      else if coeffs[k] < 0 then Some(Sub(higher.value, BodyNode(Abs(coeffs[k]), k)))
      else Some(Add(higher.value, BodyNode(Abs(coeffs[k]), k)))
  }

  lemma NodeCases(coeffs: seq<int>, k: nat)
    requires k < |coeffs|
    ensures var c, higher := coeffs[k], NodeFrom(coeffs, k + 1);
      NodeFrom(coeffs, k) == if c == 0 then higher
                             else if higher.None? then Some(FirstNode(c, k))
                             else Some(Joined(higher.value, c, k))
  {
  }

  function PolyNode(coeffs: seq<int>): Node {
    var n := NodeFrom(coeffs, 0);
    if n.None? then Const(0) else n.value
  }

  predicate EndsTerm(rest: seq<Token>) {
    rest == [] || rest[0].PlusSign? || rest[0].MinusSign?
  }

  lemma ReadVariable(power: nat, rest: seq<Token>)
    requires power >= 1 && EndsTerm(rest)
    ensures ReadSigned(VariableText(power) + rest)
         == Some((VariableNode(power), rest))
  {
    if power == 1 {
      assert ([Variable] + rest)[1..] == rest;
    } else {
      assert ([Variable, Hat, Digits(power)] + rest)[3..] == rest;
    }
  }

  lemma ReadNumber(mag: nat, rest: seq<Token>)
    requires EndsTerm(rest) || rest[0].Star?
    ensures ReadSigned([Digits(mag)] + rest) == Some((Const(mag), rest))
  {
    assert ([Digits(mag)] + rest)[1..] == rest;
  }

  lemma FactorsEnd(acc: Node, rest: seq<Token>)
    requires EndsTerm(rest)
    ensures ReadFactors(acc, rest) == Some((acc, rest))
  {
  }

  lemma ReadScaled(lead: Node, power: nat, rest: seq<Token>)
    requires power >= 1 && EndsTerm(rest)
    ensures ReadFactors(lead, [Star] + (VariableText(power) + rest))
         == Some((Mul(lead, VariableNode(power)), rest))
  {
    var ts := VariableText(power) + rest;
    assert ([Star] + ts)[1..] == ts;
    ReadVariable(power, rest);
    FactorsEnd(Mul(lead, VariableNode(power)), rest);
  }

  lemma ReadBody(mag: nat, power: nat, rest: seq<Token>)
    requires EndsTerm(rest)
    ensures ReadProduct(BodyText(mag, power) + rest) == Some((BodyNode(mag, power), rest))
  {
    if power == 0 {
      ReadNumber(mag, rest);
      FactorsEnd(Const(mag), rest);
    } else if mag == 1 {
      assert BodyText(mag, power) == VariableText(power);
      ReadVariable(power, rest);
      FactorsEnd(BodyNode(mag, power), rest);
    } else {
      var tail := [Star] + (VariableText(power) + rest);
      assert BodyText(mag, power) + rest == [Digits(mag)] + tail;
      ReadNumber(mag, tail);
      ReadScaled(Const(mag), power, rest);
    }
  }

  lemma ReadMinus(ts: seq<Token>, a: Node, rest: seq<Token>)
    requires ReadSigned(ts) == Some((a, rest))
    ensures ReadSigned([MinusSign] + ts) == Some((Neg(a), rest))
  {
    assert ([MinusSign] + ts)[1..] == ts;
  }

  lemma ReadFirst(c: int, power: nat, rest: seq<Token>)
    requires EndsTerm(rest) && c < 0
    ensures ReadProduct([MinusSign] + (BodyText(-c, power) + rest)) == Some((FirstNode(c, power), rest))
  {
    var mag := -c;
    if power == 0 {
      ReadNumber(mag, rest);
      ReadSignedAlone([Digits(mag)], Const(mag), rest);
    } else if mag == 1 {
      ReadVariable(power, rest);
      ReadSignedAlone(VariableText(power), VariableNode(power), rest);
    } else {
      ReadMinusScaled(mag, power, rest);
    }
  }

  lemma ReadSignedAlone(text: seq<Token>, a: Node, rest: seq<Token>)
    requires EndsTerm(rest) && ReadSigned(text + rest) == Some((a, rest))
    ensures ReadProduct([MinusSign] + (text + rest)) == Some((Neg(a), rest))
  {
    ReadMinus(text + rest, a, rest);
    FactorsEnd(Neg(a), rest);
  }

  lemma ReadMinusScaled(mag: nat, power: nat, rest: seq<Token>)
    requires power >= 1 && mag != 1 && EndsTerm(rest)
    ensures ReadProduct([MinusSign] + (BodyText(mag, power) + rest))
         == Some((Mul(Neg(Const(mag)), VariableNode(power)), rest))
  {
    var tail := [Star] + (VariableText(power) + rest);
    assert BodyText(mag, power) + rest == [Digits(mag)] + tail;
    ReadNumber(mag, tail);
    ReadMinus([Digits(mag)] + tail, Const(mag), tail);
    ReadScaled(Neg(Const(mag)), power, rest);
  }

  lemma {:induction false} EmptyTogether(coeffs: seq<int>, k: nat)
    requires k <= |coeffs|
    ensures TextFrom(coeffs, k) == [] <==> NodeFrom(coeffs, k).None?
    decreases |coeffs| - k
  {
    if k < |coeffs| {
      EmptyTogether(coeffs, k + 1);
    }
  }

  lemma ReadNext(acc: Node, c: int, k: nat, rest: seq<Token>)
    requires c != 0 && EndsTerm(rest)
    ensures ReadTerms(acc, [if c < 0 then MinusSign else PlusSign] + (BodyText(Abs(c), k) + rest))
         == ReadTerms(if c < 0 then Sub(acc, BodyNode(Abs(c), k)) else Add(acc, BodyNode(Abs(c), k)), rest)
  {
    var ts := BodyText(Abs(c), k) + rest;
    var sign := if c < 0 then MinusSign else PlusSign;
    ReadBody(Abs(c), k, rest);
    assert ([sign] + ts)[1..] == ts;
  }

  /** A first term under its sign, and a further one. */
  function LeadingText(c: int, k: nat): seq<Token> {
    (if c < 0 then [MinusSign] else []) + BodyText(Abs(c), k)
  }

  function NextText(c: int, k: nat): seq<Token> {
    [if c < 0 then MinusSign else PlusSign] + BodyText(Abs(c), k)
  }

  lemma ReadLeading(c: int, k: nat, rest: seq<Token>)
    requires c != 0 && EndsTerm(rest)
    ensures ReadSum(LeadingText(c, k) + rest) == ReadTerms(FirstNode(c, k), rest)
  {
    var body := BodyText(Abs(c), k);
    if c < 0 {
      ReadFirst(c, k, rest);
      assert ([MinusSign] + body) + rest == [MinusSign] + (body + rest);
    } else {
      ReadBody(c, k, rest);
      assert [] + body == body;
    }
  }

  lemma TextCases(coeffs: seq<int>, k: nat)
    requires k < |coeffs|
    ensures var c, higher := coeffs[k], TextFrom(coeffs, k + 1);
      TextFrom(coeffs, k) == if c == 0 then higher
                             else if higher == [] then LeadingText(c, k)
                             else higher + NextText(c, k)
  {
    if coeffs[k] != 0 {
      var higher, body := TextFrom(coeffs, k + 1), BodyText(Abs(coeffs[k]), k);
      var sign := if coeffs[k] < 0 then MinusSign else PlusSign;
      assert higher + [sign] + body == higher + ([sign] + body);
    }
  }

  lemma NextSplits(c: int, k: nat, rest: seq<Token>)
    ensures NextText(c, k) + rest == [if c < 0 then MinusSign else PlusSign] + (BodyText(Abs(c), k) + rest)
    ensures EndsTerm(NextText(c, k) + rest)
  {
  }

  lemma ReadJoined(acc: Node, c: int, k: nat, rest: seq<Token>)
    requires c != 0 && EndsTerm(rest)
    ensures EndsTerm(NextText(c, k) + rest)
    ensures ReadTerms(acc, NextText(c, k) + rest) == ReadTerms(Joined(acc, c, k), rest)
  {
    ReadNext(acc, c, k, rest);
    NextSplits(c, k, rest);
  }

  lemma {:induction false} ReadFrom(coeffs: seq<int>, k: nat, rest: seq<Token>)
    requires k <= |coeffs| && NodeFrom(coeffs, k).Some? && EndsTerm(rest)
    ensures ReadSum(TextFrom(coeffs, k) + rest) == ReadTerms(NodeFrom(coeffs, k).value, rest)
    decreases |coeffs| - k
  {
    var c, higher := coeffs[k], NodeFrom(coeffs, k + 1);
    EmptyTogether(coeffs, k + 1);
    NodeCases(coeffs, k);
    TextCases(coeffs, k);
    if c == 0 {
      ReadFrom(coeffs, k + 1, rest);
    } else if higher.None? {
      ReadLeading(c, k, rest);
    } else {
      ReadJoined(higher.value, c, k, rest);
      ReadFrom(coeffs, k + 1, NextText(c, k) + rest);
      ReadFurther(TextFrom(coeffs, k + 1), higher.value, c, k, rest);
    }
  }

  lemma ReadFurther(text: seq<Token>, acc: Node, c: int, k: nat, rest: seq<Token>)
    requires ReadSum(text + (NextText(c, k) + rest)) == ReadTerms(acc, NextText(c, k) + rest)
    requires ReadTerms(acc, NextText(c, k) + rest) == ReadTerms(Joined(acc, c, k), rest)
    ensures ReadSum((text + NextText(c, k)) + rest) == ReadTerms(Joined(acc, c, k), rest)
  {
    assert (text + NextText(c, k)) + rest == text + (NextText(c, k) + rest);
  }

  /** The text of a coefficient list reads as one term. */
  lemma ReadBack(coeffs: seq<int>)
    ensures ReadSum(PolyStr(coeffs)) == Some(PolyNode(coeffs))
  {
    EmptyTogether(coeffs, 0);
    if NodeFrom(coeffs, 0).Some? {
      ReadFrom(coeffs, 0, []);
      assert TextFrom(coeffs, 0) + [] == TextFrom(coeffs, 0);
    } else {
      ReadNumber(0, []);
      assert [Digits(0)] + [] == [Digits(0)];
    }
  }

  // ----- Its expansion

  /** n to the power k. */
  function Monomial(k: nat): Mono {
    multiset{}[N := k]
  }

  lemma MonomialGrows(k: nat)
    ensures Monomial(k) + multiset{N} == Monomial(k + 1) && |Monomial(k)| == k && Monomial(0) == multiset{}
  {
    MonomialSize(k);
  }

  lemma {:induction false} MonomialSize(k: nat)
    ensures |Monomial(k)| == k
  {
    if k == 0 {
      assert Monomial(0) == multiset{};
    } else {
      MonomialSize(k - 1);
      assert Monomial(k) == Monomial(k - 1) + multiset{N};
    }
  }

  lemma {:induction false} PowerExpands(k: nat)
    requires k <= MAX_EXP
    ensures PowPoly(One(multiset{N}, 1), k) == Some(One(Monomial(k), 1))
  {
    MonomialGrows(0);
    if k > 0 {
      PowerExpands(k - 1);
      MonomialGrows(k - 1);
      MonomialGrows(k);
      TimesOne(Monomial(k - 1), 1, multiset{N}, 1);
    }
  }

  lemma VariableExpands(power: nat)
    requires 1 <= power <= MAX_EXP
    ensures Expand(VariableNode(power)) == Some(One(Monomial(power), 1))
  {
    MonomialGrows(0);
    if power > 1 {
      assert Expand(Name(N)) == Some(One(multiset{N}, 1));
      PowerExpands(power);
    } else {
      assert Monomial(1) == multiset{N};
    }
  }

  lemma ProductExpands(a: Node, b: Node, p: Poly, q: Poly)
    requires Expand(a) == Some(p) && Expand(b) == Some(q)
    ensures Expand(Mul(a, b)) == MulPoly(p, q)
  {
  }

  lemma NegOne(mono: Mono, c: int)
    ensures NegPoly(One(mono, c)) == One(mono, -c)
  {
    assert One(mono, c)[1..] == [];
  }

  lemma NegatedExpands(a: Node, mono: Mono, c: int)
    requires Expand(a) == Some(One(mono, c))
    ensures Expand(Neg(a)) == Some(One(mono, -c))
  {
    NegOne(mono, c);
  }

  lemma ScaledExpands(lead: Node, c: int, power: nat)
    requires 1 <= power <= MAX_EXP && Expand(lead) == Some(One(multiset{}, c))
    ensures Expand(Mul(lead, VariableNode(power))) == Some(One(Monomial(power), c))
  {
    VariableExpands(power);
    MonomialGrows(power);
    assert multiset{} + Monomial(power) == Monomial(power);
    TimesOne(multiset{}, c, Monomial(power), 1);
    ProductExpands(lead, VariableNode(power), One(multiset{}, c), One(Monomial(power), 1));
  }

  lemma ConstantExpands(c: int)
    ensures Expand(Const(c)) == Some(One(multiset{}, c)) && Monomial(0) == multiset{}
  {
    MonomialGrows(0);
  }

  lemma BodyExpands(mag: nat, power: nat)
    requires power <= MAX_EXP
    ensures Expand(BodyNode(mag, power)) == Some(One(Monomial(power), mag))
  {
    ConstantExpands(mag);
    if power > 0 {
      if mag == 1 {
        VariableExpands(power);
      } else {
        ScaledExpands(Const(mag), mag, power);
      }
    }
  }

  lemma FirstExpands(c: int, power: nat)
    requires power <= MAX_EXP
    ensures Expand(FirstNode(c, power)) == Some(One(Monomial(power), c))
  {
    if c >= 0 {
      BodyExpands(c, power);
    } else if power > 0 && c != -1 {
      ConstantExpands(-c);
      NegatedExpands(Const(-c), multiset{}, -c);
      ScaledExpands(Neg(Const(-c)), c, power);
    } else {
      BodyExpands(-c, power);
      NegatedExpands(BodyNode(-c, power), Monomial(power), -c);
    }
  }

  lemma AddOne(p: Poly, at: Mono, c: int)
    ensures AddPoly(p, One(at, c)) == AddTerm(p, at, c)
  {
    assert One(at, c)[1..] == [];
  }

  lemma MonomialsDiffer(j: nat, k: nat)
    ensures Monomial(j) == Monomial(k) <==> j == k
  {
    MonomialSize(j);
    MonomialSize(k);
  }

  lemma JoinedExpands(acc: Node, c: int, k: nat, p: Poly)
    requires k <= MAX_EXP && Expand(acc) == Some(p)
    ensures Expand(Joined(acc, c, k)) == Some(AddTerm(p, Monomial(k), c))
  {
    BodyExpands(Abs(c), k);
    NegOne(Monomial(k), Abs(c));
    AddOne(p, Monomial(k), c);
  }

  lemma OneCoeff(k: nat, c: int, j: nat)
    ensures CoeffOf(One(Monomial(k), c), Monomial(j)) == if j == k then c else 0
  {
    MonomialsDiffer(k, j);
    assert One(Monomial(k), c)[1..] == [];
  }

  lemma {:induction false} NodeCoefficients(coeffs: seq<int>, k: nat, j: nat)
    requires k <= |coeffs| <= MAX_EXP + 1 && NodeFrom(coeffs, k).Some?
    ensures Expand(NodeFrom(coeffs, k).value).Some?
    ensures CoeffOf(Expand(NodeFrom(coeffs, k).value).value, Monomial(j)) == if k <= j < |coeffs| then coeffs[j] else 0
    decreases |coeffs| - k
  {
    var c, higher := coeffs[k], NodeFrom(coeffs, k + 1);
    NodeCases(coeffs, k);
    if c == 0 {
      NodeCoefficients(coeffs, k + 1, j);
    } else if higher.None? {
      FirstExpands(c, k);
      OneCoeff(k, c, j);
      NoTermsAbove(coeffs, k + 1);
    } else {
      NodeCoefficients(coeffs, k + 1, j);
      var p := Expand(higher.value).value;
      JoinedExpands(higher.value, c, k, p);
      AddTermCoeff(p, Monomial(k), c, Monomial(j));
      MonomialsDiffer(k, j);
    }
  }

  lemma {:induction false} NoTermsAbove(coeffs: seq<int>, k: nat)
    requires k <= |coeffs| && NodeFrom(coeffs, k).None?
    ensures forall j :: k <= j < |coeffs| ==> coeffs[j] == 0
    decreases |coeffs| - k
  {
    if k < |coeffs| {
      NoTermsAbove(coeffs, k + 1);
    }
  }

  /** Writing coefficients up to degree eight, reading and expanding gives the coefficients back. */
  lemma CoefficientsReturn(coeffs: seq<int>, j: nat)
    requires |coeffs| <= MAX_EXP + 1
    ensures ReadSum(PolyStr(coeffs)).Some? && Expand(ReadSum(PolyStr(coeffs)).value).Some?
    ensures CoeffOf(Expand(ReadSum(PolyStr(coeffs)).value).value, Monomial(j)) == if j < |coeffs| then coeffs[j] else 0
  {
    ReadBack(coeffs);
    if NodeFrom(coeffs, 0).Some? {
      NodeCoefficients(coeffs, 0, j);
    } else {
      NoTermsAbove(coeffs, 0);
      assert Expand(Const(0)).value[1..] == [];
    }
  }
}
