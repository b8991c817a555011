/** Which terms are polynomials within the degree cap. */
module Degrees {
  // The expansion accepts exactly the terms of its grammar whose degree, read off the way they are
  // written, stays within the cap, and that degree is the degree of the table.

  import opened Collections
  import opened Arith
  import opened Polynomials

  function Larger(d: nat, e: nat): nat {
    if d >= e then d else e
  }

  /** The degree of a term as it is written, nothing cancelled. */
  function Degree(n: Node): nat {
    match n
    case Name(_) => 1
    case Neg(a) => Degree(a)
    case Add(a, b) => Larger(Degree(a), Degree(b))
    case Sub(a, b) => Larger(Degree(a), Degree(b))
    case Mul(a, b) => Degree(a) + Degree(b)
    case Pow(a, k) => if k.Const? && k.value >= 0 then Times(k.value, Degree(a)) else 0
    case _ => 0
  }

  function Times(k: nat, d: nat): nat {
    if k == 0 then 0 else Times(k - 1, d) + d
  }

  /** Integers and variables under signs, sums, products and small constant powers, no product or power
      above the cap. */
  predicate InGrammar(n: Node) {
    match n
    case Const(_) => true
    case Name(_) => true
    case Neg(a) => InGrammar(a)
    case Add(a, b) => InGrammar(a) && InGrammar(b)
    case Sub(a, b) => InGrammar(a) && InGrammar(b)
    case Mul(a, b) => InGrammar(a) && InGrammar(b) && Degree(n) <= MAX_DEGREE
    case Pow(a, k) => InGrammar(a) && k.Const? && 0 <= k.value <= MAX_EXP && Degree(n) <= MAX_DEGREE
    case _ => false
  }

  ghost predicate UpTo(p: Poly, d: int) {
    forall i :: 0 <= i < |p| ==> |p[i].mono| <= d
  }

  ghost predicate Attains(p: Poly, d: int) {
    exists i :: 0 <= i < |p| && |p[i].mono| == d
  }

  /** d is the largest degree in the table, entries that are zero included. */
  ghost predicate HasDegree(p: Poly, d: int) {
    UpTo(p, d) && Attains(p, d)
  }

  lemma {:induction false} AddTermDegree(p: Poly, mono: Mono, c: int, d: int)
    ensures UpTo(AddTerm(p, mono, c), d) <==> UpTo(p, d) && |mono| <= d
    ensures Attains(AddTerm(p, mono, c), d) <==> Attains(p, d) || |mono| == d
  {
    var r := AddTerm(p, mono, c);
    if p != [] {
      FirstDegree(p, d);
      FirstDegree(r, d);
      if p[0].mono != mono {
        AddTermDegree(p[1..], mono, c, d);
      }
    } else {
      FirstDegree(r, d);
    }
  }

  lemma FirstDegree(p: Poly, d: int)
    requires p != []
    ensures UpTo(p, d) <==> |p[0].mono| <= d && UpTo(p[1..], d)
    ensures Attains(p, d) <==> |p[0].mono| == d || Attains(p[1..], d)
  {
    assert forall i :: 0 < i < |p| ==> p[i] == p[1..][i - 1];
    if UpTo(p, d) {
      forall i | 0 <= i < |p[1..]| ensures |p[1..][i].mono| <= d {
        assert p[1..][i] == p[i + 1];
      }
    }
    if Attains(p[1..], d) {
      var i :| 0 <= i < |p[1..]| && |p[1..][i].mono| == d;
      assert p[i + 1] == p[1..][i];
    }
  }

  lemma {:induction false} AddPolyDegree(a: Poly, b: Poly, d: int)
    ensures UpTo(AddPoly(a, b), d) <==> UpTo(a, d) && UpTo(b, d)
    ensures Attains(AddPoly(a, b), d) <==> Attains(a, d) || Attains(b, d)
    decreases |b|
  {
    if b != [] {
      AddTermDegree(a, b[0].mono, b[0].coeff, d);
      AddPolyDegree(AddTerm(a, b[0].mono, b[0].coeff), b[1..], d);
      FirstDegree(b, d);
    }
  }

  lemma NegPolyDegree(a: Poly, d: int)
    ensures UpTo(NegPoly(a), d) <==> UpTo(a, d)
    ensures Attains(NegPoly(a), d) <==> Attains(a, d)
  {
    NegPolyKeys(a);
  }

  lemma SumDegree(a: Poly, b: Poly, d: nat, e: nat)
    requires HasDegree(a, d) && HasDegree(b, e)
    ensures HasDegree(AddPoly(a, b), Larger(d, e))
  {
    AddPolyDegree(a, b, Larger(d, e));
  }

  lemma ProductSize(a: Mono, b: Mono)
    ensures |a + b| == |a| + |b|
  {
  }

  lemma {:induction false} MulTermDegree(acc: Poly, t: Term, b: Poly, d: int)
    ensures MulTerm(acc, t, b).Some? <==> UpTo(b, MAX_DEGREE - |t.mono|)
    ensures MulTerm(acc, t, b).Some? ==> TermProduct(acc, t, b, MulTerm(acc, t, b).value, d)
    decreases |b|
  {
    if b != [] {
      FirstDegree(b, MAX_DEGREE - |t.mono|);
      FirstDegree(b, d - |t.mono|);
      ProductSize(t.mono, b[0].mono);
      if |t.mono + b[0].mono| <= MAX_DEGREE {
        var next := AddTerm(acc, t.mono + b[0].mono, t.coeff * b[0].coeff);
        AddTermDegree(acc, t.mono + b[0].mono, t.coeff * b[0].coeff, d);
        MulTermDegree(next, t, b[1..], d);
      }
    }
  }

  ghost predicate TermProduct(acc: Poly, t: Term, b: Poly, r: Poly, d: int) {
    && (UpTo(r, d) <==> UpTo(acc, d) && UpTo(b, d - |t.mono|))
    && (Attains(r, d) <==> Attains(acc, d) || Attains(b, d - |t.mono|))
  }

  /** Times a polynomial of degree e. */
  lemma {:induction false} MulIntoDegree(acc: Poly, a: Poly, b: Poly, e: nat, d: int)
    requires HasDegree(b, e)
    ensures MulInto(acc, a, b).Some? <==> UpTo(a, MAX_DEGREE - e)
    ensures MulInto(acc, a, b).Some? && UpTo(acc, d) && UpTo(a, d - e) ==> UpTo(MulInto(acc, a, b).value, d)
    ensures MulInto(acc, a, b).Some? && (Attains(acc, d) || Attains(a, d - e)) ==> Attains(MulInto(acc, a, b).value, d)
    decreases |a|
  {
    if a != [] {
      FirstDegree(a, MAX_DEGREE - e);
      FirstDegree(a, d - e);
      MulTermDegree(acc, a[0], b, d);
      DegreeBelow(b, e, MAX_DEGREE - |a[0].mono|);
      DegreeBelow(b, e, d - |a[0].mono|);
      if MulTerm(acc, a[0], b).Some? {
        MulIntoDegree(MulTerm(acc, a[0], b).value, a[1..], b, e, d);
      }
    }
  }

  lemma DegreeBelow(b: Poly, e: nat, d: int)
    requires HasDegree(b, e)
    ensures UpTo(b, d) <==> e <= d
  {
  }

  lemma ProductDegree(a: Poly, b: Poly, d: nat, e: nat)
    requires HasDegree(a, d) && HasDegree(b, e)
    ensures MulPoly(a, b).Some? <==> d + e <= MAX_DEGREE
    ensures MulPoly(a, b).Some? ==> HasDegree(MulPoly(a, b).value, d + e)
  {
    MulIntoDegree([], a, b, e, d + e);
    DegreeBelow(a, d, MAX_DEGREE - e);
  }

  lemma {:induction false} PowerDegree(a: Poly, d: nat, k: nat)
    requires HasDegree(a, d)
    ensures PowPoly(a, k).Some? <==> Times(k, d) <= MAX_DEGREE
    ensures PowPoly(a, k).Some? ==> HasDegree(PowPoly(a, k).value, Times(k, d))
  {
    if k == 0 {
      assert |ONE[0].mono| == 0;
    } else {
      PowerDegree(a, d, k - 1);
      if PowPoly(a, k - 1).Some? {
        ProductDegree(PowPoly(a, k - 1).value, a, Times(k - 1, d), d);
      }
    }
  }

  lemma OneDegree(mono: Mono, c: int)
    ensures HasDegree([Term(mono, c)], |mono|)
  {
    assert |[Term(mono, c)][0].mono| == |mono|;
  }

  /** A term expands exactly if it is in the grammar, and then to a table of its degree. */
  lemma {:induction false} ExpandsWhen(n: Node)
    ensures Expand(n).Some? <==> InGrammar(n)
    ensures InGrammar(n) ==> HasDegree(Expand(n).value, Degree(n))
  {
    match n
    case Const(v) => OneDegree(multiset{}, v);
    case Name(id) => OneDegree(multiset{id}, 1);
    case Neg(a) =>
      ExpandsWhen(a);
      if InGrammar(a) {
        NegPolyDegree(Expand(a).value, Degree(a));
      }
    case Add(a, b) =>
      ExpandsWhen(a);
      ExpandsWhen(b);
      if InGrammar(n) {
        SumDegree(Expand(a).value, Expand(b).value, Degree(a), Degree(b));
      }
    case Sub(a, b) =>
      ExpandsWhen(a);
      ExpandsWhen(b);
      if InGrammar(n) {
        NegPolyDegree(Expand(b).value, Degree(b));
        SumDegree(Expand(a).value, NegPoly(Expand(b).value), Degree(a), Degree(b));
      }
    case Mul(a, b) =>
      ExpandsWhen(a);
      ExpandsWhen(b);
      if InGrammar(a) && InGrammar(b) {
        ProductDegree(Expand(a).value, Expand(b).value, Degree(a), Degree(b));
      }
    case Pow(a, k) =>
      ExpandsWhen(a);
      if InGrammar(a) && k.Const? && 0 <= k.value <= MAX_EXP {
        PowerDegree(Expand(a).value, Degree(a), k.value);
      }
    case _ =>
  }
}
