/** Which candidates are mined. */
module MinedClaims {
  // Which candidates give a pattern, by their coefficients and residues alone: what the recognition of
  // the written claim and the test for constant claims come to.

  import opened Collections
  import opened Arith
  import opened Congruence
  import opened Polynomials
  import opened NormalForms
  import opened Signatures
  import opened Memberships
  import opened PolyText
  import opened PatternMining

  // ----- The expansion of the written polynomial

  lemma BodyNames(mag: nat, power: nat)
    ensures Names(BodyNode(mag, power)) <= {N}
  {
    assert Names(VariableNode(power)) <= {N};
  }

  lemma {:induction false} NodeNames(coeffs: seq<int>, k: nat)
    requires k <= |coeffs|
    ensures NodeFrom(coeffs, k).Some? ==> Names(NodeFrom(coeffs, k).value) <= {N}
    decreases |coeffs| - k
  {
    if k < |coeffs| {
      NodeNames(coeffs, k + 1);
      NodeCases(coeffs, k);
      BodyNames(Abs(coeffs[k]), k);
      FirstNames(coeffs[k], k);
    }
  }

  lemma FirstNames(c: int, power: nat)
    ensures Names(FirstNode(c, power)) <= {N}
  {
    BodyNames(Abs(c), power);
    assert Names(VariableNode(power)) <= {N};
  }

  lemma PolyNames(coeffs: seq<int>)
    ensures Names(PolyNode(coeffs)) <= {N}
  {
    NodeNames(coeffs, 0);
  }

  lemma OnlyMonomials(mono: Mono)
    requires Over(mono, {N})
    ensures mono == Monomial(|mono|)
  {
    MonomialSize(|mono|);
    MonoByDegree(mono, Monomial(|mono|), {N});
  }

  /** The coefficient of any monomial in the expansion. */
  function CoeffAt(coeffs: seq<int>, mono: Mono): int {
    if mono == Monomial(|mono|) && |mono| < |coeffs| then coeffs[|mono|] else 0
  }

  lemma PolyExpands(coeffs: seq<int>) returns (p: Poly)
    requires |coeffs| <= MAX_EXP + 1
    ensures Expand(PolyNode(coeffs)) == Some(p) && Table(p, {N})
    ensures forall mono :: CoeffOf(p, mono) == CoeffAt(coeffs, mono)
  {
    ReadBack(coeffs);
    CoefficientsReturn(coeffs, 0);
    p := Expand(PolyNode(coeffs)).value;
    PolyNames(coeffs);
    ExpandTable(PolyNode(coeffs), {N});
    forall mono ensures CoeffOf(p, mono) == CoeffAt(coeffs, mono) {
      if mono == Monomial(|mono|) {
        CoefficientsReturn(coeffs, |mono|);
      } else {
        if i :| 0 <= i < |p| && p[i].mono == mono {
          OnlyMonomials(mono);
        }
        AbsentMono(p, mono);
      }
    }
  }

  // ----- What the claims are signed

  /** Every coefficient but the constant one vanishes modulo m. */
  predicate ConstantBy(coeffs: seq<int>, m: nat)
    requires m > 0
  {
    forall k :: 1 <= k < |coeffs| ==> coeffs[k] % m == 0
  }

  lemma {:induction false} ConstantValue(coeffs: seq<int>, m: nat, x: int, k: nat)
    requires m > 0 && 1 <= k <= |coeffs| && ConstantBy(coeffs, m)
    ensures Cong(PolyValue(coeffs, x, k), coeffs[0], m)
  {
    if k == 1 {
      assert PolyValue(coeffs, x, 1) == PolyValue(coeffs, x, 0) + coeffs[0] * Power(x, 0);
      CongRefl(coeffs[0], m);
    } else {
      ConstantValue(coeffs, m, x, k - 1);
      CongMeansResidue(coeffs[k - 1], 0, m);
      CongScale(Power(x, k - 1), coeffs[k - 1], 0, m);
      CongAdd(PolyValue(coeffs, x, k - 1), coeffs[0], coeffs[k - 1] * Power(x, k - 1), 0, m);
    }
  }

  lemma ConstantTakesOne(coeffs: seq<int>, m: nat)
    requires m > 0 && coeffs != [] && ConstantBy(coeffs, m)
    ensures TakenBelow(coeffs, m) == {coeffs[0] % m}
  {
    forall x ensures ResidueAt(coeffs, m, x) == coeffs[0] % m {
      ConstantValue(coeffs, m, x, |coeffs|);
      CongMeansResidue(PolyValue(coeffs, x, |coeffs|), coeffs[0], m);
    }
    assert ResidueAt(coeffs, m, 0) == coeffs[0] % m;
  }

  /** The polynomial minus a residue vanishes modulo m exactly if its coefficients do, and the constant one
      is that residue. */
  lemma ShiftVanishes(coeffs: seq<int>, m: nat, p: Poly, r: int)
    requires m > 0 && 0 <= r < m && coeffs != [] && forall mono :: CoeffOf(p, mono) == CoeffAt(coeffs, mono)
    ensures Vanishes(AddPoly(p, [Term(multiset{}, -r)]), m) <==> ConstantBy(coeffs, m) && coeffs[0] % m == r
  {
    var one := [Term(multiset{}, -r)];
    assert one[1..] == [];
    assert multiset{} == Monomial(0);
    forall mono ensures CoeffOf(AddPoly(p, one), mono) == CoeffAt(coeffs, mono) - if mono == multiset{} then r else 0 {
      AddPolyCoeff(p, one, mono);
    }
    ResidueApart(coeffs[0], r, m);
    if Vanishes(AddPoly(p, one), m) {
      forall k | 1 <= k < |coeffs| ensures coeffs[k] % m == 0 {
        MonomialSize(k);
        assert CoeffOf(AddPoly(p, one), Monomial(k)) % m == 0;
      }
      assert CoeffOf(AddPoly(p, one), Monomial(0)) % m == 0;
    }
    if ConstantBy(coeffs, m) && coeffs[0] % m == r {
      ZeroResidue(m);
      forall mono ensures CoeffOf(AddPoly(p, one), mono) % m == 0 {
        if mono == multiset{} {
          assert CoeffAt(coeffs, mono) == coeffs[0];
        } else {
          NonEmptySize(mono);
        }
      }
    }
  }

  lemma NonEmptySize(mono: Mono)
    requires mono != multiset{}
    ensures |mono| >= 1
  {
  }

  lemma ResidueApart(a: int, r: int, m: int)
    requires 0 <= r < m
    ensures (a - r) % m == 0 <==> a % m == r
  {
    CongMeansResidue(a, r, m);
    CongMeansResidue(a - r, 0, m);
    SmallResidue(r, m);
    assert (a - r) - 0 == a - r;
  }

  lemma ClaimNames(op: CmpOp, coeffs: seq<int>, m: nat, right: Node)
    requires right.Const? || (right.Literal? && AllConst(right.elts))
    ensures OneVariable(Compare(op, Node.Mod(PolyNode(coeffs), Const(m)), right)) && OneVariable(PolyNode(coeffs))
  {
    PolyNames(coeffs);
    assert Names(right) == {} && Names(Const(m)) == {};
    var left := Node.Mod(PolyNode(coeffs), Const(m));
    assert Names(left) == Names(PolyNode(coeffs)) + Names(Const(m));
    assert Names(Compare(op, left, right)) == Names(left) + Names(right);
    SubsetSize(Names(Compare(op, left, right)), {N});
    SubsetSize(Names(PolyNode(coeffs)), {N});
  }

  /** An equality or inequality is always signed. */
  lemma EquationSigned(op: CmpOp, coeffs: seq<int>, m: nat, r: int, p: Poly)
    requires (op.Eq? || op.NotEq?) && m >= 2 && 0 <= r < m && Expand(PolyNode(coeffs)) == Some(p)
    ensures CongruenceSig(Compare(op, Node.Mod(PolyNode(coeffs), Const(m)), Const(r)))
         == Some(Atom(op.Eq?, m, Normalize(AddPoly(p, [Term(multiset{}, -r)]), m, true)))
  {
    var left, right := Node.Mod(PolyNode(coeffs), Const(m)), Const(r);
    ClaimNames(op, coeffs, m, right);
    assert DifferenceOf(left, right, true) == Some(Difference(AddPoly(p, [Term(multiset{}, -r)]), m));
    AtomIsClaim(Compare(op, left, right));
  }

  lemma EquationConstant(op: CmpOp, coeffs: seq<int>, m: nat, r: int)
    requires (op.Eq? || op.NotEq?) && m >= 2 && 0 <= r < m && 1 <= |coeffs| <= MAX_EXP + 1
    ensures var sig := CongruenceSig(Compare(op, Node.Mod(PolyNode(coeffs), Const(m)), Const(r)));
      sig.Some? && (Constant(sig.value) <==> ConstantBy(coeffs, m) && coeffs[0] % m == r)
  {
    var p := PolyExpands(coeffs);
    EquationSigned(op, coeffs, m, r, p);
    ShiftVanishes(coeffs, m, p, r);
    var one := [Term(multiset{}, -r)];
    ConstTable(-r, {N});
    AddPolyTable(p, one, {N});
    VanishingReduces(AddPoly(p, one), m, {N});
  }

  lemma ResiduesTaken(coeffs: seq<int>, m: nat, p: Poly)
    requires 2 <= m <= RESIDUE_BOUND + 1 && |coeffs| <= MAX_EXP + 1 && Expand(PolyNode(coeffs)) == Some(p)
    ensures ResidueSet(p, m) == Some(TakenBelow(coeffs, m))
  {
    ClaimNames(Eq, coeffs, m, Const(0));
    PolyNames(coeffs);
    forall x ensures UniValue(p, x) == PolyValue(coeffs, x, |coeffs|) {
      TermIsUni(PolyNode(coeffs), p, Everywhere(x), x);
      PolyNodeValue(coeffs, Everywhere(x));
    }
    forall r ensures r in ResidueSet(p, m).value <==> r in TakenBelow(coeffs, m) {
      ResiduesExact(p, m, r);
      if x :| Leaves(p, m, x, r) {
        assert ResidueAt(coeffs, m, x) == r;
      }
      if Taken(coeffs, m, r) {
        var x :| ResidueAt(coeffs, m, x) == r;
        assert Leaves(p, m, x, r);
      }
    }
    assert ResidueSet(p, m).value == TakenBelow(coeffs, m);
  }

  /** A list of residues is signed if they can be enumerated, and never constant. */
  lemma ListSigned(coeffs: seq<int>, m: nat, rs: seq<int>)
    requires 2 <= m && 1 <= |coeffs| <= MAX_EXP + 1 && rs != [] && |TakenBelow(coeffs, m)| != 1
    ensures var sig := CongruenceSig(Compare(In, Node.Mod(PolyNode(coeffs), Const(m)), Literal(Constants(rs))));
      (sig.Some? <==> m <= RESIDUE_BOUND + 1) && (sig.Some? ==> !Constant(sig.value))
    ensures !ConstantBy(coeffs, m)
  {
    var p := PolyExpands(coeffs);
    ClaimNames(In, coeffs, m, Literal(Constants(rs)));
    if ConstantBy(coeffs, m) {
      ConstantTakesOne(coeffs, m);
    }
    if m <= RESIDUE_BOUND + 1 {
      ResiduesTaken(coeffs, m, p);
      DegreesHold(p, m, {N});
      VanishingReduces(p, m, {N});
      if Vanishes(p, m) {
        forall k | 1 <= k < |coeffs| ensures coeffs[k] % m == 0 {
          MonomialSize(k);
          assert CoeffOf(p, Monomial(k)) % m == 0;
        }
      }
    }
  }

  // ----- Which candidates are mined

  /** Some residue is missed, some coefficient beside the constant one survives modulo m, and the residues
      are few enough to enumerate or told by one of them. */
  ghost predicate Mineable(c: Candidate)
    requires Allowed(c)
  {
    && !Vacuous(c) && !ConstantBy(c.coeffs, c.m)
    && (c.m <= RESIDUE_BOUND + 1 || |TakenBelow(c.coeffs, c.m)| == 1 || |TakenBelow(c.coeffs, c.m)| == c.m - 1)
  }

  lemma SomeTaken(coeffs: seq<int>, m: nat) returns (r: int)
    requires m > 0
    ensures 0 <= r < m && Taken(coeffs, m, r)
  {
    r := ResidueAt(coeffs, m, 0);
  }

  /** The residue that an equality or inequality names. */
  lemma NamedResidue(claim: Node, c: Candidate) returns (r: int)
    requires Allowed(c) && !Vacuous(c) && Says(claim, c.coeffs, c.m) && (claim.op.Eq? || claim.op.NotEq?)
    ensures 0 <= r < c.m && claim == Compare(claim.op, Node.Mod(PolyNode(c.coeffs), Const(c.m)), Const(r))
    ensures claim.op.Eq? <==> Taken(c.coeffs, c.m, r)
  {
    var taken := SomeTaken(c.coeffs, c.m);
    assert Accepts(claim.op, claim.right, taken);
    if claim.op.Eq? {
      r := taken;
    } else {
      r :| 0 <= r < c.m && !Taken(c.coeffs, c.m, r);
      assert !Accepts(claim.op, claim.right, r);
    }
  }

  lemma ConstantIsEquation(c: Candidate, claim: Node)
    requires Allowed(c) && Says(claim, c.coeffs, c.m) && ConstantBy(c.coeffs, c.m)
    ensures claim.op.Eq? && TakenBelow(c.coeffs, c.m) == {c.coeffs[0] % c.m}
  {
    ConstantTakesOne(c.coeffs, c.m);
  }

  /** What becomes of the claim of a candidate. */
  lemma ClaimFate(c: Candidate, claim: Node)
    requires Allowed(c) && !Vacuous(c) && Says(claim, c.coeffs, c.m)
    ensures CongruenceSig(claim).Some? <==> c.m <= RESIDUE_BOUND + 1 || !claim.op.In?
    ensures CongruenceSig(claim).Some? ==> (Constant(CongruenceSig(claim).value) <==> ConstantBy(c.coeffs, c.m))
  {
    if ConstantBy(c.coeffs, c.m) {
      ConstantIsEquation(c, claim);
    }
    if claim.op.In? {
      var rs :| Increasing(rs) && claim.right == Literal(Constants(rs));
      var taken := SomeTaken(c.coeffs, c.m);
      assert Accepts(claim.op, claim.right, taken);
      ListSigned(c.coeffs, c.m, rs);
    } else {
      var r := NamedResidue(claim, c);
      EquationConstant(claim.op, c.coeffs, c.m, r);
      if ConstantBy(c.coeffs, c.m) {
        assert r in TakenBelow(c.coeffs, c.m);
      }
    }
  }

  /** A candidate is mined exactly if it is mineable and its claim is not known, whatever else is. */
  lemma MinedWhen(c: Candidate, known: set<Sig>)
    requires Allowed(c)
    ensures Mineable(c) ==> CongruenceSig(Claimed(c)).Some?
    ensures PatternOf(c, known).Some? <==> Mineable(c) && CongruenceSig(Claimed(c)).value !in known
  {
    PatternMined(c, known);
    if !Vacuous(c) {
      VacuousMeansNone(c);
      PropertySays(c.coeffs, c.m, PeriodResidues(c.coeffs, c.m, c.m));
      ClaimFate(c, Claimed(c));
    }
  }

  // ----- The families patterns are spread over

  /** The largest degree whose coefficient survives modulo m. */
  predicate DegreeModulo(coeffs: seq<int>, m: nat, d: nat)
    requires m > 0
  {
    d < |coeffs| && coeffs[d] % m != 0 && forall k :: d < k < |coeffs| ==> coeffs[k] % m == 0
  }

  lemma {:induction false} DegreeIsMonomial(p: Poly, d: nat)
    requires forall i :: 0 <= i < |p| ==> Over(p[i].mono, {N})
    ensures DegreeCoeff(p, d) == CoeffOf(p, Monomial(d))
  {
    if p != [] {
      DegreeIsMonomial(p[1..], d);
      OnlyMonomials(p[0].mono);
      MonomialSize(d);
    }
  }

  /** The table lists, above degree zero, the coefficients that survive. */
  ghost predicate ListsSurvivors(f: map<nat, int>, coeffs: seq<int>, m: nat)
    requires m > 0
  {
    forall d: nat :: d >= 1 ==> (d in f <==> Survives(coeffs, m, d))
  }

  predicate Survives(coeffs: seq<int>, m: nat, d: nat)
    requires m > 0
  {
    d < |coeffs| && coeffs[d] % m != 0
  }

  lemma HighestSurvivor(f: map<nat, int>, coeffs: seq<int>, m: nat)
    requires m > 0 && |coeffs| <= MAX_DEGREE && ListsSurvivors(f, coeffs, m) && !ConstantBy(coeffs, m)
    ensures DegreeModulo(coeffs, m, HighestUpTo(f, MAX_DEGREE))
  {
    var k :| 1 <= k < |coeffs| && coeffs[k] % m != 0;
    var top := HighestUpTo(f, MAX_DEGREE);
    assert Survives(coeffs, m, k);
    HighestIsLargest(f, MAX_DEGREE, k);
    assert Survives(coeffs, m, top);
    forall d | top < d < |coeffs| ensures coeffs[d] % m == 0 {
      if Survives(coeffs, m, d) {
        HighestIsLargest(f, MAX_DEGREE, d);
      }
    }
  }

  lemma ShiftedCoeff(coeffs: seq<int>, m: nat, p: Poly, c: int, d: nat)
    requires m > 0 && d >= 1 && Table(p, {N}) && forall mono :: CoeffOf(p, mono) == CoeffAt(coeffs, mono)
    ensures DegreeCoeff(AddPoly(p, [Term(multiset{}, c)]), d) == DegreeCoeff(p, d) == CoeffAt(coeffs, Monomial(d))
    ensures Survives(coeffs, m, d) <==> DegreeCoeff(p, d) % m != 0
  {
    var one := [Term(multiset{}, c)];
    ConstTable(c, {N});
    AddPolyTable(p, one, {N});
    DegreeIsMonomial(AddPoly(p, one), d);
    DegreeIsMonomial(p, d);
    AddPolyCoeff(p, one, Monomial(d));
    MonomialSize(d);
    ZeroResidue(m);
    assert one[1..] == [] && multiset{} == Monomial(0);
  }

  lemma EquationSurvivors(op: CmpOp, coeffs: seq<int>, m: nat, r: int) returns (f: map<nat, int>)
    requires (op.Eq? || op.NotEq?) && m >= 2 && 0 <= r < m && 1 <= |coeffs| <= MAX_EXP + 1 && !ConstantBy(coeffs, m)
    ensures CongruenceSig(Compare(op, Node.Mod(PolyNode(coeffs), Const(m)), Const(r))) == Some(Atom(op.Eq?, m, Uni(f)))
    ensures ListsSurvivors(f, coeffs, m)
  {
    var p := PolyExpands(coeffs);
    var q := AddPoly(p, [Term(multiset{}, -r)]);
    EquationSigned(op, coeffs, m, r, p);
    ConstTable(-r, {N});
    AddPolyTable(p, [Term(multiset{}, -r)], {N});
    ShiftVanishes(coeffs, m, p, r);
    VanishingReduces(q, m, {N});
    SurvivingDegrees(q, m, {N}, 0);
    f := Normalize(q, m, true).degrees;
    forall d: nat | d >= 1 ensures d in f <==> Survives(coeffs, m, d) {
      SurvivingDegrees(q, m, {N}, d);
      ShiftedCoeff(coeffs, m, p, -r, d);
    }
  }

  lemma ListSurvivors(coeffs: seq<int>, m: nat, rs: seq<int>, p: Poly)
    requires 2 <= m && 1 <= |coeffs| <= MAX_EXP + 1 && rs != [] && |TakenBelow(coeffs, m)| != 1
    requires Expand(PolyNode(coeffs)) == Some(p) && m <= RESIDUE_BOUND + 1 && Table(p, {N})
    requires forall mono :: CoeffOf(p, mono) == CoeffAt(coeffs, mono)
    ensures CongruenceSig(Compare(In, Node.Mod(PolyNode(coeffs), Const(m)), Literal(Constants(rs))))
         == Some(Residues(true, m, ByDegree(Reduce(p, m)), TakenBelow(coeffs, m)))
    ensures ListsSurvivors(ByDegree(Reduce(p, m)), coeffs, m)
  {
    ClaimNames(In, coeffs, m, Literal(Constants(rs)));
    ResiduesTaken(coeffs, m, p);
    DegreesHold(p, m, {N});
    forall d: nat | d >= 1 ensures d in ByDegree(Reduce(p, m)) <==> Survives(coeffs, m, d) {
      ShiftedCoeff(coeffs, m, p, 0, d);
      assert DegreeCoeffs(p)(d) == DegreeCoeff(p, d);
    }
  }

  /** A mined pattern belongs to the family of its modulus and of its degree modulo that. */
  lemma FamilyOf(c: Candidate, known: set<Sig>)
    requires Allowed(c) && PatternOf(c, known).Some?
    ensures var k := KeyOf(PatternOf(c, known).value); DegreeModulo(c.coeffs, c.m, k.0) && k.1 == c.m
  {
    var pattern := PatternOf(c, known).value;
    MinedWhen(c, known);
    PatternSound(c, known);
    var claim := pattern.prop;
    if claim.op.In? {
      var rs :| Increasing(rs) && claim.right == Literal(Constants(rs));
      var taken := SomeTaken(c.coeffs, c.m);
      assert Accepts(claim.op, claim.right, taken);
      var p := PolyExpands(c.coeffs);
      ListSurvivors(c.coeffs, c.m, rs, p);
      HighestSurvivor(ByDegree(Reduce(p, c.m)), c.coeffs, c.m);
    } else {
      var r := NamedResidue(claim, c);
      var f := EquationSurvivors(claim.op, c.coeffs, c.m, r);
      HighestSurvivor(f, c.coeffs, c.m);
    }
  }
}
