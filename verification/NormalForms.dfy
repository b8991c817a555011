/** Normal forms of polynomials modulo m: reduced coefficients, and for a single variable and a prime
    modulus a leading coefficient of one. */
module NormalForms {
  import opened Arith
  import opened Congruence
  import opened Polynomials

  // ----- Normal forms of polynomials modulo m

  /** A sorted tuple of pairs with distinct keys is the table it lists. */
  datatype Norm = Zero | Uni(degrees: map<nat, int>) | Multi(monos: map<Mono, int>)

  /** The terms that survive modulo m, with reduced coefficients. */
  function Reduce(p: Poly, m: int): Poly
    requires m > 0
  {
    if p == [] then []
    else (if p[0].coeff % m != 0 then [Term(p[0].mono, p[0].coeff % m)] else []) + Reduce(p[1..], m)
  }

  function ByDegree(p: Poly): map<nat, int> {
    if p == [] then map[] else map[|p[0].mono| := p[0].coeff] + ByDegree(p[1..])
  }

  function ByMono(p: Poly): map<Mono, int> {
    if p == [] then map[] else map[p[0].mono := p[0].coeff] + ByMono(p[1..])
  }

  function TopDegree(p: Poly): (d: nat)
    requires p != []
    ensures d in ByDegree(p)
    ensures forall i :: 0 <= i < |p| ==> |p[i].mono| <= d
  {
    if |p| == 1 then |p[0].mono|
    else
      var d := TopDegree(p[1..]);
      assert forall i :: 0 < i < |p| ==> p[i] == p[1..][i - 1];
      if d >= |p[0].mono| then d else |p[0].mono|
  }

  function Scale(f: map<nat, int>, factor: int, m: int): map<nat, int>
    requires m > 0
  {
    map e | e in f :: (f[e] * factor) % m
  }

  /** Reduce; for a single variable and a prime modulus, also divide by the leading coefficient. */
  function Normalize(p: Poly, m: nat, single: bool): Norm
    requires m > 0
  {
    var r := Reduce(p, m);
    if r == [] then Zero
    else if !single then Multi(ByMono(r))
    else if Prime(m) then Uni(Monic(r, m))
    else Uni(ByDegree(r))
  }

  function LeadCoeff(r: Poly): int
    requires r != []
  {
    ByDegree(r)[TopDegree(r)]
  }

  function Monic(r: Poly, m: nat): map<nat, int>
    requires r != [] && m > 0
  {
    Scale(ByDegree(r), Inverse(LeadCoeff(r) % m, m), m)
  }

  // ----- Their values

  ghost function PickKey<K>(s: set<K>): (k: K)
    requires s != {}
    ensures k in s
  {
    var k :| k in s; k
  }

  /** The sum of the coefficients times the values of their keys. */
  ghost function MapSum<K>(f: map<K, int>, value: K -> int): int
    decreases |f|
  {
    if f == map[] then 0
    else var k := PickKey(f.Keys); f[k] * value(k) + MapSum(f - {k}, value)
  }

  lemma {:induction false} MapTakeOut<K>(f: map<K, int>, value: K -> int, k: K)
    requires k in f
    ensures MapSum(f, value) == f[k] * value(k) + MapSum(f - {k}, value)
    decreases |f|
  {
    var y := PickKey(f.Keys);
    if y != k {
      MapTakeOut(f - {y}, value, k);
      MapTakeOut(f - {k}, value, y);
      assert (f - {y}) - {k} == (f - {k}) - {y};
    }
  }

  lemma MapAddKey<K>(f: map<K, int>, value: K -> int, k: K, c: int)
    requires k !in f
    ensures MapSum(map[k := c] + f, value) == c * value(k) + MapSum(f, value)
  {
    var g := map[k := c] + f;
    MapTakeOut(g, value, k);
    assert g - {k} == f;
  }

  ghost function PowerOf(x: int): nat -> int {
    (e: nat) => Power(x, e)
  }

  ghost function ValueAt(env: Env): Mono -> int {
    (mono: Mono) => MonoValue(mono, env)
  }

  /** The value at an assignment, or for a single variable at its value x. */
  ghost function NormValue(n: Norm, env: Env, x: int): int {
    match n
    case Zero => 0
    case Uni(f) => MapSum(f, PowerOf(x))
    case Multi(f) => MapSum(f, ValueAt(env))
  }

  lemma {:induction false} ReduceValue(p: Poly, m: int, env: Env)
    requires m > 0
    ensures Cong(Value(Reduce(p, m), env), Value(p, env), m)
  {
    if p == [] {
      CongRefl(0, m);
    } else {
      ReduceValue(p[1..], m, env);
      var c, v := p[0].coeff, MonoValue(p[0].mono, env);
      CongResidue(c, m);
      CongScale(v, c % m, c, m);
      assert v * c == c * v && v * (c % m) == (c % m) * v;
      CongAdd((c % m) * v, c * v, Value(Reduce(p[1..], m), env), Value(p[1..], env), m);
      if c % m != 0 {
        assert Reduce(p, m)[1..] == Reduce(p[1..], m);
      } else {
        assert (c % m) * v == 0 && Reduce(p, m) == Reduce(p[1..], m);
      }
    }
  }

  lemma {:induction false} ReduceTable(p: Poly, m: int, names: set<string>)
    requires m > 0 && Table(p, names)
    ensures Table(Reduce(p, m), names)
    ensures forall i :: 0 <= i < |Reduce(p, m)| ==> 0 < Reduce(p, m)[i].coeff < m
    ensures forall i :: 0 <= i < |Reduce(p, m)| ==> HasMono(p, Reduce(p, m)[i].mono)
  {
    if p != [] {
      var rest := Reduce(p[1..], m);
      ReduceTable(p[1..], m, names);
      forall i | 0 <= i < |rest| ensures HasMono(p, rest[i].mono) && rest[i].mono != p[0].mono {
        var j :| 0 <= j < |p[1..]| && p[1..][j].mono == rest[i].mono;
        assert p[j + 1].mono == rest[i].mono;
      }
    }
  }

  ghost predicate HasMono(p: Poly, mono: Mono) {
    exists i :: 0 <= i < |p| && p[i].mono == mono
  }

  lemma {:induction false} ByMonoValue(p: Poly, env: Env)
    requires forall i, j :: 0 <= i < j < |p| ==> p[i].mono != p[j].mono
    ensures MapSum(ByMono(p), ValueAt(env)) == Value(p, env)
    ensures forall mono :: mono in ByMono(p) ==> HasMono(p, mono)
  {
    if p != [] {
      ByMonoValue(p[1..], env);
      forall mono | mono in ByMono(p[1..]) ensures HasMono(p, mono) && mono != p[0].mono {
        var j :| 0 <= j < |p[1..]| && p[1..][j].mono == mono;
        assert p[j + 1].mono == mono;
      }
      MapAddKey(ByMono(p[1..]), ValueAt(env), p[0].mono, p[0].coeff);
      assert p[0].mono == p[0].mono && HasMono(p, p[0].mono);
    }
  }

  ghost predicate HasDegree(p: Poly, d: nat) {
    exists i :: 0 <= i < |p| && |p[i].mono| == d
  }

  ghost predicate DistinctDegrees(p: Poly) {
    forall i, j :: 0 <= i < j < |p| ==> |p[i].mono| != |p[j].mono|
  }

  ghost predicate PowersAt(p: Poly, env: Env, x: int) {
    forall i :: 0 <= i < |p| ==> MonoValue(p[i].mono, env) == Power(x, |p[i].mono|)
  }

  lemma {:induction false} ByDegreeValue(p: Poly, env: Env, x: int)
    requires DistinctDegrees(p) && PowersAt(p, env, x)
    ensures MapSum(ByDegree(p), PowerOf(x)) == Value(p, env)
    ensures forall d :: d in ByDegree(p) ==> HasDegree(p, d)
  {
    if p != [] {
      ByDegreeValue(p[1..], env, x);
      forall d | d in ByDegree(p[1..]) ensures HasDegree(p, d) && d != |p[0].mono| {
        var j :| 0 <= j < |p[1..]| && |p[1..][j].mono| == d;
        assert |p[j + 1].mono| == d;
      }
      MapAddKey<nat>(ByDegree(p[1..]), PowerOf(x), |p[0].mono|, p[0].coeff);
      assert HasDegree(p, |p[0].mono|);
    }
  }

  lemma {:induction false} ByDegreeRange(p: Poly, m: int)
    requires forall i :: 0 <= i < |p| ==> 0 < p[i].coeff < m
    ensures forall d :: d in ByDegree(p) ==> 0 < ByDegree(p)[d] < m
  {
    if p != [] {
      ByDegreeRange(p[1..], m);
    }
  }

  lemma {:induction false} ScaleValue(f: map<nat, int>, factor: int, m: int, value: nat -> int)
    requires m > 0
    ensures Cong(MapSum(Scale(f, factor, m), value), factor * MapSum(f, value), m)
    decreases |f|
  {
    if f == map[] {
      assert Scale(f, factor, m) == map[];
      CongRefl(0, m);
    } else {
      var k := PickKey(f.Keys);
      var g := Scale(f, factor, m);
      ScaleValue(f - {k}, factor, m, value);
      assert g - {k} == Scale(f - {k}, factor, m);
      MapTakeOut(g, value, k);
      ScaledTerm(f[k], factor, m, value(k), MapSum(g - {k}, value), MapSum(f - {k}, value));
    }
  }

  lemma ScaledTerm(c: int, factor: int, m: int, v: int, left: int, right: int)
    requires m > 0 && Cong(left, factor * right, m)
    ensures Cong((c * factor) % m * v + left, factor * (c * v + right), m)
  {
    CongResidue(c * factor, m);
    CongScale(v, (c * factor) % m, c * factor, m);
    CongAdd(v * ((c * factor) % m), v * (c * factor), left, factor * right, m);
    Distribute(factor, c * v, right);
    assert v * (c * factor) == factor * (c * v);
  }

  // ----- A single variable

  lemma {:induction false} MonoPower(mono: Mono, names: set<string>, env: Env, x: int)
    requires Over(mono, names) && forall y :: y in names ==> env(y) == x
    ensures MonoValue(mono, env) == Power(x, |mono|)
    decreases |mono|
  {
    if mono != multiset{} {
      var y := Pick(mono);
      MonoPower(mono - multiset{y}, names, env, x);
      assert |mono - multiset{y}| == |mono| - 1;
    }
  }

  lemma AtMostOne<T>(s: set<T>, a: T, b: T)
    requires |s| <= 1 && a in s && b in s
    ensures a == b
  {
    assert s == {a} + (s - {a});
    assert |s - {a}| == 0;
  }

  lemma {:induction false} MonoByDegree(a: Mono, b: Mono, names: set<string>)
    requires |names| <= 1 && Over(a, names) && Over(b, names) && |a| == |b|
    ensures a == b
    decreases |a|
  {
    if a != multiset{} {
      var x, y := Pick(a), Pick(b);
      AtMostOne(names, x, y);
      MonoByDegree(a - multiset{x}, b - multiset{x}, names);
      assert a == (a - multiset{x}) + multiset{x} && b == (b - multiset{x}) + multiset{x};
    }
  }

  /** The variables are names, and if there is at most one, x is its value. */
  ghost predicate Reads(single: bool, names: set<string>, env: Env, x: int) {
    single ==> |names| <= 1 && forall y :: y in names ==> env(y) == x
  }

  lemma SingleVariable(p: Poly, names: set<string>, env: Env, x: int)
    requires Table(p, names) && Reads(true, names, env, x)
    ensures DistinctDegrees(p) && PowersAt(p, env, x)
  {
    forall i | 0 <= i < |p| ensures MonoValue(p[i].mono, env) == Power(x, |p[i].mono|) {
      MonoPower(p[i].mono, names, env, x);
    }
    forall i, j | 0 <= i < j < |p| ensures |p[i].mono| != |p[j].mono| {
      if |p[i].mono| == |p[j].mono| {
        MonoByDegree(p[i].mono, p[j].mono, names);
      }
    }
  }

  lemma LeadInvertible(r: Poly, m: nat, c: int)
    requires Prime(m) && r != [] && c == LeadCoeff(r) && forall i :: 0 <= i < |r| ==> 0 < r[i].coeff < m
    ensures c % m == c && Cong(c * Inverse(c % m, m), 1, m)
  {
    ByDegreeRange(r, m);
    SmallResidue(c, m);
    InverseInverts(c, m);
  }

  lemma MonicZero(r: Poly, m: nat, env: Env, x: int)
    requires Prime(m) && r != [] && DistinctDegrees(r) && PowersAt(r, env, x)
    requires forall i :: 0 <= i < |r| ==> 0 < r[i].coeff < m
    ensures Cong(MapSum(Monic(r, m), PowerOf(x)), 0, m) <==> Cong(Value(r, env), 0, m)
  {
    LeadInvertible(r, m, LeadCoeff(r));
    ByDegreeValue(r, env, x);
    MonicKeepsZero(ByDegree(r), LeadCoeff(r), Inverse(LeadCoeff(r) % m, m), m, PowerOf(x));
  }

  lemma MonicKeepsZero(f: map<nat, int>, c: int, u: int, m: int, value: nat -> int)
    requires m > 0 && Cong(c * u, 1, m)
    ensures Cong(MapSum(Scale(f, u, m), value), 0, m) <==> Cong(MapSum(f, value), 0, m)
  {
    var v := MapSum(f, value);
    ScaleValue(f, u, m, value);
    UnitKeepsZero(c, u, v, m);
    CongZero(MapSum(Scale(f, u, m), value), u * v, m);
  }

  lemma CongZero(a: int, b: int, m: int)
    requires Cong(a, b, m)
    ensures Cong(a, 0, m) <==> Cong(b, 0, m)
  {
    CongSym(a, b, m);
    if Cong(a, 0, m) {
      CongTrans(b, a, 0, m);
    }
    if Cong(b, 0, m) {
      CongTrans(a, b, 0, m);
    }
  }

  /** The normal form vanishes modulo m exactly where the polynomial does. For a single variable only
      its value counts, not the assignment the normal form is read at. */
  lemma NormalizeKeepsZeros(p: Poly, m: nat, single: bool, names: set<string>, env: Env, at: Env, x: int)
    requires m > 0 && Table(p, names) && Reads(single, names, env, x) && (single || at == env)
    ensures Cong(NormValue(Normalize(p, m, single), at, x), 0, m) <==> Cong(Value(p, env), 0, m)
  {
    var r := Reduce(p, m);
    ReduceTable(p, m, names);
    ReduceValue(p, m, env);
    CongZero(Value(r, env), Value(p, env), m);
    if r != [] {
      if single {
        SingleVariable(r, names, env, x);
        ByDegreeValue(r, env, x);
        if Prime(m) {
          MonicZero(r, m, env, x);
        }
      } else {
        ByMonoValue(r, env);
      }
    }
  }

  // ----- When normal forms agree

  /** The coefficient of a power of the one variable. */
  function DegreeCoeff(p: Poly, d: nat): int {
    if p == [] then 0 else (if |p[0].mono| == d then p[0].coeff else 0) + DegreeCoeff(p[1..], d)
  }

  ghost predicate DistinctMonos(p: Poly) {
    forall i, j :: 0 <= i < j < |p| ==> p[i].mono != p[j].mono
  }

  lemma {:induction false} AbsentMono(p: Poly, mono: Mono)
    requires forall i :: 0 <= i < |p| ==> p[i].mono != mono
    ensures CoeffOf(p, mono) == 0
  {
    if p != [] {
      AbsentMono(p[1..], mono);
    }
  }

  lemma {:induction false} AbsentDegree(p: Poly, d: nat)
    requires forall i :: 0 <= i < |p| ==> |p[i].mono| != d
    ensures DegreeCoeff(p, d) == 0
  {
    if p != [] {
      AbsentDegree(p[1..], d);
    }
  }

  /** Reducing first takes care of the first term, if that survives. */
  lemma ReduceFirst(p: Poly, m: int)
    requires m > 0 && p != []
    ensures p[0].coeff % m == 0 ==> Reduce(p, m) == Reduce(p[1..], m)
    ensures p[0].coeff % m != 0 ==> Reduce(p, m) != [] && Reduce(p, m)[1..] == Reduce(p[1..], m)
    ensures p[0].coeff % m != 0 ==> Reduce(p, m)[0] == Term(p[0].mono, p[0].coeff % m)
  {
  }

  lemma ZeroResidue(m: int)
    requires m > 0
    ensures 0 % m == 0
  {
  }

  lemma {:induction false} ReducedCoeff(p: Poly, m: int, mono: Mono)
    requires m > 0 && DistinctMonos(p)
    ensures CoeffOf(Reduce(p, m), mono) == CoeffOf(p, mono) % m
  {
    if p != [] {
      ReducedCoeff(p[1..], m, mono);
      ReduceFirst(p, m);
      if p[0].mono == mono {
        AbsentMono(p[1..], mono);
      }
    }
    ZeroResidue(m);
  }

  lemma {:induction false} ReducedDegree(p: Poly, m: int, d: nat)
    requires m > 0 && DistinctDegrees(p)
    ensures DegreeCoeff(Reduce(p, m), d) == DegreeCoeff(p, d) % m
  {
    if p != [] {
      ReducedDegree(p[1..], m, d);
      ReduceFirst(p, m);
      if |p[0].mono| == d {
        AbsentDegree(p[1..], d);
      }
    }
    ZeroResidue(m);
  }

  ghost predicate NonzeroCoeffs(p: Poly) {
    forall i :: 0 <= i < |p| ==> p[i].coeff != 0
  }

  lemma {:induction false} MonoEntry(p: Poly, mono: Mono)
    requires DistinctMonos(p) && NonzeroCoeffs(p)
    ensures mono in ByMono(p) <==> CoeffOf(p, mono) != 0
    ensures mono in ByMono(p) ==> ByMono(p)[mono] == CoeffOf(p, mono)
  {
    if p != [] {
      MonoEntry(p[1..], mono);
      if p[0].mono == mono {
        AbsentMono(p[1..], mono);
      }
    }
  }

  lemma {:induction false} DegreeEntry(p: Poly, d: nat)
    requires DistinctDegrees(p) && NonzeroCoeffs(p)
    ensures d in ByDegree(p) <==> DegreeCoeff(p, d) != 0
    ensures d in ByDegree(p) ==> ByDegree(p)[d] == DegreeCoeff(p, d)
  {
    if p != [] {
      DegreeEntry(p[1..], d);
      if |p[0].mono| == d {
        AbsentDegree(p[1..], d);
      }
    }
  }

  /** Modulo m the two polynomials have the same coefficients. */
  ghost predicate SameCoeffs(p: Poly, q: Poly, m: nat)
    requires m > 0
  {
    forall mono :: CoeffOf(p, mono) % m == CoeffOf(q, mono) % m
  }

  /** f holds the reduced coefficients that are not zero, by key. */
  ghost predicate Holds<K(!new)>(f: map<K, int>, coeff: K -> int, m: nat)
    requires m > 0
  {
    forall k :: (k in f <==> coeff(k) % m != 0) && (k in f ==> f[k] == coeff(k) % m)
  }

  lemma HeldEqual<K(!new)>(f: map<K, int>, a: K -> int, g: map<K, int>, b: K -> int, m: nat)
    requires m > 0 && Holds(f, a, m) && Holds(g, b, m)
    ensures f == g <==> forall k :: a(k) % m == b(k) % m
  {
    if f == g {
      forall k ensures a(k) % m == b(k) % m {
        assert k in f <==> k in g;
      }
    }
  }

  ghost function MonoCoeffs(p: Poly): Mono -> int {
    (mono: Mono) => CoeffOf(p, mono)
  }

  ghost function DegreeCoeffs(p: Poly): nat -> int {
    (d: nat) => DegreeCoeff(p, d)
  }

  lemma ReducedHolds(p: Poly, m: nat, names: set<string>)
    requires m > 0 && Table(p, names)
    ensures Holds(ByMono(Reduce(p, m)), MonoCoeffs(p), m)
    ensures Reduce(p, m) == [] <==> ByMono(Reduce(p, m)) == map[]
  {
    var r := Reduce(p, m);
    ReduceTable(p, m, names);
    forall mono ensures (mono in ByMono(r) <==> CoeffOf(p, mono) % m != 0)
                     && (mono in ByMono(r) ==> ByMono(r)[mono] == CoeffOf(p, mono) % m) {
      ReducedCoeff(p, m, mono);
      MonoEntry(r, mono);
    }
    if r != [] {
      assert r[0].mono in ByMono(r);
    }
  }

  lemma SameByFunction(p: Poly, q: Poly, m: nat)
    requires m > 0
    ensures SameCoeffs(p, q, m) <==> forall mono :: MonoCoeffs(p)(mono) % m == MonoCoeffs(q)(mono) % m
  {
    if SameCoeffs(p, q, m) {
      forall mono ensures MonoCoeffs(p)(mono) % m == MonoCoeffs(q)(mono) % m {
        assert CoeffOf(p, mono) % m == CoeffOf(q, mono) % m;
      }
    }
    if forall mono :: MonoCoeffs(p)(mono) % m == MonoCoeffs(q)(mono) % m {
      forall mono ensures CoeffOf(p, mono) % m == CoeffOf(q, mono) % m {
        assert MonoCoeffs(p)(mono) % m == MonoCoeffs(q)(mono) % m;
      }
    }
  }

  /** With several variables, normal forms agree exactly if all coefficients agree modulo m. */
  lemma SeveralAgree(p: Poly, q: Poly, m: nat, names: set<string>)
    requires m > 0 && Table(p, names) && Table(q, names)
    ensures Normalize(p, m, false) == Normalize(q, m, false) <==> SameCoeffs(p, q, m)
  {
    ReducedHolds(p, m, names);
    ReducedHolds(q, m, names);
    HeldEqual(ByMono(Reduce(p, m)), MonoCoeffs(p), ByMono(Reduce(q, m)), MonoCoeffs(q), m);
    SameByFunction(p, q, m);
  }

  /** Modulo m the coefficients of q are u times those of p. */
  ghost predicate Multiple(p: Poly, q: Poly, m: nat, u: int)
    requires m > 0
  {
    forall d: nat :: Cong(DegreeCoeff(q, d), u * DegreeCoeff(p, d), m)
  }

  ghost predicate UnitMultiple(p: Poly, q: Poly, m: nat)
    requires m > 0
  {
    exists u :: 0 < u < m && Multiple(p, q, m, u)
  }

  lemma DegreesDistinct(p: Poly, names: set<string>)
    requires Table(p, names) && |names| <= 1
    ensures DistinctDegrees(p)
  {
    SingleVariable(p, names, (y: string) => 0, 0);
  }

  lemma DegreesHold(p: Poly, m: nat, names: set<string>)
    requires m > 0 && Table(p, names) && |names| <= 1
    ensures Holds(ByDegree(Reduce(p, m)), DegreeCoeffs(p), m)
    ensures Reduce(p, m) == [] <==> ByDegree(Reduce(p, m)) == map[]
  {
    var r := Reduce(p, m);
    ReduceTable(p, m, names);
    DegreesDistinct(p, names);
    DegreesDistinct(r, names);
    forall d: nat ensures (d in ByDegree(r) <==> DegreeCoeff(p, d) % m != 0)
                     && (d in ByDegree(r) ==> ByDegree(r)[d] == DegreeCoeff(p, d) % m) {
      ReducedDegree(p, m, d);
      DegreeEntry(r, d);
    }
    if r != [] {
      assert |r[0].mono| in ByDegree(r);
    }
  }

  lemma MultipleByOne(p: Poly, q: Poly, m: nat)
    requires m > 0
    ensures Multiple(p, q, m, 1) <==> forall d: nat :: DegreeCoeffs(p)(d) % m == DegreeCoeffs(q)(d) % m
  {
    forall d: nat
      ensures Cong(DegreeCoeff(q, d), 1 * DegreeCoeff(p, d), m) <==> DegreeCoeffs(p)(d) % m == DegreeCoeffs(q)(d) % m
    {
      CongMeansResidue(DegreeCoeff(q, d), DegreeCoeff(p, d), m);
    }
  }

  /** With one variable and a modulus that is not prime, too. */
  lemma CompositeAgree(p: Poly, q: Poly, m: nat, names: set<string>, others: set<string>)
    requires m > 0 && !Prime(m) && Table(p, names) && |names| <= 1 && Table(q, others) && |others| <= 1
    ensures Normalize(p, m, true) == Normalize(q, m, true) <==> Multiple(p, q, m, 1)
  {
    DegreesHold(p, m, names);
    DegreesHold(q, m, others);
    HeldEqual(ByDegree(Reduce(p, m)), DegreeCoeffs(p), ByDegree(Reduce(q, m)), DegreeCoeffs(q), m);
    MultipleByOne(p, q, m);
  }

  // ----- ... and a prime modulus: up to one unit

  /** The map the monic form is made of: the reduced coefficients times the inverse i of the leading one. */
  ghost predicate MonicBy(f: map<nat, int>, p: Poly, m: nat, top: nat, i: nat)
    requires m > 0
  {
    && i < m && Cong(DegreeCoeff(p, top) * i, 1, m) && (forall d :: d in f ==> d <= top) && top in f
    && Holds(f, (d: nat) => DegreeCoeff(p, d) * i, m)
  }

  lemma ProductResidue(a: int, i: int, m: int)
    requires m > 0
    ensures (a % m * i) % m == (a * i) % m
  {
    CongResidue(a, m);
    CongScale(i, a % m, a, m);
    assert i * (a % m) == a % m * i && i * a == a * i;
    CongMeansResidue(a % m * i, a * i, m);
  }

  /** A unit times a nonzero residue is not zero. */
  lemma UnitNonzero(a: int, c: int, i: int, m: int)
    requires m > 0 && Cong(c * i, 1, m)
    ensures (a * i) % m != 0 <==> a % m != 0
  {
    UnitKeepsZero(c, i, a, m);
    assert i * a == a * i;
    CongMeansResidue(i * a, 0, m);
    CongMeansResidue(a, 0, m);
  }

  lemma {:induction false} TopIsTop(r: Poly, d: nat)
    requires r != [] && d in ByDegree(r)
    ensures d <= TopDegree(r)
  {
    if |r| > 1 && d != |r[0].mono| {
      TopIsTop(r[1..], d);
    }
  }

  lemma MonicIs(p: Poly, m: nat, names: set<string>) returns (top: nat, i: nat)
    requires Prime(m) && Table(p, names) && |names| <= 1 && Reduce(p, m) != []
    ensures Normalize(p, m, true).Uni? && MonicBy(Normalize(p, m, true).degrees, p, m, top, i)
  {
    var r := Reduce(p, m);
    DegreesHold(p, m, names);
    ReduceTable(p, m, names);
    top := TopDegree(r);
    var c := LeadCoeff(r);
    LeadInvertible(r, m, c);
    i := Inverse(c % m, m);
    InverseInverts(c % m, m);
    var f := Monic(r, m);
    forall d | d in f ensures d <= top {
      TopIsTop(r, d);
    }
    assert c == DegreeCoeffs(p)(top) % m;
    CongResidue(DegreeCoeff(p, top), m);
    CongSym(c, DegreeCoeff(p, top), m);
    CongScale(i, DegreeCoeff(p, top), c, m);
    assert i * DegreeCoeff(p, top) == DegreeCoeff(p, top) * i && i * c == c * i;
    CongTrans(DegreeCoeff(p, top) * i, c * i, 1, m);
    forall d: nat ensures (d in f <==> (DegreeCoeff(p, d) * i) % m != 0)
                     && (d in f ==> f[d] == (DegreeCoeff(p, d) * i) % m) {
      var a := DegreeCoeff(p, d);
      assert d in f <==> DegreeCoeffs(p)(d) % m != 0;
      UnitNonzero(a, DegreeCoeff(p, top), i, m);
      ProductResidue(a, i, m);
    }
  }

  /** From a * i = b * j modulo m and c * j = 1 follows b = (c * i) * a. */
  lemma Unscale(a: int, i: int, b: int, j: int, c: int, m: int)
    requires m > 0 && Cong(a * i, b * j, m) && Cong(c * j, 1, m)
    ensures Cong(b, (c * i) * a, m)
  {
    CongScale(c, a * i, b * j, m);
    assert c * (a * i) == (c * i) * a && c * (b * j) == b * (c * j);
    CongScale(b, c * j, 1, m);
    CongTrans((c * i) * a, b * (c * j), b, m);
    CongSym((c * i) * a, b, m);
  }

  lemma ReduceUnit(b: int, u: int, a: int, m: int)
    requires m > 0 && Cong(b, u * a, m)
    ensures Cong(b, (u % m) * a, m)
  {
    CongResidue(u, m);
    CongScale(a, u % m, u, m);
    assert a * (u % m) == (u % m) * a && a * u == u * a;
    CongSym((u % m) * a, u * a, m);
    CongTrans(b, u * a, (u % m) * a, m);
  }

  lemma EqualScaled(f: map<nat, int>, p: Poly, q: Poly, m: nat, top: nat, i: nat, last: nat, j: nat, d: nat)
    requires m > 0 && MonicBy(f, p, m, top, i) && MonicBy(f, q, m, last, j)
    ensures (DegreeCoeff(p, d) * i) % m == (DegreeCoeff(q, d) * j) % m
  {
    assert d in f <==> (DegreeCoeff(p, d) * i) % m != 0;
    assert d in f <==> (DegreeCoeff(q, d) * j) % m != 0;
  }

  lemma SameTop(f: map<nat, int>, p: Poly, q: Poly, m: nat, top: nat, i: nat, last: nat, j: nat)
    requires m > 0 && MonicBy(f, p, m, top, i) && MonicBy(f, q, m, last, j)
    ensures top == last
  {
  }

  lemma ScaledBack(a: int, i: int, b: int, j: int, c: int, u: int, m: int)
    requires m > 0 && (a * i) % m == (b * j) % m && Cong(c * j, 1, m) && u == (c * i) % m
    ensures Cong(b, u * a, m)
  {
    CongMeansResidue(a * i, b * j, m);
    Unscale(a, i, b, j, c, m);
    ReduceUnit(b, c * i, a, m);
  }

  lemma OneIsNotZero(a: int, m: int)
    requires m >= 2 && Cong(a, 1, m)
    ensures a % m != 0
  {
    CongMeansResidue(a, 1, m);
    SmallResidue(1, m);
  }

  lemma UnitInRange(e: int, c: int, i: int, j: int, m: int)
    requires m >= 2 && Cong(e * i, 1, m) && Cong(c * j, 1, m)
    ensures 0 < (c * i) % m < m
  {
    UnitNonzero(c, e, i, m);
    UnitNonzero(c, c, j, m);
    OneIsNotZero(c * j, m);
  }

  /** Equal monic forms: the coefficients of q are those of p times one unit. */
  lemma EqualMonics(f: map<nat, int>, p: Poly, q: Poly, m: nat, top: nat, i: nat, last: nat, j: nat)
    requires Prime(m) && MonicBy(f, p, m, top, i) && MonicBy(f, q, m, last, j)
    ensures UnitMultiple(p, q, m)
  {
    SameTop(f, p, q, m, top, i, last, j);
    var c := DegreeCoeff(q, top);
    var u := (c * i) % m;
    forall d: nat ensures Cong(DegreeCoeff(q, d), u * DegreeCoeff(p, d), m) {
      EqualScaled(f, p, q, m, top, i, last, j, d);
      ScaledBack(DegreeCoeff(p, d), i, DegreeCoeff(q, d), j, c, u, m);
    }
    UnitInRange(DegreeCoeff(p, top), c, i, j, m);
    assert Multiple(p, q, m, u);
  }

  lemma UnitTimesNonzero(a: int, b: int, u: nat, m: nat)
    requires Prime(m) && 0 < u < m && Cong(b, u * a, m)
    ensures b % m != 0 <==> a % m != 0
  {
    CongMeansResidue(b, u * a, m);
    InverseInverts(u, m);
    assert u * Inverse(u, m) == Inverse(u, m) * u && u * a == a * u;
    UnitNonzero(a, Inverse(u, m), u, m);
  }

  /** Scaling by a unit only: a zero coefficient on one side is zero on the other. */
  lemma MultipleZero(p: Poly, q: Poly, m: nat, u: int, d: nat)
    requires Prime(m) && 0 < u < m && Multiple(p, q, m, u)
    ensures DegreeCoeff(q, d) % m != 0 <==> DegreeCoeff(p, d) % m != 0
  {
    assert Cong(DegreeCoeff(q, d), u * DegreeCoeff(p, d), m);
    UnitTimesNonzero(DegreeCoeff(p, d), DegreeCoeff(q, d), u, m);
  }

  /** If c * i = 1, e * j = 1 and e = u * c modulo m, then i = u * j. */
  lemma InverseScales(c: int, i: int, e: int, j: int, u: int, m: int)
    requires m > 0 && Cong(c * i, 1, m) && Cong(e * j, 1, m) && Cong(e, u * c, m)
    ensures Cong(i, u * j, m)
  {
    CongScale(i * j, e, u * c, m);
    assert (i * j) * e == i * (e * j) && (i * j) * (u * c) == (u * j) * (c * i);
    CongScale(i, e * j, 1, m);
    CongScale(u * j, c * i, 1, m);
    CongSym(i * (e * j), i, m);
    CongTrans(i, i * (e * j), (u * j) * (c * i), m);
    CongTrans(i, (u * j) * (c * i), u * j, m);
  }

  lemma ScaledAlike(a: int, i: int, b: int, j: int, u: int, m: int)
    requires m > 0 && Cong(b, u * a, m) && Cong(i, u * j, m)
    ensures (a * i) % m == (b * j) % m
  {
    CongScale(a, i, u * j, m);
    CongScale(j, b, u * a, m);
    assert a * (u * j) == j * (u * a) && j * b == b * j;
    CongSym(b * j, j * (u * a), m);
    CongTrans(a * i, a * (u * j), b * j, m);
    CongMeansResidue(a * i, b * j, m);
  }

  lemma MultipleMonics(f: map<nat, int>, g: map<nat, int>, p: Poly, q: Poly, m: nat, top: nat, i: nat, last: nat,
                       j: nat, u: int)
    requires Prime(m) && MonicBy(f, p, m, top, i) && MonicBy(g, q, m, last, j)
    requires 0 < u < m && Multiple(p, q, m, u)
    ensures f == g
  {
    forall d: nat ensures d in f <==> d in g {
      MultipleZero(p, q, m, u, d);
      UnitNonzero(DegreeCoeff(p, d), DegreeCoeff(p, top), i, m);
      UnitNonzero(DegreeCoeff(q, d), DegreeCoeff(q, last), j, m);
    }
    assert top == last;
    assert Cong(DegreeCoeff(q, top), u * DegreeCoeff(p, top), m);
    InverseScales(DegreeCoeff(p, top), i, DegreeCoeff(q, top), j, u, m);
    forall d: nat | d in f ensures f[d] == g[d] {
      ScaledAlike(DegreeCoeff(p, d), i, DegreeCoeff(q, d), j, u, m);
    }
  }

  lemma ZeroMultiples(p: Poly, q: Poly, m: nat, names: set<string>, others: set<string>)
    requires Prime(m) && Table(p, names) && |names| <= 1 && Table(q, others) && |others| <= 1
    requires Reduce(p, m) == [] || Reduce(q, m) == []
    ensures Reduce(p, m) == Reduce(q, m) <==> UnitMultiple(p, q, m)
  {
    DegreesHold(p, m, names);
    DegreesHold(q, m, others);
    if UnitMultiple(p, q, m) {
      var u :| 0 < u < m && Multiple(p, q, m, u);
      forall d: nat ensures DegreeCoeffs(q)(d) % m != 0 <==> DegreeCoeffs(p)(d) % m != 0 {
        MultipleZero(p, q, m, u, d);
      }
      assert ByDegree(Reduce(p, m)) == map[] <==> ByDegree(Reduce(q, m)) == map[];
    }
    if Reduce(p, m) == [] && Reduce(q, m) == [] {
      forall d: nat ensures DegreeCoeffs(p)(d) % m == DegreeCoeffs(q)(d) % m {
        assert d !in ByDegree(Reduce(p, m)) && d !in ByDegree(Reduce(q, m));
      }
      MultipleByOne(p, q, m);
    }
  }

  /** With one variable and a prime modulus, normal forms agree exactly if the coefficients agree up to
      one unit. */
  lemma PrimeAgree(p: Poly, q: Poly, m: nat, names: set<string>, others: set<string>)
    requires Prime(m) && Table(p, names) && |names| <= 1 && Table(q, others) && |others| <= 1
    ensures Normalize(p, m, true) == Normalize(q, m, true) <==> UnitMultiple(p, q, m)
  {
    if Reduce(p, m) == [] || Reduce(q, m) == [] {
      ZeroMultiples(p, q, m, names, others);
    } else {
      var top, i := MonicIs(p, m, names);
      var last, j := MonicIs(q, m, others);
      var f, g := Normalize(p, m, true).degrees, Normalize(q, m, true).degrees;
      if f == g {
        EqualMonics(f, p, q, m, top, i, last, j);
      }
      if UnitMultiple(p, q, m) {
        var u :| 0 < u < m && Multiple(p, q, m, u);
        MultipleMonics(f, g, p, q, m, top, i, last, j, u);
      }
    }
  }

  // ----- The normal forms themselves

  /** The table holds multiples by one unit of the coefficients, and ends in a one. */
  ghost predicate EndsInOne(f: map<nat, int>, p: Poly, m: nat, unit: nat)
    requires m > 0
  {
    && unit < m && Holds(f, (d: nat) => DegreeCoeff(p, d) * unit, m)
    && exists top :: top in f && f[top] == 1 && forall d :: d in f ==> d <= top
  }

  /** What the table lists: the coefficients that survive modulo m, and for one variable and a prime modulus
      their multiples with the leading one made one. */
  lemma NormalFormLists(p: Poly, m: nat, names: set<string>)
    requires m > 0 && Table(p, names) && Reduce(p, m) != []
    ensures Normalize(p, m, false).Multi? && Holds(Normalize(p, m, false).monos, MonoCoeffs(p), m)
    ensures |names| <= 1 ==> Normalize(p, m, true).Uni?
    ensures |names| <= 1 && !Prime(m) ==> Holds(Normalize(p, m, true).degrees, DegreeCoeffs(p), m)
    ensures |names| <= 1 && Prime(m) ==> exists unit: nat :: EndsInOne(Normalize(p, m, true).degrees, p, m, unit)
  {
    ReducedHolds(p, m, names);
    if |names| <= 1 {
      DegreesHold(p, m, names);
      if Prime(m) {
        var top, unit := MonicIs(p, m, names);
        CongMeansResidue(DegreeCoeff(p, top) * unit, 1, m);
        SmallResidue(1, m);
        assert EndsInOne(Normalize(p, m, true).degrees, p, m, unit);
      }
    }
  }

  /** Whatever the modulus, the degrees listed are those whose coefficients survive. */
  lemma SurvivingDegrees(p: Poly, m: nat, names: set<string>, d: nat)
    requires m > 0 && Table(p, names) && |names| <= 1 && Reduce(p, m) != []
    ensures Normalize(p, m, true).Uni?
    ensures d in Normalize(p, m, true).degrees <==> DegreeCoeff(p, d) % m != 0
  {
    DegreesHold(p, m, names);
    assert DegreeCoeffs(p)(d) == DegreeCoeff(p, d);
    if Prime(m) {
      var top, i := MonicIs(p, m, names);
      UnitNonzero(DegreeCoeff(p, d), DegreeCoeff(p, top), i, m);
    }
  }
}
