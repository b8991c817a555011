/** Congruences and powers, primality by trial division, and inverses modulo a prime: the arithmetic the
    normal forms and the signatures rest on. */
module Congruence {
  import opened Arith

  /** a and b leave the same residue modulo m. */
  ghost predicate Cong(a: int, b: int, m: int) {
    IsMultiple(a - b, m)
  }

  lemma CongByWitness(a: int, b: int, m: int, t: int)
    requires a - b == m * t
    ensures Cong(a, b, m)
  {
    assert IsTimes(a - b, m, t);
  }

  lemma CongRefl(a: int, m: int)
    ensures Cong(a, a, m)
  {
    CongByWitness(a, a, m, 0);
  }

  lemma CongSym(a: int, b: int, m: int)
    requires Cong(a, b, m)
    ensures Cong(b, a, m)
  {
    var t :| IsTimes(a - b, m, t);
    assert b - a == m * (-t);
    CongByWitness(b, a, m, -t);
  }

  lemma CongAdd(a: int, b: int, c: int, d: int, m: int)
    requires Cong(a, b, m) && Cong(c, d, m)
    ensures Cong(a + c, b + d, m)
  {
    var s :| IsTimes(a - b, m, s);
    var t :| IsTimes(c - d, m, t);
    Distribute(m, s, t);
    CongByWitness(a + c, b + d, m, s + t);
  }

  lemma CongScale(f: int, a: int, b: int, m: int)
    requires Cong(a, b, m)
    ensures Cong(f * a, f * b, m)
  {
    var s :| IsTimes(a - b, m, s);
    Distribute(f, a, -b);
    assert f * a - f * b == f * (a - b);
    assert f * (m * s) == m * (f * s);
    CongByWitness(f * a, f * b, m, f * s);
  }

  lemma CongTrans(a: int, b: int, c: int, m: int)
    requires Cong(a, b, m) && Cong(b, c, m)
    ensures Cong(a, c, m)
  {
    CongAdd(a, b, b, c, m);
    var t :| IsTimes((a + b) - (b + c), m, t);
    CongByWitness(a, c, m, t);
  }

  lemma CongMul(a: int, b: int, c: int, d: int, m: int)
    requires Cong(a, b, m) && Cong(c, d, m)
    ensures Cong(a * c, b * d, m)
  {
    CongScale(c, a, b, m);
    CongScale(b, c, d, m);
    assert c * a == a * c && c * b == b * c;
    CongTrans(a * c, b * c, b * d, m);
  }

  lemma CongResidue(a: int, m: int)
    requires m > 0
    ensures Cong(a % m, a, m)
  {
    assert a % m - a == m * (-(a / m));
    CongByWitness(a % m, a, m, -(a / m));
  }

  lemma SmallMultiple(r: int, m: int, t: int)
    requires m > 0 && -m < r < m && r == m * t
    ensures r == 0
  {
    CancelLt(m, t, 1);
    CancelLt(m, -1, t);
  }

  lemma CongMeansResidue(a: int, b: int, m: int)
    requires m > 0
    ensures Cong(a, b, m) <==> a % m == b % m
  {
    CongResidue(a, m);
    CongResidue(b, m);
    if Cong(a, b, m) {
      CongSym(b % m, b, m);
      CongTrans(a % m, a, b, m);
      CongTrans(a % m, b, b % m, m);
      var t :| IsTimes(a % m - b % m, m, t);
      SmallMultiple(a % m - b % m, m, t);
    }
    if a % m == b % m {
      CongSym(a % m, a, m);
      CongTrans(a, a % m, b, m);
    }
  }

  lemma SmallResidue(c: int, m: int)
    requires 0 <= c < m
    ensures c % m == c
  {
  }

  // ----- Powers

  lemma {:induction false} CongPower(x: int, y: int, e: nat, m: int)
    requires Cong(x, y, m)
    ensures Cong(Power(x, e), Power(y, e), m)
  {
    if e == 0 {
      CongRefl(1, m);
    } else {
      CongPower(x, y, e - 1, m);
      CongMul(x, y, Power(x, e - 1), Power(y, e - 1), m);
    }
  }

  // ----- Primes

  predicate Prime(x: int) {
    x >= 2 && forall d :: 2 <= d < x ==> x % d != 0
  }

  lemma SmallCofactor(d: int, e: int, i: int)
    requires 0 < i <= d && 0 <= e && d * e < i * i
    ensures e < i
  {
    ProductNonNegative(d - i, e);
    assert (d - i) * e == d * e - i * e;
    CancelLt(i, e, i);
  }

  lemma FactorPair(x: int, d: int, i: int) returns (e: int)
    requires 2 <= d < x && x % d == 0 && 2 <= i && i * i > x && i <= d
    ensures 2 <= e < i && x % e == 0
  {
    e := x / d;
    Factor(x, d, e);
    SmallCofactor(d, e, i);
  }

  lemma Factor(x: int, d: int, e: int)
    requires 2 <= d < x && x == d * e
    ensures 2 <= e && x % e == 0
  {
    CancelLt(d, 1, e);
    DivideProduct(e, d);
    assert x == e * d;
  }

  /** Trial division up to the square root decides primality. */
  method IsPrime(x: int) returns (prime: bool)
    ensures prime <==> Prime(x)
  {
    if x < 2 {
      return false;
    }
    var i := 2;
    while i * i <= x
      invariant 2 <= i && forall d :: 2 <= d < i && d < x ==> x % d != 0
      decreases x - i
    {
      if x % i == 0 {
        assert i < x by {
          CancelLt(i, 1, i);
        }
        return false;
      }
      i := i + 1;
    }
    forall d | 2 <= d < x ensures x % d != 0 {
      if x % d == 0 && i <= d {
        var e := FactorPair(x, d, i);
      }
    }
    return true;
  }

  // ----- Inverses

  /** Coefficients with which a and b combine to their greatest common divisor. */
  function Bezout(a: nat, b: nat): (int, int)
    decreases b
  {
    if b == 0 then (1, 0)
    else
      var (x, y) := Bezout(b, a % b);
      (y, x - (a / b) * y)
  }

  lemma BezoutNext(a: nat, b: nat, q: nat, r: nat)
    requires b > 0 && q == a / b && r == a % b
    ensures Bezout(a, b) == (Bezout(b, r).1, Bezout(b, r).0 - q * Bezout(b, r).1) && Gcd(a, b) == Gcd(b, r)
  {
  }

  lemma Divide(a: nat, b: nat) returns (q: nat, r: nat)
    requires b > 0
    ensures q == a / b && r == a % b && a == b * q + r && r < b
  {
    q, r := a / b, a % b;
  }

  lemma {:induction false} BezoutCombines(a: nat, b: nat)
    ensures a * Bezout(a, b).0 + b * Bezout(a, b).1 == Gcd(a, b)
    decreases b
  {
    if b > 0 {
      var q, r := Divide(a, b);
      BezoutCombines(b, r);
      BezoutNext(a, b, q, r);
      BezoutStep(a, b, q, r, Bezout(b, r).0, Bezout(b, r).1);
    }
  }

  lemma BezoutStep(a: int, b: int, q: int, r: int, x: int, y: int)
    requires a == b * q + r
    ensures a * y + b * (x - q * y) == b * x + r * y
  {
    Distribute(b, x, -(q * y));
    assert b * (q * y) == (b * q) * y;
    assert a * y == (b * q) * y + r * y;
  }

  lemma CommonCombines(x: int, a: int, b: int, i: int, j: int, s: int, t: int)
    requires x == a * i && x == b * j
    ensures x * (a * s + b * t) == (a * b) * (j * s + i * t)
  {
    Distribute(x, a * s, b * t);
    assert (b * j) * (a * s) == (a * b) * (j * s);
    assert (a * i) * (b * t) == (a * b) * (i * t);
    Distribute(a * b, j * s, i * t);
  }

  lemma CancelFactor(g: int, x: int, y: int)
    requires g > 0 && x * g == g * y
    ensures x == y
  {
    CancelLe(g, x, y);
    CancelLe(g, y, x);
  }

  /** The product of two numbers is their greatest common divisor times their least common multiple. */
  lemma GcdTimesLcm(a: nat, b: nat)
    requires a > 0 && b > 0
    ensures a * b == Gcd(a, b) * Lcm(a, b)
  {
    var g := Gcd(a, b);
    GcdPositive(a, b);
    var x, y := GcdDivides(a, b);
    LcmValue(g, x, y);
    assert (g * x) * (g * y) == g * ((g * x) * y);
  }

  /** Every common multiple is a multiple of the least one. */
  lemma LcmLeast(a: nat, b: nat, x: int)
    requires a > 0 && b > 0 && IsMultiple(x, a) && IsMultiple(x, b)
    ensures IsMultiple(x, Lcm(a, b))
  {
    var i :| IsTimes(x, a, i);
    var j :| IsTimes(x, b, j);
    var (s, t) := Bezout(a, b);
    var q := j * s + i * t;
    BezoutCombines(a, b);
    CommonCombines(x, a, b, i, j, s, t);
    GcdPositive(a, b);
    GcdTimesLcm(a, b);
    RegroupFactor(Gcd(a, b), Lcm(a, b), q);
    CancelFactor(Gcd(a, b), x, Lcm(a, b) * q);
    assert IsTimes(x, Lcm(a, b), q);
  }

  lemma RegroupFactor(g: int, l: int, q: int)
    ensures (g * l) * q == g * (l * q)
  {
  }

  /** The inverse of c modulo m, where there is one. */
  function Inverse(c: nat, m: nat): nat
    requires m > 0
  {
    Bezout(c, m).0 % m
  }

  lemma DividesBoth(c: int, m: int, g: int, x: int, y: int)
    requires 0 < c < m && g > 0 && c == g * x && m == g * y
    ensures g <= c && m % g == 0
  {
    CancelLt(g, 0, x);
    ProductNonNegative(g, x - 1);
    Distribute(g, x - 1, 1);
    DivideProduct(g, y);
  }

  lemma PrimeCoprime(c: nat, m: nat)
    requires Prime(m) && 0 < c < m
    ensures Gcd(c, m) == 1
  {
    var g := Gcd(c, m);
    GcdPositive(c, m);
    var x, y := GcdDivides(c, m);
    DividesBoth(c, m, g, x, y);
  }

  lemma ReducedInverse(c: int, m: int, x: int, y: int, i: int)
    requires m > 0 && c * x + m * y == 1 && i == x % m
    ensures Cong(c * i, 1, m)
  {
    CongResidue(x, m);
    CongScale(c, i, x, m);
    assert c * x - 1 == m * (-y);
    CongByWitness(c * x, 1, m, -y);
    CongTrans(c * i, c * x, 1, m);
  }

  lemma InverseInverts(c: nat, m: nat)
    requires Prime(m) && 0 < c < m
    ensures Inverse(c, m) < m && Cong(c * Inverse(c, m), 1, m)
  {
    PrimeCoprime(c, m);
    BezoutCombines(c, m);
    ReducedInverse(c, m, Bezout(c, m).0, Bezout(c, m).1, Inverse(c, m));
  }

  lemma SameSmall(i: int, j: int, m: int)
    requires 0 <= i < m && 0 <= j < m && Cong(i, j, m)
    ensures i == j
  {
    var t :| IsTimes(i - j, m, t);
    SmallMultiple(i - j, m, t);
  }

  lemma OneInverse(c: int, m: int, i: int, j: int, e: int)
    requires 0 <= i < m && 0 <= j < m && Cong(c * i, 1, m) && Cong(c * j, 1, m) && e == i * (c * j)
    ensures i == j
  {
    assert e == j * (c * i);
    CongScale(j, c * i, 1, m);
    CongScale(i, c * j, 1, m);
    CongSym(e, i, m);
    CongTrans(i, e, j, m);
    SameSmall(i, j, m);
  }

  /** It is the only one. */
  lemma InverseUnique(c: nat, m: nat, i: nat)
    requires Prime(m) && 0 < c < m && i < m && Cong(c * i, 1, m)
    ensures i == Inverse(c, m)
  {
    InverseInverts(c, m);
    OneInverse(c, m, i, Inverse(c, m), i * (c * Inverse(c, m)));
  }

  /** Multiplying by a unit neither makes nor loses a zero. */
  lemma UnitKeepsZero(c: int, u: int, v: int, m: int)
    requires m > 0 && Cong(c * u, 1, m)
    ensures Cong(u * v, 0, m) <==> Cong(v, 0, m)
  {
    if Cong(v, 0, m) {
      CongScale(u, v, 0, m);
    }
    if Cong(u * v, 0, m) {
      CongScale(c, u * v, 0, m);
      CongScale(v, c * u, 1, m);
      assert c * (u * v) == v * (c * u) && v * 1 == v;
      CongSym(v * (c * u), v, m);
      CongTrans(v, v * (c * u), 0, m);
    }
  }
}
