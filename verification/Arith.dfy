/** Integer arithmetic the other modules share: cancellation, floors and ceilings, greatest common
    divisors and least common multiples as the scripts compute them, and inverses modulo a prime. */
module Arith {

  lemma Distribute(a: int, b: int, c: int)
    ensures a * (b + c) == a * b + a * c
  {
  }

  lemma ProductNonNegative(a: int, b: int)
    requires a >= 0 && b >= 0
    ensures a * b >= 0
  {
  }

  lemma CancelLe(m: int, a: int, b: int)
    requires m > 0 && m * a <= m * b
    ensures a <= b
  {
  }

  lemma CancelLt(m: int, a: int, b: int)
    requires m > 0 && m * a < m * b
    ensures a < b
  {
  }

  lemma FloorAtLeast(m: int, q: int, f: int)
    requires q > 0 && q * m <= f
    ensures m <= f / q
  {
    Distribute(q, f / q, 1);
    CancelLt(q, m, f / q + 1);
  }

  /** Division rounding towards minus infinity, whatever the signs, and its remainder. */
  function FloorDiv(a: int, b: int): int
    requires b != 0
  {
    if b > 0 then a / b else (-a) / (-b)
  }

  function FloorMod(a: int, b: int): int
    requires b != 0
  {
    a - b * FloorDiv(a, b)
  }

  lemma FloorDivExact(b: int, z: int)
    requires b != 0
    ensures FloorDiv(b * z, b) == z && FloorMod(b * z, b) == 0
  {
    if b > 0 {
      DivideProduct(b, z);
    } else {
      assert -(b * z) == (-b) * z;
      DivideProduct(-b, z);
    }
  }

  lemma DivideProduct(b: int, z: int)
    requires b > 0
    ensures (b * z) / b == z
  {
    var q := (b * z) / b;
    Distribute(b, q, 1);
    FloorAtLeast(z, b, b * z);
    CancelLe(b, q, z);
  }

  // ----- Greatest common divisors and least common multiples

  function Gcd(a: nat, b: nat): nat
    decreases b
  {
    if b == 0 then a else Gcd(b, a % b)
  }

  /** Euclid's loop. */
  method GcdLoop(a: nat, b: nat) returns (g: nat)
    ensures g == Gcd(a, b)
  {
    var x, y := a, b;
    while y != 0
      invariant Gcd(x, y) == Gcd(a, b)
      decreases y
    {
      x, y := y, x % y;
    }
    g := x;
  }

  lemma {:induction false} GcdDivides(a: nat, b: nat) returns (x: nat, y: nat)
    ensures a == Gcd(a, b) * x && b == Gcd(a, b) * y
    decreases b
  {
    if b == 0 {
      x, y := 1, 0;
    } else {
      var u, v := GcdDivides(b, a % b);
      x, y := (a / b) * u + v, u;
      EuclidStep(a, b, a / b, a % b, Gcd(a, b), u, v);
    }
  }

  lemma EuclidStep(a: int, b: int, q: int, r: int, g: int, u: int, v: int)
    requires a == b * q + r && b == g * u && r == g * v
    ensures a == g * (q * u + v)
  {
    Distribute(g, q * u, v);
    assert (g * u) * q == g * (q * u);
  }

  lemma {:induction false} GcdPositive(a: nat, b: nat)
    requires a > 0 || b > 0
    ensures Gcd(a, b) > 0
    decreases b
  {
    if b > 0 {
      GcdPositive(b, a % b);
    }
  }

  /** The least common multiple, with zero as a neutral element. */
  function Lcm(a: nat, b: nat): nat {
    if a != 0 && b != 0 then (GcdPositive(a, b); a * b / Gcd(a, b))
    else if a != 0 then a else b
  }

  ghost predicate IsMultiple(a: int, d: int) {
    exists t :: IsTimes(a, d, t)
  }

  ghost predicate IsTimes(a: int, d: int, t: int) {
    a == d * t
  }

  lemma MultipleTransitive(a: int, b: int, d: int)
    requires IsMultiple(a, b) && IsMultiple(b, d)
    ensures IsMultiple(a, d)
  {
    var s :| IsTimes(a, b, s);
    var t :| IsTimes(b, d, t);
    assert a == d * (t * s);
    assert IsTimes(a, d, t * s);
  }

  /** The least common multiple of positive numbers is a positive multiple of both. */
  lemma LcmMultiple(a: nat, b: nat)
    requires a > 0 && b > 0
    ensures Lcm(a, b) > 0 && IsMultiple(Lcm(a, b), a) && IsMultiple(Lcm(a, b), b)
  {
    var g := Gcd(a, b);
    GcdPositive(a, b);
    var x, y := GcdDivides(a, b);
    LcmValue(g, x, y);
    assert IsTimes(Lcm(a, b), a, y) && IsTimes(Lcm(a, b), b, x);
  }

  lemma LcmValue(g: nat, x: nat, y: nat)
    requires g > 0 && g * x > 0 && g * y > 0
    ensures (g * x) * (g * y) / g == (g * x) * y == (g * y) * x > 0
  {
    assert (g * x) * (g * y) == g * ((g * x) * y);
    DivideProduct(g, (g * x) * y);
    assert x > 0 && y > 0;
    ProductPositive(g * x, y);
    assert (g * x) * y == (g * y) * x;
  }

  lemma ProductPositive(a: int, b: int)
    requires a > 0 && b > 0
    ensures a * b > 0
  {
  }

  // ----- Powers and absolute values

  function Power(x: int, e: nat): int {
    if e == 0 then 1 else x * Power(x, e - 1)
  }

  lemma {:induction false} PowerAdd(x: int, d: nat, e: nat)
    ensures Power(x, d + e) == Power(x, d) * Power(x, e)
  {
    if d > 0 {
      PowerAdd(x, d - 1, e);
      assert (x * Power(x, d - 1)) * Power(x, e) == x * (Power(x, d - 1) * Power(x, e));
    }
  }

  lemma {:induction false} PowerNonNegative(x: int, e: nat)
    requires x >= 0
    ensures Power(x, e) >= 0
  {
    if e > 0 {
      PowerNonNegative(x, e - 1);
      ProductNonNegative(x, Power(x, e - 1));
    }
  }

  function Abs(a: int): nat {
    if a < 0 then -a else a
  }

  /** What a boolean counts as. */
  function Truth(b: bool): int {
    if b then 1 else 0
  }
}
