/** Option and Outcome types shared by the gadgets, the token and the search tool. */
module Wrappers {
  datatype Option<+T> = None | Some(value: T) {
    function GetOr(default: T): T {
      match this
      case Some(v) => v
      case None => default
    }
  }

  datatype Result<+R, +E> = Ok(value: R) | Err(error: E)

  datatype Outcome<+E> = Pass | Fail(error: E)
}

/**
 * The prime field F_p the circuits are defined over. The modulus stays a
 * parameter: the circuits only ever need it to be a prime larger than the
 * ranges they check. Elements are the canonical representatives 0 .. p-1.
 */
module Field {
  import opened Wrappers

  type Modulus = p: nat | p > 1 witness 2

  predicate Divides(d: nat, n: int)
    requires d > 0
  {
    n % d == 0
  }

  ghost predicate IsPrime(p: nat) {
    p > 1 && forall d: nat :: 1 < d < p ==> !Divides(d, p)
  }

  /** `F::from` on an integer: its residue. */
  function FromInt(p: Modulus, x: int): nat { x % p }

  function Add(p: Modulus, a: int, b: int): nat { (a + b) % p }

  function Sub(p: Modulus, a: int, b: int): nat { (a - b) % p }

  function Neg(p: Modulus, a: int): nat { (-a) % p }

  function Mul(p: Modulus, a: int, b: int): nat { (a * b) % p }

  // ---------------------------------------------------------------------
  // Divisibility facts needed by the extended Euclidean algorithm
  // ---------------------------------------------------------------------

  lemma MulMultiple(d: nat, k: int)
    requires d > 0
    ensures (d * k) % d == 0
  {
    var m := d * k;
    assert m == d * k + 0;
    DivModUnique(m, d, k, 0);
  }

  /** Euclidean division is unique: the quotient and remainder are determined. */
  lemma DivModUnique(x: int, d: nat, q: int, r: int)
    requires d > 0 && 0 <= r < d && x == d * q + r
    ensures x / d == q && x % d == r
  {
    var q0, r0 := x / d, x % d;
    assert x == d * q0 + r0;
    var t := q - q0;
    assert d * t == r0 - r;
    if t >= 1 {
      MulAtLeast(d, t);
    } else if t <= -1 {
      MulAtLeast(d, -t);
    }
  }

  lemma MulAtLeast(d: nat, t: int)
    requires t >= 1
    ensures d * t >= d
  {
    assert d * t == d * (t - 1) + d;
  }

  lemma DividesCombination(d: nat, x: int, y: int, m: int, n: int)
    requires d > 0 && Divides(d, x) && Divides(d, y)
    ensures Divides(d, m * x + n * y)
  {
    var kx, ky := x / d, y / d;
    assert x == d * kx;
    assert y == d * ky;
    calc {
      m * x + n * y;
      m * (d * kx) + n * (d * ky);
      d * (m * kx + n * ky);
    }
    MulMultiple(d, m * kx + n * ky);
  }

  lemma DivisorBounded(d: nat, n: nat)
    requires d > 0 && n > 0 && Divides(d, n)
    ensures d <= n
  {
    var k := n / d;
    assert n == d * k;
    assert k >= 1;
    assert d * k >= d * 1;
  }

  /**
   * Extended Euclid: the gcd g of a and b with Bezout coefficients,
   * a*x + b*y == g, and g divides both.
   */
  function ExtGcd(a: nat, b: nat): (r: (nat, int, int))
    decreases b
    ensures a * r.1 + b * r.2 == r.0
    ensures (a > 0 || b > 0) ==> r.0 > 0
    ensures r.0 > 0 ==> Divides(r.0, a) && Divides(r.0, b)
  {
    if b == 0 then (a, 1, 0)
    else
      var q, m := a / b, a % b;
      var t := ExtGcd(b, m);
      var g, x, y := t.0, t.1, t.2;
      EuclidDivision(a, b);
      BezoutStep(a, b, q, m, x, y);
      if g > 0 then
        DividesCombination(g, b, m, q, 1);
        (g, y, x - q * y)
      else
        (g, y, x - q * y)
  }

  lemma EuclidDivision(a: nat, b: nat)
    requires b > 0
    ensures a == b * (a / b) + a % b
  {
  }

  /** The Bezout coefficients of (b, a mod b) give those of (a, b). */
  lemma BezoutStep(a: int, b: int, q: int, m: int, x: int, y: int)
    requires a == b * q + m
    ensures a * y + b * (x - q * y) == b * x + m * y
  {
    calc {
      a * y + b * (x - q * y);
      a * y + b * x - (b * q) * y;
      (b * q + m) * y + b * x - (b * q) * y;
      b * x + m * y;
    }
  }

  /** With p prime and p not dividing v, the gcd of v and p is 1. */
  lemma CoprimeToPrime(p: nat, v: nat)
    requires IsPrime(p) && 0 < v < p
    ensures ExtGcd(v, p).0 == 1
  {
    var g := ExtGcd(v, p).0;
    assert g > 0 && Divides(g, v) && Divides(g, p);
    DivisorBounded(g, v);
  }

  lemma ModOfBezout(p: Modulus, v: int, x: int, y: int)
    requires v * x + p * y == 1
    ensures (v * (x % p)) % p == 1
  {
    var k := x / p;
    assert x == p * k + x % p;
    assert v * (x % p) == 1 + p * (-y - v * k) by {
      calc {
        v * (x % p);
        v * (x - p * k);
        v * x - p * (v * k);
        1 - p * y - p * (v * k);
      }
    }
    DivModUnique(v * (x % p), p, -y - v * k, 1);
  }

  /**
   * What `value.invert().unwrap_or(F::zero())` yields: 0 for zero, and the
   * element that multiplies v to one otherwise.
   */
  predicate IsInverseOrZero(p: Modulus, v: int, inv: nat) {
    inv < p && (v % p == 0 ==> inv == 0) && (v % p != 0 ==> Mul(p, v, inv) == 1)
  }

  /**
   * `F::invert` by the iterative extended Euclidean algorithm on (v mod p, p):
   * None for zero, otherwise the inverse. Only the coefficient of v is kept.
   */
  method Invert(p: Modulus, v: int) returns (r: Option<nat>)
    requires IsPrime(p)
    ensures v % p == 0 <==> r.None?
    ensures r.Some? ==> r.value < p && Mul(p, v, r.value) == 1
  {
    var c := v % p;
    if c == 0 {
      return None;
    }
    var oldR: nat, rem: nat := c, p;
    var oldS: int, s: int := 1, 0;
    assert c * oldS - oldR == 0;
    assert c * s - rem == p * (-1);
    MulMultiple(p, -1);
    while rem != 0
      invariant ExtGcd(oldR, rem).0 == ExtGcd(c, p).0
      invariant Divides(p, c * oldS - oldR)
      invariant Divides(p, c * s - rem)
      decreases rem
    {
      var q := oldR / rem;
      EuclidGcdStep(oldR, rem);
      EuclidStep(p, c, oldR, rem, oldS, s);
      oldR, rem := rem, oldR % rem;
      oldS, s := s, oldS - q * s;
    }
    EuclidDone(p, v, oldR, oldS);
    r := Some(oldS % p);
  }

  /** One step of the loop keeps the gcd. */
  lemma EuclidGcdStep(a: nat, b: nat)
    requires b != 0
    ensures ExtGcd(b, a % b).0 == ExtGcd(a, b).0
  {
  }

  /** One step of the loop keeps both congruences: old_s - q*s is again a coefficient of the new remainder. */
  lemma EuclidStep(p: Modulus, c: int, oldR: nat, rem: nat, oldS: int, s: int)
    requires rem != 0
    requires Divides(p, c * oldS - oldR) && Divides(p, c * s - rem)
    ensures Divides(p, c * (oldS - (oldR / rem) * s) - oldR % rem)
  {
    var q, m := oldR / rem, oldR % rem;
    var x, y := c * oldS - oldR, c * s - rem;
    EuclidDivision(oldR, rem);
    EuclidStepArith(c, oldR, rem, q, m, oldS, s);
    DividesCombination(p, x, y, 1, -q);
  }

  /** The step's new coefficient, as a combination of the two old congruences. */
  lemma EuclidStepArith(c: int, oldR: int, rem: int, q: int, m: int, oldS: int, s: int)
    requires oldR == rem * q + m
    ensures c * (oldS - q * s) - m == 1 * (c * oldS - oldR) + (-q) * (c * s - rem)
  {
    var qcs, qr := q * (c * s), q * rem;
    assert c * (oldS - q * s) == c * oldS - qcs;
    assert (-q) * (c * s - rem) == qr - qcs;
    assert rem * q == qr;
  }

  /** When the remainder reaches zero, old_r is the gcd 1 and old_s the inverse. */
  lemma EuclidDone(p: Modulus, v: int, oldR: nat, oldS: int)
    requires IsPrime(p) && v % p != 0
    requires ExtGcd(oldR, 0).0 == ExtGcd(v % p, p).0
    requires Divides(p, (v % p) * oldS - oldR)
    ensures oldS % p < p && Mul(p, v, oldS % p) == 1
  {
    CoprimeToPrime(p, v % p);
    assert oldR == 1;
    InverseFromCongruence(p, v, oldS);
  }

  lemma InverseFromCongruence(p: Modulus, v: int, x: int)
    requires Divides(p, (v % p) * x - 1)
    ensures Mul(p, v, x % p) == 1
  {
    var k := ((v % p) * x - 1) / p;
    assert (v % p) * x - 1 == p * k;
    assert (v % p) * x == p * k + 1;
    DivModUnique((v % p) * x, p, k, 1);
    ModProductLeft(p, v, x);
    MulReduced(p, v, x);
  }

  /** Reducing a factor before multiplying does not change the product's residue. */
  lemma ModProductLeft(p: Modulus, a: int, b: int)
    ensures (a * b) % p == ((a % p) * b) % p
  {
    var k := a / p;
    assert a == p * k + a % p;
    assert a * b == (a % p) * b + p * (k * b);
    ModAddMultiple(p, (a % p) * b, k * b);
  }

  lemma ModAddMultiple(p: Modulus, x: int, k: int)
    ensures (x + p * k) % p == x % p
  {
    var q := x / p;
    assert x == p * q + x % p;
    assert x + p * k == p * (q + k) + x % p;
    DivModUnique(x + p * k, p, q + k, x % p);
  }

  /** With p prime every value has exactly one inverse-or-zero. */
  lemma InverseUnique(p: Modulus, v: int, i: nat, j: nat)
    requires IsPrime(p)
    requires IsInverseOrZero(p, v, i) && IsInverseOrZero(p, v, j)
    ensures i == j
  {
    if v % p != 0 {
      SubReduced(p, v * i, v * j);
      ModSmall(p, 1);
      assert Sub(p, v * i, v * j) == 0;
      assert v * i - v * j == v * (i - j);
      assert Mul(p, v, i - j) == 0;
      NoZeroDivisors(p, v, i - j);
      assert Sub(p, i, j) == 0;
      SubZero(p, i, j);
    }
  }

  lemma InverseExists(p: Modulus, v: int)
    requires IsPrime(p)
    ensures exists inv: nat :: IsInverseOrZero(p, v, inv)
  {
    var c := v % p;
    if c == 0 {
      assert IsInverseOrZero(p, v, 0);
    } else {
      CoprimeToPrime(p, c);
      var t := ExtGcd(c, p);
      ModOfBezout(p, c, t.1, t.2);
      MulReduced(p, v, t.1 % p);
      assert IsInverseOrZero(p, v, t.1 % p);
    }
  }

  /**
   * F_p has no zero divisors: from Bezout with p, if p does not divide a,
   * then a*b == 0 forces b == 0.
   */
  lemma NoZeroDivisors(p: Modulus, a: int, b: int)
    requires IsPrime(p)
    ensures Mul(p, a, b) == 0 <==> a % p == 0 || b % p == 0
  {
    if a % p == 0 {
      ModProductLeft(p, a, b);
      assert (0 * b) % p == 0;
    } else if b % p == 0 {
      ModProductLeft(p, b, a);
      assert (0 * a) % p == 0;
      assert a * b == b * a;
    } else if (a * b) % p == 0 {
      ModProductLeft(p, a, b);
      EuclidPrime(p, a % p, b);
    }
  }

  /** Euclid's lemma: a prime dividing c*b with 0 < c < p divides b. */
  lemma EuclidPrime(p: Modulus, c: nat, b: int)
    requires IsPrime(p) && 0 < c < p && Divides(p, c * b)
    ensures Divides(p, b)
  {
    var x, y := BezoutPrime(p, c);
    MulMultiple(p, b);
    DividesCombination(p, c * b, p * b, x, y);
    Factor(c, b, p, x, y);
    assert x * (c * b) + y * (p * b) == b;
  }

  /** Bezout coefficients of c and a prime p it is below: c*x + p*y == 1. */
  lemma BezoutPrime(p: Modulus, c: nat) returns (x: int, y: int)
    requires IsPrime(p) && 0 < c < p
    ensures c * x + p * y == 1
  {
    CoprimeToPrime(p, c);
    var t := ExtGcd(c, p);
    x, y := t.1, t.2;
  }

  /** With c*x + p*y == 1, the combination x*(c*b) + y*(p*b) is b. */
  lemma Factor(c: int, b: int, p: int, x: int, y: int)
    requires c * x + p * y == 1
    ensures x * (c * b) + y * (p * b) == b
  {
    assert x * (c * b) + y * (p * b) == b * (c * x + p * y);
  }

  lemma AddNeg(p: Modulus, a: int, b: int)
    ensures Add(p, a, Neg(p, b)) == Sub(p, a, b)
  {
    var k := (-b) / p;
    assert -b == p * k + (-b) % p;
    assert a + (-b) % p == (a - b) + p * (-k);
    ModAddMultiple(p, a - b, -k);
  }

  lemma MulAssoc(p: Modulus, a: int, b: int, c: int)
    ensures Mul(p, Mul(p, a, b), c) == Mul(p, a, Mul(p, b, c))
  {
    ModProductLeft(p, a * b, c);
    MulReduced(p, a, b * c);
    assert (a * b) * c == a * (b * c);
  }

  lemma MulComm(p: Modulus, a: int, b: int)
    ensures Mul(p, a, b) == Mul(p, b, a)
  {
    assert a * b == b * a;
  }

  /** Subtracting twice: a - (a - b) is b. */
  lemma SubSub(p: Modulus, a: nat, b: int)
    requires a < p
    ensures Sub(p, a, Sub(p, a, b)) == b % p
  {
    SubReduced(p, a, a - b);
    ModSmall(p, a);
    assert a - (a - b) == b;
  }

  /** A residue differs from its argument by a multiple of the modulus. */
  lemma ResidueDifference(p: Modulus, x: int)
    ensures Divides(p, x - x % p)
  {
    var q := x / p;
    assert x - x % p == p * q;
    MulMultiple(p, q);
  }

  /** The only multiple of p strictly between -p and p is 0. */
  lemma SmallMultipleZero(p: Modulus, d: int)
    requires -d < p && d < p && Divides(p, d)
    ensures d == 0
  {
    if d > 0 {
      DivModUnique(d, p, 0, d);
    } else if d < 0 {
      DivModUnique(d, p, -1, d + p);
    }
  }

  /** An odd prime does not divide a power of two. */
  lemma {:induction false} Pow2NotMultiple(p: Modulus, k: nat)
    requires IsPrime(p) && p > 2
    ensures Pow2(k) % p != 0
  {
    if k == 0 {
      ModSmall(p, 1);
    } else {
      Pow2NotMultiple(p, k - 1);
      NoZeroDivisors(p, 2, Pow2(k - 1));
      ModSmall(p, 2);
    }
  }

  lemma MulReduced(p: Modulus, a: int, b: int)
    ensures Mul(p, a % p, b) == Mul(p, a, b) && Mul(p, a, b % p) == Mul(p, a, b)
  {
    ModProductLeft(p, a, b);
    ModProductLeft(p, b, a);
    assert a * b == b * a && (b % p) * a == a * (b % p);
  }

  lemma SubReduced(p: Modulus, a: int, b: int)
    ensures Sub(p, a % p, b % p) == Sub(p, a, b)
  {
    var ka, kb := a / p, b / p;
    assert a == p * ka + a % p;
    assert b == p * kb + b % p;
    assert a % p - b % p == (a - b) + p * (kb - ka);
    ModAddMultiple(p, a - b, kb - ka);
  }

  /** Two field elements are equal exactly when their difference is zero. */
  lemma SubZero(p: Modulus, a: nat, b: nat)
    requires a < p && b < p
    ensures Sub(p, a, b) == 0 <==> a == b
  {
    if a > b {
      DivModUnique(a - b, p, 0, a - b);
    } else if a < b {
      DivModUnique(a - b, p, -1, a - b + p);
    }
  }

  lemma ModSmall(p: Modulus, x: int)
    requires 0 <= x < p
    ensures x % p == x
  {
    DivModUnique(x, p, 0, x);
  }

  lemma MulIdentity(p: Modulus, a: nat)
    requires a < p
    ensures Mul(p, 1, a) == a && Mul(p, a, 1) == a
  {
  }

  lemma MulZero(p: Modulus, a: int)
    ensures Mul(p, 0, a) == 0 && Mul(p, a, 0) == 0
  {
  }

  // ---------------------------------------------------------------------
  // Powers of two (`1 << k`)
  // ---------------------------------------------------------------------

  function Pow2(k: nat): (r: nat)
    ensures r >= 1
  {
    if k == 0 then 1 else 2 * Pow2(k - 1)
  }

  /** `x >> k` on unbounded naturals. */
  function ShiftRight(x: nat, k: nat): nat {
    var d: nat := Pow2(k);
    DivNonnegative(x, d);
    x / d
  }

  lemma DivNonnegative(x: nat, d: nat)
    requires d > 0
    ensures x / d >= 0
  {
  }

  lemma {:induction false} Pow2Add(a: nat, b: nat)
    ensures Pow2(a + b) == Pow2(a) * Pow2(b)
  {
    if b > 0 {
      Pow2Add(a, b - 1);
      assert Pow2(a + b) == 2 * Pow2(a + b - 1);
    }
  }

  lemma {:induction false} Pow2Exceeds(k: nat)
    ensures k < Pow2(k)
  {
    if k > 0 {
      Pow2Exceeds(k - 1);
    }
  }

  lemma {:induction false} Pow2Monotone(a: nat, b: nat)
    requires a <= b
    ensures Pow2(a) <= Pow2(b)
  {
    if a < b {
      Pow2Monotone(a, b - 1);
    }
  }
}
