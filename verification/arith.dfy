/**
 Integer helpers shared by the model: absolute value, divisibility and the
 greatest common divisor with the conventions of Python's `math.gcd`
 (the result is the non-negative gcd of the absolute values, and
 gcd(0, 0) = 0; the three-argument form folds from the left).
 */
module Arith {

  function Abs(x: int): (r: nat)
    ensures r == x || r == -x
  {
    if x < 0 then -x else x
  }

  /** `d` is a positive divisor of `x` (every positive `d` divides 0). */
  predicate Divides(d: int, x: int) {
    d > 0 && x % d == 0
  }

  /** Euclid's algorithm on naturals. */
  function Gcd(a: nat, b: nat): nat
    decreases b
  {
    if b == 0 then a else Gcd(b, a % b)
  }

  /** `math.gcd(x, y)`. */
  function GcdInt(x: int, y: int): nat {
    Gcd(Abs(x), Abs(y))
  }

  /** `math.gcd(x, y, z)`. */
  function Gcd3(x: int, y: int, z: int): nat {
    GcdInt(GcdInt(x, y), z)
  }

  predicate Coprime(x: int, y: int) {
    GcdInt(x, y) == 1
  }

  // ---------------------------------------------------------------------
  // Divisibility facts

  lemma MultipleIsDivisible(d: int, q: int)
    requires d > 0
    ensures Divides(d, d * q)
  {
    var m := d * q;
    var t := q - m / d;
    assert m == d * (m / d) + m % d;
    assert m % d == d * q - d * (m / d);
    assert d * q - d * (m / d) == d * t;
    if t >= 1 {
      MulAtLeast(d, t);
    }
  }

  lemma MulAtLeast(d: int, t: int)
    requires d > 0 && t >= 1
    ensures d * t >= d
  {
    assert d * t == d * (t - 1) + d;
  }

  lemma DivisibleIsMultiple(d: int, x: int)
    requires Divides(d, x)
    ensures x == d * (x / d)
  {
  }

  /** A common divisor of `x` and `y` divides every combination `s*x + t*y`. */
  lemma DividesCombination(d: int, x: int, y: int, s: int, t: int)
    requires Divides(d, x) && Divides(d, y)
    ensures Divides(d, s * x + t * y)
  {
    var p, q := x / d, y / d;
    DivisibleIsMultiple(d, x);
    DivisibleIsMultiple(d, y);
    calc {
      s * x + t * y;
      s * (d * p) + t * (d * q);
      { assert s * (d * p) == d * (s * p); assert t * (d * q) == d * (t * q); }
      d * (s * p) + d * (t * q);
      d * (s * p + t * q);
    }
    MultipleIsDivisible(d, s * p + t * q);
  }

  lemma DividesNeg(d: int, x: int)
    requires d > 0
    ensures Divides(d, x) <==> Divides(d, -x)
  {
    if Divides(d, x) {
      DividesCombination(d, x, 0, -1, 0);
    }
    if Divides(d, -x) {
      DividesCombination(d, -x, 0, -1, 0);
    }
  }

  lemma DividesAbs(d: int, x: int)
    requires d > 0
    ensures Divides(d, x) <==> Divides(d, Abs(x))
  {
    DividesNeg(d, x);
  }

  /** A positive divisor of a positive number is no larger than it. */
  lemma DivisorBound(d: int, x: int)
    requires Divides(d, x) && x > 0
    ensures d <= x
  {
    DivisibleIsMultiple(d, x);
    MulAtLeast(d, x / d);
  }

  /** Divisibility of `x` by a divisor of `k` depends only on `x mod k`. */
  lemma DividesMod(d: int, x: int, k: int)
    requires k > 0 && Divides(d, k)
    ensures Divides(d, x) <==> Divides(d, x % k)
  {
    var q, r := x / k, x % k;
    assert x == k * q + r;
    if Divides(d, x) {
      DividesCombination(d, x, k, 1, -q);
      assert 1 * x + (-q) * k == r;
    }
    if Divides(d, r) {
      DividesCombination(d, r, k, 1, q);
      assert 1 * r + q * k == x;
    }
  }

  /** An odd divisor of an even number divides its half. */
  lemma OddDivisorOfHalf(d: int, x: int)
    requires Divides(d, x) && d % 2 == 1 && x % 2 == 0
    ensures Divides(d, x / 2)
  {
    DivisibleIsMultiple(d, x);
    var q := x / d;
    var h := d / 2;
    assert d == 2 * h + 1;
    assert x == 2 * (h * q) + q;
    assert q % 2 == 0;
    assert x / 2 == d * (q / 2);
    MultipleIsDivisible(d, q / 2);
  }

  /** Every divisor of an odd number is odd. */
  lemma DivisorOfOdd(d: int, x: int)
    requires Divides(d, x) && x % 2 == 1
    ensures d % 2 == 1
  {
    DivisibleIsMultiple(d, x);
    var q := x / d;
    assert x == (d % 2) * q + 2 * ((d / 2) * q);
  }

  /** Adding a multiple of a positive modulus does not change the residue. */
  lemma ModShift(x: int, q: int, k: int)
    requires k > 0
    ensures (x + q * k) % k == x % k
  {
    var y := x + q * k;
    var t := y / k - x / k - q;
    assert y == k * (y / k) + y % k;
    assert x == k * (x / k) + x % k;
    assert x % k - y % k == k * t;
    if t >= 1 {
      MulAtLeast(k, t);
    } else if t <= -1 {
      MulAtLeast(k, -t);
    }
  }

  // ---------------------------------------------------------------------
  // The gcd is characterised by its divisors

  /** The positive divisors of `Gcd(a, b)` are exactly the common divisors of `a` and `b`. */
  lemma {:induction false} GcdDivisors(a: nat, b: nat, d: int)
    requires d > 0
    ensures Divides(d, Gcd(a, b)) <==> Divides(d, a) && Divides(d, b)
    decreases b
  {
    if b == 0 {
      assert Divides(d, 0);
    } else {
      GcdDivisors(b, a % b, d);
      if Divides(d, b) {
        DividesMod(d, a, b);
      }
      if Divides(d, a) && Divides(d, b) {
        assert Divides(d, a % b);
      }
    }
  }

  lemma GcdIntDivisors(x: int, y: int, d: int)
    requires d > 0
    ensures Divides(d, GcdInt(x, y)) <==> Divides(d, x) && Divides(d, y)
  {
    GcdDivisors(Abs(x), Abs(y), d);
    DividesAbs(d, x);
    DividesAbs(d, y);
  }

  /** Only 0 is divisible by every positive number. */
  lemma DividedByAll(x: int)
    requires Divides(Abs(x) + 1, x)
    ensures x == 0
  {
    if x != 0 {
      DividesAbs(Abs(x) + 1, x);
      DivisorBound(Abs(x) + 1, Abs(x));
    }
  }

  /** A natural whose positive divisors are the common divisors of `x`
      and `y` is `GcdInt(x, y)`. */
  lemma GcdUnique(g: nat, x: int, y: int)
    requires forall d :: d > 0 ==> (Divides(d, g) <==> Divides(d, x) && Divides(d, y))
    ensures g == GcdInt(x, y)
  {
    var h := GcdInt(x, y);
    forall d | d > 0
      ensures Divides(d, g) <==> Divides(d, h)
    {
      GcdIntDivisors(x, y, d);
    }
    if g == 0 {
      assert Divides(h + 1, g);
      DividedByAll(h);
    } else if h == 0 {
      assert Divides(g + 1, h);
      DividedByAll(g);
    } else {
      assert Divides(g, g);
      assert Divides(g, h);
      DivisorBound(g, h);
      assert Divides(h, h);
      assert Divides(h, g);
      DivisorBound(h, g);
    }
  }

  lemma GcdIntSymmetric(x: int, y: int)
    ensures GcdInt(x, y) == GcdInt(y, x)
  {
    forall d | d > 0
      ensures Divides(d, GcdInt(y, x)) <==> Divides(d, y) && Divides(d, x)
    {
      GcdIntDivisors(y, x, d);
    }
    GcdUnique(GcdInt(y, x), x, y);
  }

  /** `math.gcd(x % k, k) == math.gcd(x, k)` for a positive modulus. */
  lemma GcdIntMod(x: int, k: int)
    requires k > 0
    ensures GcdInt(x % k, k) == GcdInt(x, k)
  {
    forall d | d > 0
      ensures Divides(d, GcdInt(x % k, k)) <==> Divides(d, x) && Divides(d, k)
    {
      GcdIntDivisors(x % k, k, d);
      if Divides(d, k) {
        DividesMod(d, x, k);
      }
    }
    GcdUnique(GcdInt(x % k, k), x, k);
  }

  /** Halving an even number does not change its gcd with an odd number. */
  lemma GcdIntHalf(x: int, k: int)
    requires x % 2 == 0 && k % 2 == 1
    ensures GcdInt(x / 2, k) == GcdInt(x, k)
  {
    forall d | d > 0
      ensures Divides(d, GcdInt(x / 2, k)) <==> Divides(d, x) && Divides(d, k)
    {
      GcdIntDivisors(x / 2, k, d);
      if Divides(d, x / 2) {
        DividesCombination(d, x / 2, 0, 2, 0);
      }
      if Divides(d, x) && Divides(d, k) {
        DivisorOfOdd(d, k);
        OddDivisorOfHalf(d, x);
      }
    }
    GcdUnique(GcdInt(x / 2, k), x, k);
  }

  lemma GcdIntZero(k: int)
    ensures GcdInt(0, k) == Abs(k)
  {
    forall d | d > 0
      ensures Divides(d, Abs(k)) <==> Divides(d, 0) && Divides(d, k)
    {
      DividesAbs(d, k);
    }
    GcdUnique(Abs(k), 0, k);
  }

  /** gcd(1, n) = 1. */
  lemma GcdWithOne(n: int)
    ensures GcdInt(1, n) == 1
  {
    forall d | d > 0
      ensures Divides(d, 1) <==> Divides(d, 1) && Divides(d, n)
    {
      if Divides(d, 1) {
        DivisorBound(d, 1);
      }
    }
    GcdUnique(1, 1, n);
  }

  /** Coprimality is the absence of a common divisor larger than 1. */
  lemma {:induction false} CoprimeIff(x: int, y: int)
    ensures Coprime(x, y) <==> forall d :: d > 1 ==> !(Divides(d, x) && Divides(d, y))
  {
    var g := GcdInt(x, y);
    if g == 1 {
      forall d | d > 1
        ensures !(Divides(d, x) && Divides(d, y))
      {
        GcdIntDivisors(x, y, d);
        if Divides(d, x) && Divides(d, y) {
          DivisorBound(d, 1);
        }
      }
    } else if g == 0 {
      GcdIntDivisors(x, y, 2);
      assert Divides(2, x) && Divides(2, y);
    } else {
      assert Divides(g, g);
      GcdIntDivisors(x, y, g);
      assert g > 1 && Divides(g, x) && Divides(g, y);
    }
  }

  /** A common divisor larger than 1 rules out coprimality. */
  lemma CommonDivisorNotCoprime(d: int, x: int, y: int)
    requires d > 1 && Divides(d, x) && Divides(d, y)
    ensures !Coprime(x, y)
  {
    CoprimeIff(x, y);
  }
}
