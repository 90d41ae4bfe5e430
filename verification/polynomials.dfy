/**
 Integer polynomials as coefficient lists, lowest degree first, and their
 product (`Polynomial.__mul__` of main.py). The loops are checked against
 the textbook definition of the product: coefficient t is the sum of
 p[i] * q[t - i] over 0 <= i <= t.
 */
module Polynomials {

  /** Coefficient i of p, zero outside the list. */
  function At(p: seq<int>, i: int): int {
    if 0 <= i < |p| then p[i] else 0
  }

  /** The sum of At(p, i) * At(q, t - i) for lo <= i < hi. */
  function Sum(p: seq<int>, q: seq<int>, t: int, lo: int, hi: int): int
    decreases hi - lo
  {
    if hi <= lo then 0 else Sum(p, q, t, lo, hi - 1) + At(p, hi - 1) * At(q, t - (hi - 1))
  }

  /** Coefficient t of the product: the sum over i + j = t of p[i] * q[j]. */
  function Coefficient(p: seq<int>, q: seq<int>, t: int): int {
    Sum(p, q, t, 0, t + 1)
  }

  /** The number of coefficients `__mul__` allocates: |p| + |q| - 1, and
      none when that is negative (both lists empty). */
  function ProductLength(p: seq<int>, q: seq<int>): nat {
    if |p| + |q| - 1 > 0 then |p| + |q| - 1 else 0
  }

  /** The product as a list. */
  function Product(p: seq<int>, q: seq<int>): seq<int> {
    seq(ProductLength(p, q), t => Coefficient(p, q, t))
  }

  function Zeros(n: nat): (r: seq<int>)
    ensures |r| == n && forall t :: 0 <= t < n ==> r[t] == 0
  {
    if n == 0 then [] else Zeros(n - 1) + [0]
  }

  /** The nested loops of `__mul__`: every p[i] * q[j] is added into
      position i + j of a zero list of length ProductLength(p, q). */
  method Mul(p: seq<int>, q: seq<int>) returns (r: seq<int>)
    ensures |r| == ProductLength(p, q)
    ensures r == Product(p, q)
  {
    var len := ProductLength(p, q);
    r := Zeros(len);
    for i := 0 to |p|
      invariant |r| == len
      invariant forall t :: 0 <= t < len ==> r[t] == Sum(p, q, t, 0, i)
    {
      for j := 0 to |q|
        invariant |r| == len
        invariant forall t :: 0 <= t < len ==> r[t] == Sum(p, q, t, 0, i) + (if i <= t < i + j then p[i] * q[t - i] else 0)
      {
        r := r[i + j := r[i + j] + p[i] * q[j]];
      }
    }
    forall t | 0 <= t < len
      ensures r[t] == Coefficient(p, q, t)
    {
      SumStable(p, q, t);
    }
  }

  // ---------------------------------------------------------------------
  // The sum

  /** Terms with i >= |p| vanish. */
  lemma {:induction false} SumBeyondP(p: seq<int>, q: seq<int>, t: int, n: int)
    requires n >= |p|
    ensures Sum(p, q, t, 0, n) == Sum(p, q, t, 0, |p|)
    decreases n
  {
    if n > |p| {
      SumBeyondP(p, q, t, n - 1);
    }
  }

  /** Terms with i > t vanish. */
  lemma {:induction false} SumBeyondT(p: seq<int>, q: seq<int>, t: int, n: int)
    requires t >= -1 && n >= t + 1
    ensures Sum(p, q, t, 0, n) == Sum(p, q, t, 0, t + 1)
    decreases n
  {
    if n > t + 1 {
      SumBeyondT(p, q, t, n - 1);
    }
  }

  /** The loops sum over i < |p|; that is the coefficient. */
  lemma SumStable(p: seq<int>, q: seq<int>, t: int)
    requires t >= 0
    ensures Sum(p, q, t, 0, |p|) == Coefficient(p, q, t)
  {
    var n := if |p| >= t + 1 then |p| else t + 1;
    SumBeyondP(p, q, t, n);
    SumBeyondT(p, q, t, n);
  }

  /** Peeling the lowest term instead of the highest. */
  lemma {:induction false} SumLow(p: seq<int>, q: seq<int>, t: int, lo: int, hi: int)
    requires lo < hi
    ensures Sum(p, q, t, lo, hi) == At(p, lo) * At(q, t - lo) + Sum(p, q, t, lo + 1, hi)
    decreases hi - lo
  {
    if lo + 1 < hi {
      SumLow(p, q, t, lo, hi - 1);
    }
  }

  /** Substituting i := t - i swaps the roles of p and q. */
  lemma {:induction false} SumReflect(p: seq<int>, q: seq<int>, t: int, lo: int, hi: int)
    ensures Sum(p, q, t, lo, hi) == Sum(q, p, t, t - hi + 1, t - lo + 1)
    decreases hi - lo
  {
    if lo < hi {
      SumReflect(p, q, t, lo, hi - 1);
      SumLow(q, p, t, t - hi + 1, t - lo + 1);
      assert t - (t - hi + 1) == hi - 1;
    }
  }

  /** Only the term i = t survives when q is the constant 1. */
  lemma {:induction false} SumWithOne(p: seq<int>, t: int, n: int)
    requires 0 <= n <= t
    ensures Sum(p, [1], t, 0, n) == 0
    decreases n
  {
    if n > 0 {
      SumWithOne(p, t, n - 1);
    }
  }

  // ---------------------------------------------------------------------
  // Properties of the product

  /** `p * q == q * p`, which is what makes `__rmul__ = __mul__` sound. */
  lemma ProductCommutes(p: seq<int>, q: seq<int>)
    ensures Product(p, q) == Product(q, p)
  {
    forall t | 0 <= t < ProductLength(p, q)
      ensures Coefficient(p, q, t) == Coefficient(q, p, t)
    {
      SumReflect(p, q, t, 0, t + 1);
    }
  }

  /** Multiplying by the constant polynomial [1] returns p unchanged, on
      either side (the product accumulation starts from [1]). */
  lemma ProductOne(p: seq<int>)
    ensures Product(p, [1]) == p && Product([1], p) == p
  {
    forall t | 0 <= t < |p|
      ensures Coefficient(p, [1], t) == p[t]
    {
      SumWithOne(p, t, t);
    }
    ProductCommutes(p, [1]);
  }

  /** The top coefficient of a product is the product of the top
      coefficients, so a product of monic polynomials is monic. */
  lemma LeadingCoefficient(p: seq<int>, q: seq<int>)
    requires |p| >= 1 && |q| >= 1
    ensures Product(p, q)[|p| + |q| - 2] == p[|p| - 1] * q[|q| - 1]
  {
    var t := |p| + |q| - 2;
    SumStable(p, q, t);
    SumZeroBelow(p, q, t, |p| - 1);
  }

  lemma {:induction false} SumZeroBelow(p: seq<int>, q: seq<int>, t: int, n: int)
    requires 0 <= n <= |p| && t - n >= |q| - 1
    ensures Sum(p, q, t, 0, n) == 0
    decreases n
  {
    if n > 0 {
      SumZeroBelow(p, q, t, n - 1);
    }
  }
}
