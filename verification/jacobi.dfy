/**
 The Jacobi symbol (n/k) by the binary algorithm of `jacobi_symbol` in
 main.py (factor-of-2 extraction and reciprocity swaps), and the residue
 filter that calls it for a discriminant D: the i in [1, |D|] coprime to |D|
 with (D/i) = 1.

 An even k is outside the symbol's domain: the source prints a warning and
 runs its loops anyway, and so does the model. Every property of the symbol
 below assumes an odd k; the loops themselves are defined for every k > 0.
 */
module JacobiSymbols {
  import opened Arith

  predicate IsSign(t: int) {
    t == 1 || t == -1
  }

  /** The arguments `jacobi_symbol` accepts without its "Bad args" warning. */
  predicate ValidModulus(k: int) {
    k > 0 && k % 2 == 1
  }

  /** The inner loop: divide n by 2 while it is even, flipping the sign once
      per factor when k mod 8 is 3 or 5. The odd part keeps the gcd with an
      odd k. */
  function StripTwos(n: int, k: int, t: int): (r: (int, int))
    requires n > 0 && k > 0 && IsSign(t)
    ensures 0 < r.0 <= n && r.0 % 2 == 1 && IsSign(r.1)
    ensures k % 2 == 1 ==> GcdInt(r.0, k) == GcdInt(n, k)
    decreases n
  {
    if n % 2 == 0 then
      assert k % 2 == 1 ==> GcdInt(n / 2, k) == GcdInt(n, k) by {
        if k % 2 == 1 {
          GcdIntHalf(n, k);
        }
      }
      StripTwos(n / 2, k, if k % 8 == 3 || k % 8 == 5 then -t else t)
    else
      (n, t)
  }

  /** The outer loop from the state (n, k, t) with 0 <= n < k: strip the
      twos, swap n and k (flipping the sign when both are 3 mod 4), reduce,
      and stop at n = 0 with t when k = 1 and 0 otherwise. */
  function Loop(n: int, k: int, t: int): (r: int)
    requires 0 <= n < k && IsSign(t)
    ensures r == 0 || IsSign(r)
    ensures k % 2 == 1 ==> (r == 0 <==> GcdInt(n, k) != 1)
    decreases k
  {
    if n == 0 then
      GcdIntZero(k);
      if k == 1 then t else 0
    else
      var (m, s) := StripTwos(n, k, t);
      var s' := if k % 4 == 3 && m % 4 == 3 then -s else s;
      GcdIntMod(k, m);
      GcdIntSymmetric(k, m);
      Loop(k % m, m, s')
  }

  /** `jacobi_symbol(n, k)` for k > 0: a sign or 0, and for an odd k it is
      0 exactly when n and k share a factor. */
  function Jacobi(n: int, k: int): (r: int)
    requires k > 0
    ensures r == 0 || r == 1 || r == -1
    ensures ValidModulus(k) ==> (r == 0 <==> GcdInt(n, k) != 1)
    ensures k == 1 ==> r == 1
  {
    GcdIntMod(n, k);
    Loop(n % k, k, 1)
  }

  /** The loops of `jacobi_symbol` as written compute `Jacobi`. */
  method ComputeJacobi(n0: int, k0: int) returns (r: int)
    requires k0 > 0
    ensures r == Jacobi(n0, k0)
    ensures r == 0 || r == 1 || r == -1
    ensures ValidModulus(k0) ==> (r == 0 <==> GcdInt(n0, k0) != 1)
  {
    var n, k, t := n0 % k0, k0, 1;
    while n != 0
      invariant 0 <= n < k && IsSign(t)
      invariant Loop(n, k, t) == Jacobi(n0, k0)
      decreases k
    {
      ghost var n1, t1 := n, t;
      while n % 2 == 0
        invariant 0 < n <= n1 && IsSign(t)
        invariant StripTwos(n, k, t) == StripTwos(n1, k, t1)
        decreases n
      {
        n := n / 2;
        var r8 := k % 8;
        if r8 == 3 || r8 == 5 {
          t := -t;
        }
      }
      n, k := k, n;
      if n % 4 == 3 && k % 4 == 3 {
        t := -t;
      }
      n := n % k;
    }
    if k == 1 {
      r := t;
    } else {
      r := 0;
    }
  }

  // ---------------------------------------------------------------------
  // Properties of the symbol

  /** (n/k) depends only on n mod k. */
  lemma JacobiPeriodic(n: int, q: int, k: int)
    requires k > 0
    ensures Jacobi(n + q * k, k) == Jacobi(n, k)
  {
    ModShift(n, q, k);
  }

  /** (1/k) = 1. */
  lemma JacobiOfOne(k: int)
    requires ValidModulus(k)
    ensures Jacobi(1, k) == 1
  {
    if k > 1 {
      assert 1 % k == 1;
      assert StripTwos(1, k, 1) == (1, 1);
      assert Loop(1, k, 1) == Loop(0, 1, 1);
    }
  }

  /** The second supplement: for odd k > 0, (2/k) is 1 when k is 1 or 7
      mod 8 and -1 when k is 3 or 5 mod 8. */
  lemma JacobiOfTwo(k: int)
    requires ValidModulus(k)
    ensures Jacobi(2, k) == if k % 8 == 1 || k % 8 == 7 then 1 else -1
  {
    if k > 1 {
      var s := TwoSign(k);
      assert 2 % k == 2 by {
        SmallResidue(2, k);
      }
      HalveTwo(k);
      assert k % 1 == 0;
      assert Loop(2, k, 1) == Loop(0, 1, s);
    }
  }

  /** The sign one halving contributes: -1 exactly when k is 3 or 5 mod 8. */
  function TwoSign(k: int): int {
    if k % 8 == 3 || k % 8 == 5 then -1 else 1
  }

  /** The halving loop on n = 2 stops after one step at the odd part 1. */
  lemma HalveTwo(k: int)
    requires ValidModulus(k)
    ensures StripTwos(2, k, 1) == (1, TwoSign(k))
    ensures TwoSign(k) == if k % 8 == 1 || k % 8 == 7 then 1 else -1
  {
    OddResidueMod8(k);
    assert StripTwos(1, k, TwoSign(k)) == (1, TwoSign(k));
  }

  lemma SmallResidue(x: int, k: int)
    requires 0 <= x < k
    ensures x % k == x
  {
  }

  lemma OddResidueMod8(k: int)
    requires k % 2 == 1
    ensures k % 8 == 1 || k % 8 == 3 || k % 8 == 5 || k % 8 == 7
  {
    assert k == 8 * (k / 8) + k % 8;
    assert k == 2 * (4 * (k / 8)) + k % 8;
  }

  /** The exponent of 2 in a positive n. */
  function Val2(n: int): (e: nat)
    requires n > 0
    decreases n
  {
    if n % 2 == 0 then 1 + Val2(n / 2) else 0
  }

  function Pow2(e: nat): (r: int)
    ensures r >= 1
  {
    if e == 0 then 1 else 2 * Pow2(e - 1)
  }

  /** The halving loop splits n into 2^Val2(n) times its odd part, and flips
      the sign once per factor 2 when k is 3 or 5 mod 8: the sign changes
      exactly when k is 3 or 5 mod 8 and Val2(n) is odd. */
  lemma StripTwosOddPart(n: int, k: int, t: int)
    requires n > 0 && k > 0 && IsSign(t)
    ensures n == Pow2(Val2(n)) * StripTwos(n, k, t).0
    ensures StripTwos(n, k, t).1 == if (k % 8 == 3 || k % 8 == 5) && Val2(n) % 2 == 1 then -t else t
  {
    StripTwosFactor(n, k, t);
    StripTwosFlips(n, k, t);
  }

  lemma {:induction false} StripTwosFactor(n: int, k: int, t: int)
    requires n > 0 && k > 0 && IsSign(t)
    ensures n == Pow2(Val2(n)) * StripTwos(n, k, t).0
    decreases n
  {
    if n % 2 == 0 {
      var t' := if k % 8 == 3 || k % 8 == 5 then -t else t;
      StripTwosFactor(n / 2, k, t');
      assert StripTwos(n, k, t).0 == StripTwos(n / 2, k, t').0;
      DoubleFactor(n, Pow2(Val2(n / 2)), StripTwos(n / 2, k, t').0);
    }
  }

  /** If n is even and n / 2 == p * m then n == (2 * p) * m. */
  lemma DoubleFactor(n: int, p: int, m: int)
    requires n % 2 == 0 && n / 2 == p * m
    ensures n == (2 * p) * m
  {
    assert n == 2 * (n / 2);
    assert 2 * (p * m) == (2 * p) * m;
  }

  lemma ParityStep(v: int)
    ensures (v + 1) % 2 == 1 <==> v % 2 == 0
  {
  }

  lemma {:induction false} StripTwosFlips(n: int, k: int, t: int)
    requires n > 0 && k > 0 && IsSign(t)
    ensures StripTwos(n, k, t).1 == if (k % 8 == 3 || k % 8 == 5) && Val2(n) % 2 == 1 then -t else t
    decreases n
  {
    if n % 2 == 0 {
      var t' := if k % 8 == 3 || k % 8 == 5 then -t else t;
      StripTwosFlips(n / 2, k, t');
      var v := Val2(n / 2);
      assert StripTwos(n, k, t).1 == StripTwos(n / 2, k, t').1;
      assert Val2(n) == v + 1;
      ParityStep(v);
    }
  }

  /** The running sign only multiplies the result. */
  lemma {:induction false} StripTwosSign(n: int, k: int, t: int)
    requires n > 0 && k > 0 && IsSign(t)
    ensures StripTwos(n, k, -t) == (StripTwos(n, k, t).0, -StripTwos(n, k, t).1)
    decreases n
  {
    if n % 2 == 0 {
      StripTwosSign(n / 2, k, if k % 8 == 3 || k % 8 == 5 then -t else t);
    }
  }

  lemma {:induction false} LoopSign(n: int, k: int, t: int)
    requires 0 <= n < k && IsSign(t)
    ensures Loop(n, k, -t) == -Loop(n, k, t)
    decreases k
  {
    if n != 0 {
      StripTwosSign(n, k, t);
      var (m, s) := StripTwos(n, k, t);
      var s' := if k % 4 == 3 && m % 4 == 3 then -s else s;
      LoopSign(k % m, m, s');
    }
  }

  /** Quadratic reciprocity, as the swap step of the loop realises it: for
      odd positive m and n, (m/n) = (n/m) unless both are 3 mod 4, when
      (m/n) = -(n/m). */
  lemma Reciprocity(m: int, n: int)
    requires ValidModulus(m) && ValidModulus(n)
    ensures Jacobi(m, n) == if m % 4 == 3 && n % 4 == 3 then -Jacobi(n, m) else Jacobi(n, m)
  {
    if m < n {
      ReciprocityBelow(m, n);
    } else if n < m {
      ReciprocityBelow(n, m);
    } else {
      JacobiSelf(n);
    }
  }

  /** (n/n) is 0 except for n = 1. */
  lemma JacobiSelf(n: int)
    requires n > 0
    ensures Jacobi(n, n) == if n == 1 then 1 else 0
  {
    assert n % n == 0;
    assert Jacobi(n, n) == Loop(0, n, 1);
  }

  lemma ReciprocityBelow(m: int, n: int)
    requires ValidModulus(m) && ValidModulus(n) && m < n
    ensures Jacobi(m, n) == if m % 4 == 3 && n % 4 == 3 then -Jacobi(n, m) else Jacobi(n, m)
  {
    assert m % n == m;
    assert StripTwos(m, n, 1) == (m, 1);
    LoopSign(n % m, m, 1);
  }

  // ---------------------------------------------------------------------
  // The residue filter

  /** An integer coprime to an even modulus is odd. */
  lemma CoprimeToEvenIsOdd(i: int, m: int)
    requires m % 2 == 0 && Coprime(i, m)
    ensures i % 2 == 1
  {
    if i % 2 == 0 {
      CommonDivisorNotCoprime(2, i, m);
    }
  }

  predicate Increasing(s: seq<int>) {
    forall p, q :: 0 <= p < q < |s| ==> s[p] < s[q]
  }

  /** i passes the filter for D: 1 <= i <= |D|, i is coprime to |D|, and
      `jacobi_symbol(D, i)` is 1. */
  predicate PassesFilter(D: int, i: int) {
    1 <= i <= -D && Coprime(i, -D) && Jacobi(D, i) == 1
  }

  /** The filter loop from i on. */
  function ResiduesFrom(D: int, i: int): (r: seq<int>)
    requires i >= 1
    ensures forall j :: j in r <==> i <= j && PassesFilter(D, j)
    ensures Increasing(r)
    decreases -D + 1 - i
  {
    if i > -D then []
    else
      var rest := ResiduesFrom(D, i + 1);
      if Coprime(i, -D) && Jacobi(D, i) == 1 then
        assert forall q :: 0 <= q < |rest| ==> i < rest[q] by {
          forall q | 0 <= q < |rest|
            ensures i < rest[q]
          {
            assert rest[q] in rest;
          }
        }
        [i] + rest
      else
        rest
  }

  /** The residues collected for the discriminant D: in increasing order,
      exactly the i in [1, |D|] coprime to |D| with `jacobi_symbol(D, i)` = 1
      (none when D >= 0). */
  function ResidueList(D: int): (r: seq<int>)
    ensures forall j :: j in r <==> PassesFilter(D, j)
    ensures Increasing(r)
    ensures D >= 0 ==> r == []
  {
    ResiduesFrom(D, 1)
  }

  /** For an even discriminant every call of the filter is inside the
      symbol's domain, the gcd test is implied by the symbol, and the list is
      the odd i in [1, |D|] with (D/i) = 1. */
  lemma EvenDiscriminantFilter(D: int, i: int)
    requires D % 2 == 0
    ensures 1 <= i <= -D && Coprime(i, -D) ==> ValidModulus(i)
    ensures PassesFilter(D, i) <==> 1 <= i <= -D && i % 2 == 1 && Jacobi(D, i) == 1
  {
    if 1 <= i <= -D && Coprime(i, -D) {
      CoprimeToEvenIsOdd(i, -D);
    }
    if 1 <= i <= -D && i % 2 == 1 && Jacobi(D, i) == 1 {
      GcdIntSymmetric(D, i);
      assert GcdInt(i, D) == GcdInt(i, -D);
    }
  }

  /** For the odd discriminant -3 the filter calls the symbol with the even
      modulus 2, which the source reports as bad arguments, and keeps 2. */
  lemma OddDiscriminantEvenModulus()
    ensures !ValidModulus(2) && 2 in ResidueList(-3)
  {
    ConsecutiveCoprime(2);
    assert -3 % 2 == 1;
    assert Loop(1, 2, 1) == Loop(0, 1, 1);
  }

  /** Consecutive integers are coprime. */
  lemma ConsecutiveCoprime(x: int)
    requires x >= 1
    ensures Coprime(x, x + 1)
  {
    assert (x + 1) % x == 1 % x;
    GcdIntMod(x + 1, x);
    GcdIntMod(1, x);
    GcdWithOne(x);
    GcdIntSymmetric(1 % x, x);
    GcdIntSymmetric(x + 1, x);
  }
}
