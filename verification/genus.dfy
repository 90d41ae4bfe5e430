/**
 Genus machinery of main.py: the brute-force genus representative of a
 form, the residue set of the principal genus, the genus size of a
 discriminant and the "convenient" (idoneal) predicate.
 */
module Genus {
  import opened Arith
  import opened QuadraticForms
  import opened ClassGroup

  datatype Option<T> = None | Some(value: T)

  /** The modulus |D| = -D the genus residues live in (for D < 0). */
  function Modulus(f: QuadraticForm): int {
    -Disc(f)
  }

  /** The value of `f` at (x, y), reduced mod m, is a unit mod m. */
  predicate Admissible(f: QuadraticForm, m: int, x: int, y: int)
    requires m > 0
  {
    Coprime(Value(f, x, y) % m, m)
  }

  /** (x, y) comes before (x', y') in the row-major scan (x outer, y inner). */
  predicate ScanBefore(x: int, y: int, x': int, y': int) {
    x < x' || (x == x' && y < y')
  }

  /** (x, y) is the first point of [0, m) x [0, m), in scan order, where `f`
      takes a unit value mod m. */
  predicate FirstAdmissible(f: QuadraticForm, m: int, x: int, y: int)
    requires m > 0
  {
    && 0 <= x < m && 0 <= y < m && Admissible(f, m, x, y)
    && forall x', y' :: 0 <= x' < m && 0 <= y' < m && ScanBefore(x', y', x, y) ==> !Admissible(f, m, x', y')
  }

  /** The inner loop of the scan: column y and on of row x. */
  function ScanRow(f: QuadraticForm, m: int, x: int, y: nat): (r: Option<int>)
    requires m > 0
    ensures r.None? <==> forall y' :: y <= y' < m ==> !Admissible(f, m, x, y')
    ensures r.Some? ==> exists y' :: (y <= y' < m && Admissible(f, m, x, y') && r.value == Value(f, x, y') % m
      && forall y'' :: y <= y'' < y' ==> !Admissible(f, m, x, y''))
    decreases m - y
  {
    if y >= m then None
    else if Admissible(f, m, x, y) then Some(Value(f, x, y) % m)
    else ScanRow(f, m, x, y + 1)
  }

  /** The outer loop of the scan: rows x and on. */
  function ScanFrom(f: QuadraticForm, m: int, x: nat): (r: Option<int>)
    requires m > 0
    ensures r.None? <==> forall x', y' :: x <= x' < m && 0 <= y' < m ==> !Admissible(f, m, x', y')
    ensures r.Some? ==> exists x', y' :: (x <= x' < m && 0 <= y' < m && Admissible(f, m, x', y') && r.value == Value(f, x', y') % m
      && forall x'', y'' :: x <= x'' < m && 0 <= y'' < m && ScanBefore(x'', y'', x', y') ==> !Admissible(f, m, x'', y''))
    decreases m - x
  {
    if x >= m then None
    else
      match ScanRow(f, m, x, 0)
      case Some(k) => Some(k)
      case None => ScanFrom(f, m, x + 1)
  }

  /** `get_genus_representative()`: the residue mod |D| of the first value,
      in row-major order over [0, |D|) x [0, |D|), that is coprime to |D|;
      `None` when there is none (in particular when D >= 0, where the scan
      range is empty). */
  function GenusRepresentative(f: QuadraticForm): (r: Option<int>)
    ensures r.Some? ==> 0 <= r.value < Modulus(f) && Coprime(r.value, Modulus(f))
  {
    var m := Modulus(f);
    if m <= 0 then None else ScanFrom(f, m, 0)
  }

  /** What the scan finds: `None` exactly when no point of the square gives a
      unit, and otherwise the residue at the first point that does. */
  lemma RepresentativeIsFirst(f: QuadraticForm)
    ensures GenusRepresentative(f).None? <==>
      forall x, y :: 0 <= x < Modulus(f) && 0 <= y < Modulus(f) ==> !Admissible(f, Modulus(f), x, y)
    ensures GenusRepresentative(f).Some? ==>
      exists x, y :: FirstAdmissible(f, Modulus(f), x, y) && GenusRepresentative(f).value == Value(f, x, y) % Modulus(f)
  {
  }

  /** The loop of `get_genus_for_principal` from x on: the unit residues of
      f(x', 0) and f(x', 1) for x <= x' < bound. */
  function GenusValues(f: QuadraticForm, m: int, x: nat, bound: int): (r: set<int>)
    requires m > 0
    ensures forall k :: k in r <==> exists x', y :: x <= x' < bound && 0 <= y <= 1 && Admissible(f, m, x', y) && k == Value(f, x', y) % m
    decreases bound - x
  {
    if x >= bound then {}
    else
      var v0, v1 := Value(f, x, 0) % m, Value(f, x, 1) % m;
      var rest := GenusValues(f, m, x + 1, bound);
      var here := (if Admissible(f, m, x, 0) then {v0} else {}) + (if Admissible(f, m, x, 1) then {v1} else {});
      assert forall k :: k in here <==> exists y :: 0 <= y <= 1 && Admissible(f, m, x, y) && k == Value(f, x, y) % m by {
        forall k
          ensures k in here <==> exists y :: 0 <= y <= 1 && Admissible(f, m, x, y) && k == Value(f, x, y) % m
        {
          if exists y :: 0 <= y <= 1 && Admissible(f, m, x, y) && k == Value(f, x, y) % m {
            var y :| 0 <= y <= 1 && Admissible(f, m, x, y) && k == Value(f, x, y) % m;
            assert y == 0 || y == 1;
          }
        }
      }
      here + rest
  }

  /** `get_genus_for_principal()`: for a form (1, 0, c), the unit residues
      mod |D| of f(x, 0) and f(x, 1) for 0 <= x < 2c; empty for every other
      form. */
  function PrincipalGenus(f: QuadraticForm): (r: set<int>)
    ensures forall k :: k in r ==> 0 <= k < Modulus(f) && Coprime(k, Modulus(f))
    ensures !(f.a == 1 && f.b == 0) ==> r == {}
    ensures forall k :: k in r <==>
      (f.a == 1 && f.b == 0 && exists x, y :: 0 <= x < 2 * f.c && 0 <= y <= 1 && Admissible(f, Modulus(f), x, y) && k == Value(f, x, y) % Modulus(f))
  {
    if f.a == 1 && f.b == 0 && f.c > 0 then
      GenusValues(f, Modulus(f), 0, 2 * f.c)
    else
      {}
  }

  /** A form's genus representative lies in the residue set `genus`. */
  predicate InGenus(g: QuadraticForm, genus: set<int>) {
    var rep := GenusRepresentative(g);
    rep.Some? && rep.value in genus
  }

  /** The counting loop of `genus_size`: how many of `forms` have their
      genus representative in `genus`. */
  function CountInGenus(forms: seq<QuadraticForm>, genus: set<int>): (r: nat)
    ensures r <= |forms|
  {
    if forms == [] then 0
    else (if InGenus(forms[0], genus) then 1 else 0) + CountInGenus(forms[1..], genus)
  }

  /** `genus_size()`: how many classes of the form's discriminant have their
      genus representative in the principal genus of the form. */
  function GenusSize(f: QuadraticForm): (r: nat)
    ensures r <= NarrowClassNumber(Disc(f))
    ensures r == |set g | g in NarrowClassGroup(Disc(f)) && InGenus(g, PrincipalGenus(f))|
    ensures !(f.a == 1 && f.b == 0) ==> r == 0
  {
    var forms := NarrowClassGroup(Disc(f));
    var genus := PrincipalGenus(f);
    SortedDistinct(forms);
    CountDistinct(forms, genus);
    CountInGenus(forms, genus)
  }

  /** `is_convenient()`. */
  predicate IsConvenient(f: QuadraticForm) {
    GenusSize(f) == 1
  }

  // ---------------------------------------------------------------------
  // Lemmas

  /** On a list without repeats, the count is the size of the set of
      counted forms. */
  lemma {:induction false} CountDistinct(s: seq<QuadraticForm>, genus: set<int>)
    requires Distinct(s)
    ensures CountInGenus(s, genus) == |set g | g in s && InGenus(g, genus)|
  {
    if s != [] {
      DistinctTail(s);
      CountDistinct(s[1..], genus);
      CountedSetCons(s, genus);
    }
  }

  /** The counted set of a list is that of its tail, plus the head when the
      head is counted and does not occur in the tail. */
  lemma CountedSetCons(s: seq<QuadraticForm>, genus: set<int>)
    requires s != [] && s[0] !in s[1..]
    ensures |set g | g in s && InGenus(g, genus)| ==
      (if InGenus(s[0], genus) then 1 else 0) + |set g | g in s[1..] && InGenus(g, genus)|
  {
    var t := s[1..];
    var S := set g | g in s && InGenus(g, genus);
    var U := set g | g in t && InGenus(g, genus);
    var H := if InGenus(s[0], genus) then {s[0]} else {};
    assert s == [s[0]] + t;
    forall g | g in S
      ensures g in H + U
    {
      if g != s[0] {
        assert g in t;
      }
    }
    assert S == H + U;
    assert H !! U;
  }

  /** For n >= 2 the row x = 0 of the scan of (1, 0, n) finds nothing:
      f(0, y) = n*y^2 shares the factor n with 4n. */
  lemma RowZeroNotAdmissible(n: int, y: int)
    requires n >= 2
    ensures !Admissible(QuadraticForm(1, 0, n), 4 * n, 0, y)
  {
    var f := QuadraticForm(1, 0, n);
    var m := 4 * n;
    assert Value(f, 0, y) == n * (y * y);
    MultipleIsDivisible(n, y * y);
    MultipleIsDivisible(n, 4);
    assert n * 4 == m;
    DividesMod(n, n * (y * y), m);
    CommonDivisorNotCoprime(n, Value(f, 0, y) % m, m);
  }

  /** For n >= 2 the row x = 0 of the scan of (1, 0, n) comes back empty. */
  lemma RowZeroEmpty(n: int)
    requires n >= 2
    ensures ScanRow(QuadraticForm(1, 0, n), 4 * n, 0, 0) == None
  {
    forall y | 0 <= y < 4 * n
      ensures !Admissible(QuadraticForm(1, 0, n), 4 * n, 0, y)
    {
      RowZeroNotAdmissible(n, y);
    }
  }

  /** f(1, 0) = 1 is a unit mod 4n. */
  lemma OneAdmissible(n: int)
    requires n >= 1
    ensures Value(QuadraticForm(1, 0, n), 1, 0) % (4 * n) == 1
    ensures Admissible(QuadraticForm(1, 0, n), 4 * n, 1, 0)
  {
    var m := 4 * n;
    assert Value(QuadraticForm(1, 0, n), 1, 0) == 1;
    assert 1 % m == 1;
    GcdWithOne(m);
  }

  /** For x^2 + y^2 (n = 1) the scan passes (0, 0), where f = 0, and stops
      at (0, 1), where f = 1. The form is built from the parameter n rather
      than the literal 1 so that the verifier does not unfold the scans of a
      constant form eagerly. */
  lemma SumOfSquaresRepresentative(n: int)
    requires n == 1
    ensures GenusRepresentative(QuadraticForm(1, 0, n)) == Some(1)
  {
    var f := QuadraticForm(1, 0, n);
    var m := 4 * n;
    assert Modulus(f) == m;
    assert !Admissible(f, m, 0, 0) by {
      GcdIntZero(m);
    }
    assert Value(f, 0, 1) % m == 1 && Admissible(f, m, 0, 1) by {
      GcdWithOne(m);
    }
    assert ScanRow(f, m, 0, 0) == ScanRow(f, m, 0, 1);
    assert ScanFrom(f, m, 0) == Some(1);
  }

  /** The scan of the principal form (1, 0, n) finds the residue 1: at
      (0, 1) when n = 1, and at (1, 0) otherwise. */
  lemma PrincipalRepresentative(n: int)
    requires n >= 1
    ensures GenusRepresentative(QuadraticForm(1, 0, n)) == Some(1)
  {
    if n == 1 {
      SumOfSquaresRepresentative(n);
    } else {
      var f := QuadraticForm(1, 0, n);
      RowZeroEmpty(n);
      OneAdmissible(n);
      assert ScanRow(f, 4 * n, 1, 0) == Some(1);
      assert ScanFrom(f, 4 * n, 0) == ScanFrom(f, 4 * n, 1);
      assert Modulus(f) == 4 * n;
    }
  }

  /** The residue 1 = f(1, 0) always lies in the principal genus of (1, 0, n). */
  lemma OneInPrincipalGenus(n: int)
    requires n >= 1
    ensures 1 in PrincipalGenus(QuadraticForm(1, 0, n))
  {
    var f := QuadraticForm(1, 0, n);
    var m := Modulus(f);
    assert m == 4 * n;
    assert Value(f, 1, 0) == 1;
    assert 1 % m == 1;
    GcdWithOne(m);
    assert Admissible(f, m, 1, 0);
    assert 0 <= 1 < 2 * f.c && 0 <= 0 <= 1 && Admissible(f, m, 1, 0) && 1 == Value(f, 1, 0) % m;
  }

  /** The principal class itself lies in the principal genus, so the genus
      size of x^2 + n y^2 is at least 1. */
  lemma PrincipalInOwnGenus(n: int)
    requires n >= 1
    ensures InGenus(QuadraticForm(1, 0, n), PrincipalGenus(QuadraticForm(1, 0, n)))
    ensures GenusSize(QuadraticForm(1, 0, n)) >= 1
  {
    var f := QuadraticForm(1, 0, n);
    PrincipalRepresentative(n);
    OneInPrincipalGenus(n);
    PrincipalIsReduced(n);
    var S := set g | g in NarrowClassGroup(Disc(f)) && InGenus(g, PrincipalGenus(f));
    assert f in S;
  }

  /** `is_convenient()` holds for x^2 + n y^2 exactly when the principal
      class is the only class in the principal genus. */
  lemma ConvenientIff(n: int)
    requires n >= 1
    ensures IsConvenient(QuadraticForm(1, 0, n)) <==>
      (set g | g in NarrowClassGroup(-4 * n) && InGenus(g, PrincipalGenus(QuadraticForm(1, 0, n)))) == {QuadraticForm(1, 0, n)}
  {
    var f := QuadraticForm(1, 0, n);
    var S := set g | g in NarrowClassGroup(-4 * n) && InGenus(g, PrincipalGenus(f));
    PrincipalInOwnGenus(n);
    PrincipalIsReduced(n);
    assert f in S;
    assert GenusSize(f) == |S|;
    SingletonIff(S, f);
  }

  /** A set holding `x` has one element exactly when `x` is all it holds. */
  lemma SingletonIff<T>(S: set<T>, x: T)
    requires x in S
    ensures |S| == 1 <==> S == {x}
  {
    if |S| == 1 {
      forall y | y in S
        ensures y == x
      {
        if y != x {
          assert {x, y} <= S;
          SubsetCard({x, y}, S);
        }
      }
    }
  }

  lemma SubsetCard<T>(A: set<T>, B: set<T>)
    requires A <= B
    ensures |A| <= |B|
  {
    assert B == A + (B - A);
  }

  /** Class number 1 means the principal genus holds the principal class
      alone: x^2 + n y^2 is convenient. */
  lemma ClassNumberOneConvenient(n: int)
    requires n >= 1
    requires NarrowClassNumber(-4 * n) == 1
    ensures IsConvenient(QuadraticForm(1, 0, n))
  {
    var f := QuadraticForm(1, 0, n);
    var S := set g | g in NarrowClassGroup(-4 * n) && InGenus(g, PrincipalGenus(f));
    var G := set g | g in NarrowClassGroup(-4 * n);
    PrincipalInOwnGenus(n);
    PrincipalIsReduced(n);
    assert f in S && S <= G;
    SubsetCard(S, G);
    assert GenusSize(f) == |S|;
  }
}
