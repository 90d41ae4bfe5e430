/**
 Enumeration of the narrow class group of a negative discriminant
 (`narrow_class_group` and `narrow_class_number` of main.py): every reduced
 primitive positive-definite form of discriminant D, in increasing (a, b)
 order.
 */
module ClassGroup {
  import opened Arith
  import opened QuadraticForms

  /** Lexicographic order on (a, b), the order the enumeration visits forms in. */
  predicate FormLess(f: QuadraticForm, g: QuadraticForm) {
    f.a < g.a || (f.a == g.a && f.b < g.b)
  }

  predicate StrictlySorted(s: seq<QuadraticForm>) {
    forall i, j :: 0 <= i < j < |s| ==> FormLess(s[i], s[j])
  }

  /** The forms the enumeration keeps. */
  predicate IsClassOf(D: int, f: QuadraticForm) {
    Disc(f) == D && IsReducedPosDef(f)
  }

  /** The candidate the inner loop builds for (a, b): c is the floor of
      (b^2 - D) / 4a, which is exact only for some b. */
  function Candidate(D: int, a: int, b: int): QuadraticForm
    requires a >= 1
  {
    QuadraticForm(a, b, (b * b - D) / (4 * a))
  }

  /** The inner loop: candidates (a, b'), b <= b' <= a, that are kept. */
  function Row(D: int, a: int, b: int): (r: seq<QuadraticForm>)
    requires a >= 1
    ensures forall g :: g in r ==> g.a == a && b <= g.b <= a && IsClassOf(D, g)
    ensures StrictlySorted(r)
    decreases a + 1 - b
  {
    if b > a then []
    else
      var f := Candidate(D, a, b);
      (if IsClassOf(D, f) then [f] else []) + Row(D, a, b + 1)
  }

  /** The outer loop from `a` on, while a^2 <= -D/3 (stated exactly as 3a^2 <= -D). */
  function From(D: int, a: int): (r: seq<QuadraticForm>)
    requires a >= 1
    ensures forall g :: g in r ==> g.a >= a && IsClassOf(D, g)
    ensures StrictlySorted(r)
    decreases -D - a
  {
    if 3 * a * a <= -D then
      assert a <= 3 * a * a by { MulAtLeast(3 * a, a); }
      var row, rest := Row(D, a, -a), From(D, a + 1);
      assert forall i, j :: 0 <= i < |row| <= j < |row + rest| ==> FormLess((row + rest)[i], (row + rest)[j]) by {
        forall i, j | 0 <= i < |row| <= j < |row + rest|
          ensures FormLess((row + rest)[i], (row + rest)[j])
        {
          assert (row + rest)[i] == row[i] && row[i] in row;
          assert (row + rest)[j] == rest[j - |row|] && rest[j - |row|] in rest;
        }
      }
      row + rest
    else
      []
  }

  /** `narrow_class_group(D)`: exactly the reduced forms of discriminant D,
      strictly increasing in (a, b). */
  function NarrowClassGroup(D: int): (r: seq<QuadraticForm>)
    ensures forall g :: g in r <==> IsClassOf(D, g)
    ensures StrictlySorted(r)
  {
    forall g | IsClassOf(D, g)
      ensures g in From(D, 1)
    {
      ReducedBound(g);
      FromComplete(D, 1, g);
    }
    From(D, 1)
  }

  /** `narrow_class_number(D)`: the number of distinct reduced forms of
      discriminant D. */
  function NarrowClassNumber(D: int): (h: nat)
    ensures h == |set g | g in NarrowClassGroup(D)|
  {
    SortedDistinct(NarrowClassGroup(D));
    DistinctCount(NarrowClassGroup(D));
    |NarrowClassGroup(D)|
  }

  // ---------------------------------------------------------------------
  // Lemmas

  /** The quotient of an exact division by a positive number. */
  lemma ExactQuotient(m: int, q: int)
    requires m > 0
    ensures (m * q) / m == q && (m * q) % m == 0
  {
    MultipleIsDivisible(m, q);
    var t := q - (m * q) / m;
    assert m * t == 0;
    if t > 0 {
      MulAtLeast(m, t);
    }
  }

  /** The floor division picks the right c exactly when it is exact: a
      candidate has discriminant D iff 4a divides b^2 - D. Inexact
      candidates are the ones the discriminant test rejects. */
  lemma CandidateExact(D: int, a: int, b: int)
    requires a >= 1
    ensures Disc(Candidate(D, a, b)) == D <==> (b * b - D) % (4 * a) == 0
  {
    var m, c := 4 * a, (b * b - D) / (4 * a);
    assert b * b - D == m * c + (b * b - D) % m;
    assert Disc(Candidate(D, a, b)) == b * b - m * c;
  }

  /** A form with first coefficient `a` and discriminant D is the candidate
      the enumeration builds for its (a, b). */
  lemma CandidateOfForm(D: int, g: QuadraticForm)
    requires g.a >= 1 && Disc(g) == D
    ensures Candidate(D, g.a, g.b) == g
  {
    assert g.b * g.b - D == (4 * g.a) * g.c;
    ExactQuotient(4 * g.a, g.c);
  }

  lemma {:induction false} RowComplete(D: int, a: int, b: int, g: QuadraticForm)
    requires a >= 1 && g.a == a && b <= g.b <= a && IsClassOf(D, g)
    ensures g in Row(D, a, b)
    decreases a + 1 - b
  {
    if g.b == b {
      CandidateOfForm(D, g);
    } else {
      RowComplete(D, a, b + 1, g);
    }
  }

  lemma SquareMono(a: int, b: int)
    requires 0 <= a <= b
    ensures a * a <= b * b
  {
    MulNonNegMono(a, b, a);
    MulNonNegMono(a, b, b);
  }

  /** Every reduced form of discriminant D with first coefficient at least
      `a` is produced from `a` on. */
  lemma {:induction false} FromComplete(D: int, a: int, g: QuadraticForm)
    requires a >= 1 && g.a >= a && IsClassOf(D, g)
    ensures g in From(D, a)
    decreases -D - a
  {
    ReducedBound(g);
    SquareMono(a, g.a);
    assert 3 * a * a <= -D;
    if g.a == a {
      RowComplete(D, a, -a, g);
    } else {
      assert a <= 3 * a * a by { MulAtLeast(3 * a, a); }
      FromComplete(D, a + 1, g);
    }
  }

  predicate Distinct<T(==)>(s: seq<T>) {
    forall i, j :: 0 <= i < j < |s| ==> s[i] != s[j]
  }

  /** A strictly sorted sequence has no repeated forms. */
  lemma SortedDistinct(s: seq<QuadraticForm>)
    requires StrictlySorted(s)
    ensures Distinct(s)
  {
    forall i, j | 0 <= i < j < |s|
      ensures s[i] != s[j]
    {
      assert FormLess(s[i], s[j]);
    }
  }

  /** Dropping the head keeps a sequence without repeats, and the head is
      not in the rest. */
  lemma DistinctTail<T>(s: seq<T>)
    requires s != [] && Distinct(s)
    ensures Distinct(s[1..]) && s[0] !in s[1..]
  {
    var t := s[1..];
    forall i, j | 0 <= i < j < |t|
      ensures t[i] != t[j]
    {
      assert t[i] == s[i + 1] && t[j] == s[j + 1];
    }
    forall j | 0 <= j < |t|
      ensures t[j] != s[0]
    {
      assert t[j] == s[j + 1];
    }
  }

  /** A sequence without repeats has as many distinct elements as entries. */
  lemma {:induction false} DistinctCount(s: seq<QuadraticForm>)
    requires Distinct(s)
    ensures |set g | g in s| == |s|
  {
    if s != [] {
      var t := s[1..];
      DistinctTail(s);
      DistinctCount(t);
      assert (set g | g in s) == {s[0]} + (set g | g in t) by {
        assert s == [s[0]] + t;
      }
    }
  }

  /** The principal form (1, 0, n) is reduced of discriminant -4n. */
  lemma PrincipalIsReduced(n: int)
    requires n >= 1
    ensures IsClassOf(-4 * n, QuadraticForm(1, 0, n))
  {
    GcdWithOne(0);
    GcdWithOne(n);
  }

  /** For D = -4n the enumeration starts with the principal form (1, 0, n). */
  lemma PrincipalFirst(n: int)
    requires n >= 1
    ensures |NarrowClassGroup(-4 * n)| >= 1
    ensures NarrowClassGroup(-4 * n)[0] == QuadraticForm(1, 0, n)
  {
    var G := NarrowClassGroup(-4 * n);
    var p := QuadraticForm(1, 0, n);
    PrincipalIsReduced(n);
    assert p in G;
    assert G[0] in G;
  }

  /** The class number counts the reduced forms of discriminant D, and the
      principal class makes it at least 1 for D = -4n. */
  lemma ClassNumberPositive(n: int)
    requires n >= 1
    ensures NarrowClassNumber(-4 * n) >= 1
  {
    PrincipalFirst(n);
  }

  /** Non-negative discriminants have an empty class group. */
  lemma EmptyForNonNegative(D: int)
    requires D >= 0
    ensures NarrowClassGroup(D) == []
  {
  }
}
