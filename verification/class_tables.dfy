/**
 The small cases of the enumeration and of the idoneal test worked out in
 full: the class groups of -4n for n = 1, ..., 10 and n = 14, the
 convenience of x^2 + n y^2 for n = 1, ..., 10, and the failure of it
 for n = 14. A discriminant is a parameter pinned by a
 `requires` rather than a literal, so that the verifier does not unfold
 the enumeration of a constant eagerly.
 */
module ClassTables {
  import opened Arith
  import opened QuadraticForms
  import opened ClassGroup
  import opened Genus

  // ---------------------------------------------------------------------
  // Certificates

  /** Weights with s*a + t*b + u*c = 1 show that a form is primitive. */
  lemma PrimitiveByCombination(f: QuadraticForm, s: int, t: int, u: int)
    requires s * f.a + t * f.b + u * f.c == 1
    ensures IsPrimitive(f)
  {
    PrimitiveIff(f);
    forall d | d > 1
      ensures !(Divides(d, f.a) && Divides(d, f.b) && Divides(d, f.c))
    {
      if Divides(d, f.a) && Divides(d, f.b) && Divides(d, f.c) {
        DividesCombination(d, f.a, f.b, s, t);
        DividesCombination(d, s * f.a + t * f.b, f.c, 1, u);
        DivisorBound(d, 1);
      }
    }
  }

  /** A common divisor d > 1 of the coefficients shows a form is not primitive. */
  lemma NotPrimitiveBy(f: QuadraticForm, d: int)
    requires d > 1 && Divides(d, f.a) && Divides(d, f.b) && Divides(d, f.c)
    ensures !IsPrimitive(f)
  {
    PrimitiveIff(f);
  }

  /** The shape of a form the enumeration keeps: a in the search range,
      |b| <= a, b of the parity of D, and c fixed by a, b and D. */
  lemma ClassShape(D: int, g: QuadraticForm)
    requires IsClassOf(D, g)
    ensures Shape(D, g.a, g.b, g.c)
  {
    ReducedBound(g);
    ShapeOfReduced(D, g.a, g.b, g.c);
  }

  lemma ShapeOfReduced(D: int, a: int, b: int, c: int)
    requires b * b - 4 * a * c == D && a >= 1 && Abs(b) <= a && 3 * a * a <= -D
    ensures Shape(D, a, b, c)
  {
    assert 3 * a * a == 3 * (a * a) && 4 * a * c == 4 * (a * c);
    DiscParity(b, D, a * c);
  }

  /** The arithmetic the enumeration's search range and discriminant test
      leave for (a, b, c). */
  predicate Shape(D: int, a: int, b: int, c: int) {
    a >= 1 && 3 * (a * a) <= -D && -a <= b <= a && (b - D) % 2 == 0 && 4 * a * c == b * b - D
  }

  /** b^2 - D = 4p forces b and D to have the same parity. */
  lemma DiscParity(b: int, D: int, p: int)
    requires b * b - D == 4 * p
    ensures (b - D) % 2 == 0
  {
    SquareParity(b);
    var h := (b * b - b) / 2;
    assert b * b - b == 2 * h;
    assert b - D == 2 * (2 * p - h);
  }

  /** b^2 has the parity of b. */
  lemma SquareParity(b: int)
    ensures (b * b - b) % 2 == 0
  {
    assert b * b - b == 2 * (b * (b - 1) / 2) by {
      ConsecutiveProductEven(b);
    }
  }

  lemma ConsecutiveProductEven(b: int)
    ensures (b * (b - 1)) % 2 == 0
  {
    var q, r := b / 2, b % 2;
    assert b == 2 * q + r;
    if r == 0 {
      assert b * (b - 1) == 2 * (q * (b - 1));
    } else {
      assert b - 1 == 2 * q;
      assert b * (b - 1) == 2 * (b * q);
    }
  }

  /** a >= k forces 3a^2 >= 3k^2: the search range ends below k. */
  lemma SearchEnds(a: int, k: int)
    requires 0 <= k <= a
    ensures 3 * (k * k) <= 3 * (a * a)
  {
    SquareMono(k, a);
  }

  // ---------------------------------------------------------------------
  // A class group is determined by its members

  /** Two strictly sorted lists with the same members are equal. */
  lemma {:induction false} SortedUnique(s: seq<QuadraticForm>, t: seq<QuadraticForm>)
    requires StrictlySorted(s) && StrictlySorted(t)
    requires forall g :: g in s <==> g in t
    ensures s == t
    decreases |s|
  {
    if t != [] {
      assert t[0] in s;
    }
    if s != [] {
      assert s[0] in t;
      SortedHead(s, t[0]);
      SortedHead(t, s[0]);
      SortedTail(s);
      SortedTail(t);
      forall g
        ensures g in s[1..] <==> g in t[1..]
      {
        SortedMember(s, g);
        SortedMember(t, g);
      }
      SortedUnique(s[1..], t[1..]);
      assert s == [s[0]] + s[1..] && t == [t[0]] + t[1..];
    }
  }

  /** Every member of a strictly sorted list is its head or comes after it. */
  lemma SortedHead(s: seq<QuadraticForm>, x: QuadraticForm)
    requires StrictlySorted(s) && x in s
    ensures x == s[0] || FormLess(s[0], x)
  {
    var k :| 0 <= k < |s| && s[k] == x;
    if k > 0 {
      assert FormLess(s[0], s[k]);
    }
  }

  lemma SortedTail(s: seq<QuadraticForm>)
    requires s != [] && StrictlySorted(s)
    ensures StrictlySorted(s[1..])
  {
    forall i, j | 0 <= i < j < |s| - 1
      ensures FormLess(s[1..][i], s[1..][j])
    {
      assert s[1..][i] == s[i + 1] && s[1..][j] == s[j + 1];
    }
  }

  /** In a strictly sorted list, the members after the head are the members
      other than the head. */
  lemma SortedMember(s: seq<QuadraticForm>, g: QuadraticForm)
    requires s != [] && StrictlySorted(s)
    ensures g in s[1..] <==> g in s && g != s[0]
  {
    SortedDistinct(s);
    DistinctTail(s);
    assert s == [s[0]] + s[1..];
  }

  /** The enumeration of D is the strictly sorted list L as soon as L holds
      exactly the reduced forms of discriminant D. */
  lemma GroupIs(D: int, L: seq<QuadraticForm>)
    requires StrictlySorted(L)
    requires forall g :: IsClassOf(D, g) <==> g in L
    ensures NarrowClassGroup(D) == L
  {
    SortedUnique(NarrowClassGroup(D), L);
  }

  // ---------------------------------------------------------------------
  // The class groups of -4n for the tabulated n

  /** The (a, b, c) in the search range of -4 that pass the discriminant test. */
  lemma Shapes4(D: int, a: int, b: int, c: int)
    requires D == -4 && Shape(D, a, b, c)
    ensures (a, b, c) == (1, 0, 1)
  {
    if a > 1 {
      SearchEnds(a, 2);
    }

  }

  /** x^2 + y^2 alone: h(-4) = 1. */
  lemma GroupMinus4(D: int)
    requires D == -4
    ensures NarrowClassGroup(D) == [QuadraticForm(1, 0, 1)]
  {
    PrincipalIsReduced(1);
    forall g
      ensures IsClassOf(D, g) <==> g in [QuadraticForm(1, 0, 1)]
    {
      if IsClassOf(D, g) {
        ClassShape(D, g);
        Shapes4(D, g.a, g.b, g.c);
      }
    }
    GroupIs(D, [QuadraticForm(1, 0, 1)]);
  }

  /** The (a, b, c) in the search range of -8 that pass the discriminant test. */
  lemma Shapes8(D: int, a: int, b: int, c: int)
    requires D == -8 && Shape(D, a, b, c)
    ensures (a, b, c) == (1, 0, 2)
  {
    if a > 1 {
      SearchEnds(a, 2);
    }

  }

  /** x^2 + 2y^2 alone: h(-8) = 1. */
  lemma GroupMinus8(D: int)
    requires D == -8
    ensures NarrowClassGroup(D) == [QuadraticForm(1, 0, 2)]
  {
    PrincipalIsReduced(2);
    forall g
      ensures IsClassOf(D, g) <==> g in [QuadraticForm(1, 0, 2)]
    {
      if IsClassOf(D, g) {
        ClassShape(D, g);
        Shapes8(D, g.a, g.b, g.c);
      }
    }
    GroupIs(D, [QuadraticForm(1, 0, 2)]);
  }

  /** The (a, b, c) in the search range of -12 that pass the discriminant test. */
  lemma Shapes12(D: int, a: int, b: int, c: int)
    requires D == -12 && Shape(D, a, b, c)
    ensures (a, b, c) == (1, 0, 3) || (a, b, c) == (2, -2, 2) || (a, b, c) == (2, 2, 2)
  {
    if a > 2 {
      SearchEnds(a, 3);
    }
    if a == 2 {
      assert 8 * c == b * b + 12;
    }
  }

  /** x^2 + 3y^2 alone; (2, +-2, 2) is not primitive: h(-12) = 1. */
  lemma GroupMinus12(D: int)
    requires D == -12
    ensures NarrowClassGroup(D) == [QuadraticForm(1, 0, 3)]
  {
    PrincipalIsReduced(3);
    NotPrimitiveBy(QuadraticForm(2, 2, 2), 2);
    NotPrimitiveBy(QuadraticForm(2, -2, 2), 2);
    forall g
      ensures IsClassOf(D, g) <==> g in [QuadraticForm(1, 0, 3)]
    {
      if IsClassOf(D, g) {
        ClassShape(D, g);
        Shapes12(D, g.a, g.b, g.c);
      }
    }
    GroupIs(D, [QuadraticForm(1, 0, 3)]);
  }

  /** The (a, b, c) in the search range of -16 that pass the discriminant test. */
  lemma Shapes16(D: int, a: int, b: int, c: int)
    requires D == -16 && Shape(D, a, b, c)
    ensures (a, b, c) == (1, 0, 4) || (a, b, c) == (2, 0, 2)
  {
    if a > 2 {
      SearchEnds(a, 3);
    }
    if a == 2 {
      assert 8 * c == b * b + 16;
    }
  }

  /** x^2 + 4y^2 alone; (2, 0, 2) is not primitive: h(-16) = 1. */
  lemma GroupMinus16(D: int)
    requires D == -16
    ensures NarrowClassGroup(D) == [QuadraticForm(1, 0, 4)]
  {
    PrincipalIsReduced(4);
    NotPrimitiveBy(QuadraticForm(2, 0, 2), 2);
    forall g
      ensures IsClassOf(D, g) <==> g in [QuadraticForm(1, 0, 4)]
    {
      if IsClassOf(D, g) {
        ClassShape(D, g);
        Shapes16(D, g.a, g.b, g.c);
      }
    }
    GroupIs(D, [QuadraticForm(1, 0, 4)]);
  }

  /** The (a, b, c) in the search range of -28 that pass the discriminant test. */
  lemma Shapes28(D: int, a: int, b: int, c: int)
    requires D == -28 && Shape(D, a, b, c)
    ensures (a, b, c) == (1, 0, 7) || (a, b, c) == (2, -2, 4) || (a, b, c) == (2, 2, 4)
  {
    if a > 3 {
      SearchEnds(a, 4);
    }
    if a == 2 {
      assert 8 * c == b * b + 28;
    }
  }

  /** x^2 + 7y^2 alone; (2, +-2, 4) is not primitive: h(-28) = 1. */
  lemma GroupMinus28(D: int)
    requires D == -28
    ensures NarrowClassGroup(D) == [QuadraticForm(1, 0, 7)]
  {
    PrincipalIsReduced(7);
    NotPrimitiveBy(QuadraticForm(2, 2, 4), 2);
    NotPrimitiveBy(QuadraticForm(2, -2, 4), 2);
    forall g
      ensures IsClassOf(D, g) <==> g in [QuadraticForm(1, 0, 7)]
    {
      if IsClassOf(D, g) {
        ClassShape(D, g);
        Shapes28(D, g.a, g.b, g.c);
      }
    }
    GroupIs(D, [QuadraticForm(1, 0, 7)]);
  }

  /** The (a, b, c) in the search range of -20 that pass the discriminant test. */
  lemma Shapes20(D: int, a: int, b: int, c: int)
    requires D == -20 && Shape(D, a, b, c)
    ensures (a, b, c) == (1, 0, 5) || (a, b, c) == (2, -2, 3) || (a, b, c) == (2, 2, 3)
  {
    if a > 2 {
      SearchEnds(a, 3);
    }
    if a == 2 {
      assert 8 * c == b * b + 20;
    }
  }

  /** x^2 + 5y^2 and 2x^2 + 2xy + 3y^2; (2, -2, 3) is the same class and loses the tie-break: h(-20) = 2. */
  lemma GroupMinus20(D: int)
    requires D == -20
    ensures NarrowClassGroup(D) == [QuadraticForm(1, 0, 5), QuadraticForm(2, 2, 3)]
  {
    PrincipalIsReduced(5);
    PrimitiveByCombination(QuadraticForm(2, 2, 3), -1, 0, 1);
    forall g
      ensures IsClassOf(D, g) <==> g in [QuadraticForm(1, 0, 5), QuadraticForm(2, 2, 3)]
    {
      if IsClassOf(D, g) {
        ClassShape(D, g);
        Shapes20(D, g.a, g.b, g.c);
      }
    }
    GroupIs(D, [QuadraticForm(1, 0, 5), QuadraticForm(2, 2, 3)]);
  }

  /** The (a, b, c) in the search range of -24 that pass the discriminant test. */
  lemma Shapes24(D: int, a: int, b: int, c: int)
    requires D == -24 && Shape(D, a, b, c)
    ensures (a, b, c) == (1, 0, 6) || (a, b, c) == (2, 0, 3)
  {
    if a > 2 {
      SearchEnds(a, 3);
    }
    if a == 2 {
      assert 8 * c == b * b + 24;
    }
  }

  /** x^2 + 6y^2 and 2x^2 + 3y^2: h(-24) = 2. */
  lemma GroupMinus24(D: int)
    requires D == -24
    ensures NarrowClassGroup(D) == [QuadraticForm(1, 0, 6), QuadraticForm(2, 0, 3)]
  {
    PrincipalIsReduced(6);
    PrimitiveByCombination(QuadraticForm(2, 0, 3), -1, 0, 1);
    forall g
      ensures IsClassOf(D, g) <==> g in [QuadraticForm(1, 0, 6), QuadraticForm(2, 0, 3)]
    {
      if IsClassOf(D, g) {
        ClassShape(D, g);
        Shapes24(D, g.a, g.b, g.c);
      }
    }
    GroupIs(D, [QuadraticForm(1, 0, 6), QuadraticForm(2, 0, 3)]);
  }

  /** The (a, b, c) in the search range of -32 that pass the discriminant test. */
  lemma Shapes32(D: int, a: int, b: int, c: int)
    requires D == -32 && Shape(D, a, b, c)
    ensures (a, b, c) == (1, 0, 8) || (a, b, c) == (2, 0, 4) || (a, b, c) == (3, -2, 3) || (a, b, c) == (3, 2, 3)
  {
    if a > 3 {
      SearchEnds(a, 4);
    }
    if a == 2 {
      assert 8 * c == b * b + 32;
    }
    if a == 3 {
      assert 12 * c == b * b + 32;
    }
  }

  /** x^2 + 8y^2 and 3x^2 + 2xy + 3y^2; (3, -2, 3) loses the tie-break and (2, 0, 4) is not primitive: h(-32) = 2. */
  lemma GroupMinus32(D: int)
    requires D == -32
    ensures NarrowClassGroup(D) == [QuadraticForm(1, 0, 8), QuadraticForm(3, 2, 3)]
  {
    PrincipalIsReduced(8);
    PrimitiveByCombination(QuadraticForm(3, 2, 3), 1, -1, 0);
    NotPrimitiveBy(QuadraticForm(2, 0, 4), 2);
    forall g
      ensures IsClassOf(D, g) <==> g in [QuadraticForm(1, 0, 8), QuadraticForm(3, 2, 3)]
    {
      if IsClassOf(D, g) {
        ClassShape(D, g);
        Shapes32(D, g.a, g.b, g.c);
      }
    }
    GroupIs(D, [QuadraticForm(1, 0, 8), QuadraticForm(3, 2, 3)]);
  }

  /** The (a, b, c) in the search range of -36 that pass the discriminant test. */
  lemma Shapes36(D: int, a: int, b: int, c: int)
    requires D == -36 && Shape(D, a, b, c)
    ensures (a, b, c) == (1, 0, 9) || (a, b, c) == (2, -2, 5) || (a, b, c) == (2, 2, 5) || (a, b, c) == (3, 0, 3)
  {
    if a > 3 {
      SearchEnds(a, 4);
    }
    if a == 2 {
      assert 8 * c == b * b + 36;
    }
    if a == 3 {
      assert 12 * c == b * b + 36;
    }
  }

  /** x^2 + 9y^2 and 2x^2 + 2xy + 5y^2; (2, -2, 5) loses the tie-break and (3, 0, 3) is not primitive: h(-36) = 2. */
  lemma GroupMinus36(D: int)
    requires D == -36
    ensures NarrowClassGroup(D) == [QuadraticForm(1, 0, 9), QuadraticForm(2, 2, 5)]
  {
    PrincipalIsReduced(9);
    PrimitiveByCombination(QuadraticForm(2, 2, 5), -2, 0, 1);
    NotPrimitiveBy(QuadraticForm(3, 0, 3), 3);
    forall g
      ensures IsClassOf(D, g) <==> g in [QuadraticForm(1, 0, 9), QuadraticForm(2, 2, 5)]
    {
      if IsClassOf(D, g) {
        ClassShape(D, g);
        Shapes36(D, g.a, g.b, g.c);
      }
    }
    GroupIs(D, [QuadraticForm(1, 0, 9), QuadraticForm(2, 2, 5)]);
  }

  /** The (a, b, c) in the search range of -40 that pass the discriminant test. */
  lemma Shapes40(D: int, a: int, b: int, c: int)
    requires D == -40 && Shape(D, a, b, c)
    ensures (a, b, c) == (1, 0, 10) || (a, b, c) == (2, 0, 5)
  {
    if a > 3 {
      SearchEnds(a, 4);
    }
    if a == 2 {
      assert 8 * c == b * b + 40;
    }
  }

  /** x^2 + 10y^2 and 2x^2 + 5y^2: h(-40) = 2. */
  lemma GroupMinus40(D: int)
    requires D == -40
    ensures NarrowClassGroup(D) == [QuadraticForm(1, 0, 10), QuadraticForm(2, 0, 5)]
  {
    PrincipalIsReduced(10);
    PrimitiveByCombination(QuadraticForm(2, 0, 5), -2, 0, 1);
    forall g
      ensures IsClassOf(D, g) <==> g in [QuadraticForm(1, 0, 10), QuadraticForm(2, 0, 5)]
    {
      if IsClassOf(D, g) {
        ClassShape(D, g);
        Shapes40(D, g.a, g.b, g.c);
      }
    }
    GroupIs(D, [QuadraticForm(1, 0, 10), QuadraticForm(2, 0, 5)]);
  }

  /** The (a, b, c) in the search range of -56 that pass the discriminant test. */
  lemma Shapes56(D: int, a: int, b: int, c: int)
    requires D == -56 && Shape(D, a, b, c)
    ensures (a, b, c) == (1, 0, 14) || (a, b, c) == (2, 0, 7) || (a, b, c) == (3, -2, 5) || (a, b, c) == (3, 2, 5)
  {
    if a > 4 {
      SearchEnds(a, 5);
    }
    if a == 2 {
      assert 8 * c == b * b + 56;
    }
    if a == 3 {
      assert 12 * c == b * b + 56;
    }
  }

  /** x^2 + 14y^2, 2x^2 + 7y^2 and 3x^2 -+ 2xy + 5y^2, the last two a pair of inverse classes that are both reduced: h(-56) = 4. */
  lemma GroupMinus56(D: int)
    requires D == -56
    ensures NarrowClassGroup(D) == [QuadraticForm(1, 0, 14), QuadraticForm(2, 0, 7), QuadraticForm(3, -2, 5), QuadraticForm(3, 2, 5)]
  {
    PrincipalIsReduced(14);
    PrimitiveByCombination(QuadraticForm(2, 0, 7), -3, 0, 1);
    PrimitiveByCombination(QuadraticForm(3, -2, 5), 1, 1, 0);
    PrimitiveByCombination(QuadraticForm(3, 2, 5), -1, 2, 0);
    forall g
      ensures IsClassOf(D, g) <==> g in [QuadraticForm(1, 0, 14), QuadraticForm(2, 0, 7), QuadraticForm(3, -2, 5), QuadraticForm(3, 2, 5)]
    {
      if IsClassOf(D, g) {
        ClassShape(D, g);
        Shapes56(D, g.a, g.b, g.c);
      }
    }
    GroupIs(D, [QuadraticForm(1, 0, 14), QuadraticForm(2, 0, 7), QuadraticForm(3, -2, 5), QuadraticForm(3, 2, 5)]);
  }

  // ---------------------------------------------------------------------
  // Genus representatives

  /** Weights with s*x + t*m = 1 show that x is a unit mod m. */
  lemma CoprimeByCombination(x: int, m: int, s: int, t: int)
    requires s * x + t * m == 1
    ensures Coprime(x, m)
  {
    CoprimeIff(x, m);
    forall d | d > 1
      ensures !(Divides(d, x) && Divides(d, m))
    {
      if Divides(d, x) && Divides(d, m) {
        DividesCombination(d, x, m, s, t);
        DivisorBound(d, 1);
      }
    }
  }

  /** A value sharing a factor d > 1 with m is no unit mod m. */
  lemma SharedFactor(f: QuadraticForm, m: int, d: int, x: int, y: int)
    requires m > 0 && d > 1 && Divides(d, Value(f, x, y)) && Divides(d, m)
    ensures !Admissible(f, m, x, y)
  {
    DividesMod(d, Value(f, x, y), m);
    CommonDivisorNotCoprime(d, Value(f, x, y) % m, m);
  }

  /** f(0, y) = c*y^2, so a factor d > 1 shared by c and m rules out the
      whole row x = 0 of the scan. */
  lemma RowZeroShared(f: QuadraticForm, m: int, d: int, y: int)
    requires m > 0 && d > 1 && Divides(d, f.c) && Divides(d, m)
    ensures !Admissible(f, m, 0, y)
  {
    assert Value(f, 0, y) == (y * y) * f.c + 0 * m;
    DividesCombination(d, f.c, m, y * y, 0);
    SharedFactor(f, m, d, 0, y);
  }

  /** When (x, y) is the first point of the scan where the form takes a
      unit value, the representative is that value. */
  lemma RepresentativeAt(f: QuadraticForm, x: int, y: int)
    requires Modulus(f) > 0 && FirstAdmissible(f, Modulus(f), x, y)
    ensures GenusRepresentative(f) == Some(Value(f, x, y) % Modulus(f))
  {
    var m := Modulus(f);
    RepresentativeIsFirst(f);
    assert GenusRepresentative(f).Some?;
    var x', y' :| FirstAdmissible(f, m, x', y') && GenusRepresentative(f).value == Value(f, x', y') % m;
    assert !ScanBefore(x', y', x, y) && !ScanBefore(x, y, x', y');
  }

  /** The scan of a form whose row x = 0 is ruled out by a factor d of c and
      m, and which has no unit at (1, 0), stops at (1, 1). */
  lemma RepresentativeAtOneOne(f: QuadraticForm, d: int)
    requires Modulus(f) > 1 && d > 1 && Divides(d, f.c) && Divides(d, Modulus(f))
    requires !Admissible(f, Modulus(f), 1, 0) && Admissible(f, Modulus(f), 1, 1)
    ensures GenusRepresentative(f) == Some(Value(f, 1, 1) % Modulus(f))
  {
    var m := Modulus(f);
    forall y | 0 <= y < m
      ensures !Admissible(f, m, 0, y)
    {
      RowZeroShared(f, m, d, y);
    }
    RepresentativeAt(f, 1, 1);
  }

  /** The scan of a form with no unit at (0, 0) and a unit at (0, 1) stops
      at (0, 1). */
  lemma RepresentativeAtZeroOne(f: QuadraticForm)
    requires Modulus(f) > 1
    requires !Admissible(f, Modulus(f), 0, 0) && Admissible(f, Modulus(f), 0, 1)
    ensures GenusRepresentative(f) == Some(Value(f, 0, 1) % Modulus(f))
  {
    RepresentativeAt(f, 0, 1);
  }

  /** The value at the origin is 0, a unit only modulo 1. */
  lemma OriginNotAdmissible(f: QuadraticForm, m: int)
    requires m > 1
    ensures !Admissible(f, m, 0, 0)
  {
    assert Value(f, 0, 0) % m == 0;
    GcdIntZero(m);
  }

  // ---------------------------------------------------------------------
  // Principal genera

  /** x^2 + n*y^2 with y in {0, 1}, reduced mod q, written through u = x mod q. */
  function PrincipalResidue(n: int, u: int, y: int, q: int): int
    requires q > 0
  {
    (u * u + n * y) % q
  }

  /** The squares of 0, ..., 7, the residues the tables below need. */
  lemma SmallSquare(u: int)
    requires 0 <= u < 8
    ensures u * u == [0, 1, 4, 9, 16, 25, 36, 49][u]
  {
  }

  lemma ModOfMod(v: int, m: int, q: int)
    requires m > 0 && Divides(q, m)
    ensures (v % m) % q == v % q
  {
    var k := m / q;
    DivisibleIsMultiple(q, m);
    assert v == v % m + (k * (v / m)) * q;
    ModShift(v % m, k * (v / m), q);
  }

  /** Reducing the value of x^2 + n*y^2 (y in {0, 1}) mod q only depends on
      x mod q. */
  lemma PrincipalValueMod(n: int, x: int, y: int, q: int)
    requires q > 0 && 0 <= y <= 1
    ensures Value(QuadraticForm(1, 0, n), x, y) % q == PrincipalResidue(n, x % q, y, q)
  {
    var t, u := x / q, x % q;
    assert x == q * t + u;
    assert x * x == u * u + (q * t * t + 2 * t * u) * q;
    assert Value(QuadraticForm(1, 0, n), x, y) == (u * u + n * y) + (q * t * t + 2 * t * u) * q;
    ModShift(u * u + n * y, q * t * t + 2 * t * u, q);
  }

  /** A residue r is outside the principal genus of x^2 + n*y^2 when, for
      some q dividing 4n, no u and y in {0, 1} give u^2 + n*y = r mod q. */
  lemma OutsidePrincipalGenus(n: int, r: int, q: int)
    requires n >= 1 && q > 0 && Divides(q, 4 * n)
    requires forall u, y :: 0 <= u < q && 0 <= y <= 1 ==> PrincipalResidue(n, u, y, q) != r % q
    ensures r !in PrincipalGenus(QuadraticForm(1, 0, n))
  {
    var f := QuadraticForm(1, 0, n);
    var m := Modulus(f);
    assert m == 4 * n;
    if r in PrincipalGenus(f) {
      var x, y :| 0 <= x < 2 * f.c && 0 <= y <= 1 && Admissible(f, m, x, y) && r == Value(f, x, y) % m;
      ModOfMod(Value(f, x, y), m, q);
      PrincipalValueMod(n, x, y, q);
    }
  }

  /** With exactly two classes, the principal one and g, x^2 + n*y^2 is
      convenient as soon as g's representative lies outside the principal
      genus. */
  lemma ConvenientTwoClasses(n: int, g: QuadraticForm, r: int)
    requires n >= 1
    requires NarrowClassGroup(-4 * n) == [QuadraticForm(1, 0, n), g]
    requires GenusRepresentative(g) == Some(r) && r !in PrincipalGenus(QuadraticForm(1, 0, n))
    ensures IsConvenient(QuadraticForm(1, 0, n))
  {
    var p := QuadraticForm(1, 0, n);
    var S := set h | h in NarrowClassGroup(-4 * n) && InGenus(h, PrincipalGenus(p));
    PrincipalInOwnGenus(n);
    PrincipalIsReduced(n);
    assert p in S && !InGenus(g, PrincipalGenus(p));
    assert S == {p};
    ConvenientIff(n);
  }

  // ---------------------------------------------------------------------
  // The non-principal classes of the tabulated discriminants

  /** 2x^2 + 2xy + 3y^2 (discriminant -20) is 0 at (0, 0) and 3 at (0, 1). */
  lemma Representative223(g: QuadraticForm)
    requires g == QuadraticForm(2, 2, 3)
    ensures GenusRepresentative(g) == Some(3)
  {
    var m := Modulus(g);
    assert m == 20;
    assert !Admissible(g, m, 0, 0) by {
      OriginNotAdmissible(g, m);
    }
    assert Value(g, 0, 1) % m == 3 && Admissible(g, m, 0, 1) by {
      CoprimeByCombination(3, m, 7, -1);
    }
    RepresentativeAtZeroOne(g);
  }

  /** 3x^2 + 2xy + 3y^2 (discriminant -32) is 0 at (0, 0) and 3 at (0, 1). */
  lemma Representative323(g: QuadraticForm)
    requires g == QuadraticForm(3, 2, 3)
    ensures GenusRepresentative(g) == Some(3)
  {
    var m := Modulus(g);
    assert m == 32;
    assert !Admissible(g, m, 0, 0) by {
      OriginNotAdmissible(g, m);
    }
    assert Value(g, 0, 1) % m == 3 && Admissible(g, m, 0, 1) by {
      CoprimeByCombination(3, m, 11, -1);
    }
    RepresentativeAtZeroOne(g);
  }

  /** 2x^2 + 2xy + 5y^2 (discriminant -36) is 0 at (0, 0) and 5 at (0, 1). */
  lemma Representative225(g: QuadraticForm)
    requires g == QuadraticForm(2, 2, 5)
    ensures GenusRepresentative(g) == Some(5)
  {
    var m := Modulus(g);
    assert m == 36;
    assert !Admissible(g, m, 0, 0) by {
      OriginNotAdmissible(g, m);
    }
    assert Value(g, 0, 1) % m == 5 && Admissible(g, m, 0, 1) by {
      CoprimeByCombination(5, m, -7, 1);
    }
    RepresentativeAtZeroOne(g);
  }

  /** 2x^2 + 3y^2 (discriminant -24): row 0 shares the factor 3 with 24,
      f(1, 0) = 2 is even, and f(1, 1) = 5. */
  lemma Representative203(g: QuadraticForm)
    requires g == QuadraticForm(2, 0, 3)
    ensures GenusRepresentative(g) == Some(5)
  {
    var m := Modulus(g);
    assert m == 24;
    assert !Admissible(g, m, 1, 0) by {
      assert Value(g, 1, 0) == 2;
      SharedFactor(g, m, 2, 1, 0);
    }
    assert Value(g, 1, 1) % m == 5 && Admissible(g, m, 1, 1) by {
      CoprimeByCombination(5, m, 5, -1);
    }
    RepresentativeAtOneOne(g, 3);
  }

  /** 2x^2 + 5y^2 (discriminant -40): row 0 shares the factor 5 with 40,
      f(1, 0) = 2 is even, and f(1, 1) = 7. */
  lemma Representative205(g: QuadraticForm)
    requires g == QuadraticForm(2, 0, 5)
    ensures GenusRepresentative(g) == Some(7)
  {
    var m := Modulus(g);
    assert m == 40;
    assert !Admissible(g, m, 1, 0) by {
      assert Value(g, 1, 0) == 2;
      SharedFactor(g, m, 2, 1, 0);
    }
    assert Value(g, 1, 1) % m == 7 && Admissible(g, m, 1, 1) by {
      CoprimeByCombination(7, m, 23, -4);
    }
    RepresentativeAtOneOne(g, 5);
  }

  /** 2x^2 + 7y^2 (discriminant -56): row 0 shares the factor 7 with 56,
      f(1, 0) = 2 is even, and f(1, 1) = 9. */
  lemma Representative207(g: QuadraticForm)
    requires g == QuadraticForm(2, 0, 7)
    ensures GenusRepresentative(g) == Some(9)
  {
    var m := Modulus(g);
    assert m == 56;
    assert !Admissible(g, m, 1, 0) by {
      assert Value(g, 1, 0) == 2;
      SharedFactor(g, m, 2, 1, 0);
    }
    assert Value(g, 1, 1) % m == 9 && Admissible(g, m, 1, 1) by {
      CoprimeByCombination(9, m, 25, -4);
    }
    RepresentativeAtOneOne(g, 7);
  }

  // ---------------------------------------------------------------------
  // The tabulated results

  /** 3 is outside the principal genus of x^2 + 5y^2: no x^2 + 5y (y in {0, 1}) is 3 mod 4. */
  lemma OutsideGenus5(n: int)
    requires n == 5
    ensures 3 !in PrincipalGenus(QuadraticForm(1, 0, n))
  {
    forall u, y | 0 <= u < 4 && 0 <= y <= 1
      ensures PrincipalResidue(n, u, y, 4) != 3 % 4
    {
      SmallSquare(u);
    }
    OutsidePrincipalGenus(n, 3, 4);
  }

  /** x^2 + 5y^2: the other class, 2x^2 + 2xy + 3y^2, has representative 3, and
      no x^2 + 5y (y in {0, 1}) is 3 mod 4, so 3 is outside the principal genus. */
  lemma Convenient5(n: int)
    requires n == 5
    ensures IsConvenient(QuadraticForm(1, 0, n))
  {
    var g := QuadraticForm(2, 2, 3);
    assert NarrowClassGroup(-4 * n) == [QuadraticForm(1, 0, n), g] by {
      GroupMinus20(-4 * n);
    }
    assert GenusRepresentative(g) == Some(3) by {
      Representative223(g);
    }
    OutsideGenus5(n);
    ConvenientTwoClasses(n, g, 3);
  }

  /** 5 is outside the principal genus of x^2 + 6y^2: no x^2 + 6y is 2 mod 3. */
  lemma OutsideGenus6(n: int)
    requires n == 6
    ensures 5 !in PrincipalGenus(QuadraticForm(1, 0, n))
  {
    forall u, y | 0 <= u < 3 && 0 <= y <= 1
      ensures PrincipalResidue(n, u, y, 3) != 5 % 3
    {
      SmallSquare(u);
    }
    OutsidePrincipalGenus(n, 5, 3);
  }

  /** x^2 + 6y^2: the other class, 2x^2 + 3y^2, has representative 5, and
      no x^2 + 6y is 2 mod 3, so 5 is outside the principal genus. */
  lemma Convenient6(n: int)
    requires n == 6
    ensures IsConvenient(QuadraticForm(1, 0, n))
  {
    var g := QuadraticForm(2, 0, 3);
    assert NarrowClassGroup(-4 * n) == [QuadraticForm(1, 0, n), g] by {
      GroupMinus24(-4 * n);
    }
    assert GenusRepresentative(g) == Some(5) by {
      Representative203(g);
    }
    OutsideGenus6(n);
    ConvenientTwoClasses(n, g, 5);
  }

  /** 3 is outside the principal genus of x^2 + 8y^2: no x^2 + 8y is 3 mod 8. */
  lemma OutsideGenus8(n: int)
    requires n == 8
    ensures 3 !in PrincipalGenus(QuadraticForm(1, 0, n))
  {
    forall u, y | 0 <= u < 8 && 0 <= y <= 1
      ensures PrincipalResidue(n, u, y, 8) != 3 % 8
    {
      SmallSquare(u);
    }
    OutsidePrincipalGenus(n, 3, 8);
  }

  /** x^2 + 8y^2: the other class, 3x^2 + 2xy + 3y^2, has representative 3, and
      no x^2 + 8y is 3 mod 8, so 3 is outside the principal genus. */
  lemma Convenient8(n: int)
    requires n == 8
    ensures IsConvenient(QuadraticForm(1, 0, n))
  {
    var g := QuadraticForm(3, 2, 3);
    assert NarrowClassGroup(-4 * n) == [QuadraticForm(1, 0, n), g] by {
      GroupMinus32(-4 * n);
    }
    assert GenusRepresentative(g) == Some(3) by {
      Representative323(g);
    }
    OutsideGenus8(n);
    ConvenientTwoClasses(n, g, 3);
  }

  /** 5 is outside the principal genus of x^2 + 9y^2: no x^2 + 9y is 2 mod 3. */
  lemma OutsideGenus9(n: int)
    requires n == 9
    ensures 5 !in PrincipalGenus(QuadraticForm(1, 0, n))
  {
    forall u, y | 0 <= u < 3 && 0 <= y <= 1
      ensures PrincipalResidue(n, u, y, 3) != 5 % 3
    {
      SmallSquare(u);
    }
    OutsidePrincipalGenus(n, 5, 3);
  }

  /** x^2 + 9y^2: the other class, 2x^2 + 2xy + 5y^2, has representative 5, and
      no x^2 + 9y is 2 mod 3, so 5 is outside the principal genus. */
  lemma Convenient9(n: int)
    requires n == 9
    ensures IsConvenient(QuadraticForm(1, 0, n))
  {
    var g := QuadraticForm(2, 2, 5);
    assert NarrowClassGroup(-4 * n) == [QuadraticForm(1, 0, n), g] by {
      GroupMinus36(-4 * n);
    }
    assert GenusRepresentative(g) == Some(5) by {
      Representative225(g);
    }
    OutsideGenus9(n);
    ConvenientTwoClasses(n, g, 5);
  }

  /** 7 is outside the principal genus of x^2 + 10y^2: no x^2 + 10y is 2 mod 5. */
  lemma OutsideGenus10(n: int)
    requires n == 10
    ensures 7 !in PrincipalGenus(QuadraticForm(1, 0, n))
  {
    forall u, y | 0 <= u < 5 && 0 <= y <= 1
      ensures PrincipalResidue(n, u, y, 5) != 7 % 5
    {
      SmallSquare(u);
    }
    OutsidePrincipalGenus(n, 7, 5);
  }

  /** x^2 + 10y^2: the other class, 2x^2 + 5y^2, has representative 7, and
      no x^2 + 10y is 2 mod 5, so 7 is outside the principal genus. */
  lemma Convenient10(n: int)
    requires n == 10
    ensures IsConvenient(QuadraticForm(1, 0, n))
  {
    var g := QuadraticForm(2, 0, 5);
    assert NarrowClassGroup(-4 * n) == [QuadraticForm(1, 0, n), g] by {
      GroupMinus40(-4 * n);
    }
    assert GenusRepresentative(g) == Some(7) by {
      Representative205(g);
    }
    OutsideGenus10(n);
    ConvenientTwoClasses(n, g, 7);
  }

  /** The class numbers h(-4n) the enumeration finds for n = 1, ..., 10
      and n = 14: 1 for n = 1, 2, 3, 4, 7; 2 for n = 5, 6, 8, 9, 10; 4 for
      n = 14. */
  lemma ClassNumbers(n: int)
    requires 1 <= n <= 10 || n == 14
    ensures n == 1 || n == 2 || n == 3 || n == 4 || n == 7 ==> NarrowClassNumber(-4 * n) == 1
    ensures n == 5 || n == 6 || n == 8 || n == 9 || n == 10 ==> NarrowClassNumber(-4 * n) == 2
    ensures n == 14 ==> NarrowClassNumber(-4 * n) == 4
  {
    var D := -4 * n;
    if n == 1 {
      assert NarrowClassNumber(D) == 1 by {
        GroupMinus4(D);
      }
    } else if n == 2 {
      assert NarrowClassNumber(D) == 1 by {
        GroupMinus8(D);
      }
    } else if n == 3 {
      assert NarrowClassNumber(D) == 1 by {
        GroupMinus12(D);
      }
    } else if n == 4 {
      assert NarrowClassNumber(D) == 1 by {
        GroupMinus16(D);
      }
    } else if n == 5 {
      assert NarrowClassNumber(D) == 2 by {
        GroupMinus20(D);
      }
    } else if n == 6 {
      assert NarrowClassNumber(D) == 2 by {
        GroupMinus24(D);
      }
    } else if n == 7 {
      assert NarrowClassNumber(D) == 1 by {
        GroupMinus28(D);
      }
    } else if n == 8 {
      assert NarrowClassNumber(D) == 2 by {
        GroupMinus32(D);
      }
    } else if n == 9 {
      assert NarrowClassNumber(D) == 2 by {
        GroupMinus36(D);
      }
    } else if n == 10 {
      assert NarrowClassNumber(D) == 2 by {
        GroupMinus40(D);
      }
    } else {
      assert NarrowClassNumber(D) == 4 by {
        GroupMinus56(D);
      }
    }
  }

  /** x^2 + n y^2 is convenient for every n from 1 to 10: the idoneal
      numbers 1, ..., 10. */
  lemma IdonealUpToTen(n: int)
    requires 1 <= n <= 10
    ensures IsConvenient(QuadraticForm(1, 0, n))
  {
    if n == 5 {
      Convenient5(n);
    } else if n == 6 {
      Convenient6(n);
    } else if n == 8 {
      Convenient8(n);
    } else if n == 9 {
      Convenient9(n);
    } else if n == 10 {
      Convenient10(n);
    } else {
      ClassNumbers(n);
      ClassNumberOneConvenient(n);
    }
  }

  /** A second reduced form g of discriminant -4n whose representative r
      lies in the principal genus makes the genus size at least 2, so
      x^2 + n y^2 is then not convenient. */
  lemma SecondPrincipalClass(n: int, g: QuadraticForm, r: int)
    requires n >= 1 && g != QuadraticForm(1, 0, n) && IsClassOf(-4 * n, g)
    requires GenusRepresentative(g) == Some(r) && r in PrincipalGenus(QuadraticForm(1, 0, n))
    ensures GenusSize(QuadraticForm(1, 0, n)) >= 2
    ensures !IsConvenient(QuadraticForm(1, 0, n))
  {
    var p := QuadraticForm(1, 0, n);
    assert Disc(p) == -4 * n;
    var S := set h | h in NarrowClassGroup(Disc(p)) && InGenus(h, PrincipalGenus(p));
    assert InGenus(p, PrincipalGenus(p)) && p in NarrowClassGroup(Disc(p)) by {
      PrincipalInOwnGenus(n);
      PrincipalIsReduced(n);
    }
    assert g in S;
    TwoMembers(S, p, g);
    assert GenusSize(p) == |S|;
  }

  /** A set with two different members has at least two elements. */
  lemma TwoMembers<T>(S: set<T>, x: T, y: T)
    requires x in S && y in S && x != y
    ensures |S| >= 2
  {
    assert {x, y} == {x} + {y} && {x} !! {y};
    SubsetCard({x, y}, S);
  }

  /** 9 = f(3, 0) is a unit mod 56, so it lies in the principal genus of
      x^2 + 14y^2. */
  lemma NineInGenus14(n: int)
    requires n == 14
    ensures 9 in PrincipalGenus(QuadraticForm(1, 0, n))
  {
    var p := QuadraticForm(1, 0, n);
    var m := Modulus(p);
    assert m == 56;
    assert Value(p, 3, 0) % m == 9 && Admissible(p, m, 3, 0) by {
      CoprimeByCombination(9, m, 25, -4);
    }
  }

  /** 2x^2 + 7y^2 is a second reduced class of -56, and its representative
      9 lies in the principal genus of x^2 + 14y^2. */
  lemma SecondClass14(n: int, g: QuadraticForm)
    requires n == 14 && g == QuadraticForm(2, 0, 7)
    ensures g != QuadraticForm(1, 0, n) && IsClassOf(-4 * n, g)
    ensures GenusRepresentative(g) == Some(9) && 9 in PrincipalGenus(QuadraticForm(1, 0, n))
  {
    assert IsClassOf(-4 * n, g) by { PrimitiveByCombination(g, -3, 0, 1); }
    assert GenusRepresentative(g) == Some(9) by { Representative207(g); }
    NineInGenus14(n);
  }

  /** x^2 + 14y^2 is not convenient: 2x^2 + 7y^2 has representative 9 = f(3, 0),
      so two of the four classes of -56 share the principal genus. */
  lemma NotConvenient14(n: int, g: QuadraticForm)
    requires n == 14 && g == QuadraticForm(2, 0, 7)
    ensures GenusSize(QuadraticForm(1, 0, n)) >= 2
    ensures !IsConvenient(QuadraticForm(1, 0, n))
  {
    SecondClass14(n, g);
    SecondPrincipalClass(n, g, 9);
  }
}
