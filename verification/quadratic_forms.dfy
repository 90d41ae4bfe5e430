/**
 Binary quadratic forms a*x^2 + b*x*y + c*y^2 with integer coefficients
 (class `QuadraticForm` of main.py). A form is an immutable triple; its
 discriminant is a function of the triple, so it cannot drift from the
 coefficients after construction.
 */
module QuadraticForms {
  import opened Arith

  datatype QuadraticForm = QuadraticForm(a: int, b: int, c: int)

  /** The discriminant b^2 - 4ac, fixed by the coefficients. */
  function Disc(f: QuadraticForm): int {
    f.b * f.b - 4 * f.a * f.c
  }

  /** The value a*x^2 + b*x*y + c*y^2 of the form at (x, y). */
  function Value(f: QuadraticForm, x: int, y: int): int {
    f.a * x * x + f.b * x * y + f.c * y * y
  }

  predicate IsPositiveDefinite(f: QuadraticForm) {
    f.a > 0 && Disc(f) < 0
  }

  /** `abs(math.gcd(a, b, c)) == 1`. */
  predicate IsPrimitive(f: QuadraticForm) {
    Gcd3(f.a, f.b, f.c) == 1
  }

  /** The reduction criterion: primitive, positive definite, |b| <= a <= c,
      and, on the boundary |b| = a or a = c, the sign of b is fixed by the
      tie-break b >= 0. */
  predicate IsReducedPosDef(f: QuadraticForm) {
    var flag := if Abs(f.b) == f.a || f.a == f.c then f.b >= 0 else true;
    IsPrimitive(f) && IsPositiveDefinite(f) && Abs(f.b) <= f.a <= f.c && flag
  }

  // ---------------------------------------------------------------------
  // Discriminant and values

  /** Completing the square: 4a * f(x, y) = (2ax + by)^2 - D * y^2. */
  lemma DiscriminantIdentity(f: QuadraticForm, x: int, y: int)
    ensures 4 * f.a * Value(f, x, y) == (2 * f.a * x + f.b * y) * (2 * f.a * x + f.b * y) - Disc(f) * (y * y)
  {
    var a, b, c := f.a, f.b, f.c;
    var u, v := 2 * a * x, b * y;
    assert (u + v) * (u + v) == u * u + 2 * (u * v) + v * v;
    assert u * u == 4 * a * (a * x * x) by {
      assert u * u == (2 * a * x) * (2 * a * x);
    }
    assert 2 * (u * v) == 4 * a * (b * x * y) by {
      assert u * v == (2 * a * x) * (b * y);
    }
    assert v * v == b * b * (y * y);
    assert Disc(f) * (y * y) == b * b * (y * y) - 4 * a * (c * y * y);
    assert 4 * a * Value(f, x, y) == 4 * a * (a * x * x) + 4 * a * (b * x * y) + 4 * a * (c * y * y);
  }

  lemma SquarePositive(z: int)
    requires z != 0
    ensures z * z > 0
  {
    if z < 0 {
      assert z * z == (-z) * (-z);
    }
  }

  /** A positive-definite form takes only positive values away from the origin. */
  lemma PositiveDefiniteValues(f: QuadraticForm, x: int, y: int)
    requires IsPositiveDefinite(f)
    requires x != 0 || y != 0
    ensures Value(f, x, y) > 0
  {
    if y == 0 {
      SquarePositive(x);
      assert Value(f, x, y) == f.a * (x * x);
    } else {
      DiscriminantIdentity(f, x, y);
      var s := 2 * f.a * x + f.b * y;
      SquarePositive(y);
      assert s * s >= 0 by {
        if s != 0 { SquarePositive(s); }
      }
      assert -Disc(f) * (y * y) > 0;
      assert 4 * f.a * Value(f, x, y) > 0;
    }
  }

  lemma MulNonNegMono(p: int, q: int, m: int)
    requires p <= q && m >= 0
    ensures p * m <= q * m
  {
    assert q * m - p * m == (q - p) * m;
  }

  lemma AbsMul(x: int, y: int)
    ensures Abs(x * y) == Abs(x) * Abs(y)
  {
    if x < 0 && y < 0 {
      assert x * y == (-x) * (-y);
    } else if x < 0 {
      assert -(x * y) == (-x) * y;
    } else if y < 0 {
      assert -(x * y) == x * (-y);
    }
  }

  /** The lower bound behind `ReducedMinimum`, on absolute values. */
  lemma MinimumOnAbs(a: int, B: int, c: int, X: nat, Y: nat)
    requires 0 <= B <= a <= c && 0 < a
    requires X != 0 || Y != 0
    ensures a * (X * X) - B * (X * Y) + c * (Y * Y) >= a
  {
    MulNonNegMono(B, a, X * Y);
    MulNonNegMono(a, c, X * Y);
    if X >= Y {
      MinimumWideX(a, c, X, Y);
    } else {
      MinimumWideY(a, c, X, Y);
    }
  }

  /** When X >= Y the square term in X dominates: a X^2 - a X Y + c Y^2 >= a. */
  lemma MinimumWideX(a: int, c: int, X: nat, Y: nat)
    requires 0 < a <= c && X >= Y && (X != 0 || Y != 0)
    ensures a * (X * X) - a * (X * Y) + c * (Y * Y) >= a
  {
    MulNonNegMono(Y, X, X);
    assert X * Y == Y * X;
    MulNonNegMono(X * Y, X * X, a);
    assert a * (X * Y) <= a * (X * X);
    if Y == 0 {
      MulNonNegMono(1, X, X);
      MulNonNegMono(1, X * X, a);
    } else {
      MulNonNegMono(1, Y, Y);
      MulNonNegMono(1, Y * Y, c);
    }
  }

  /** When Y > X the square term in Y dominates: a X^2 - c X Y + c Y^2 >= a. */
  lemma MinimumWideY(a: int, c: int, X: nat, Y: nat)
    requires 0 < a <= c && X < Y
    ensures a * (X * X) - c * (X * Y) + c * (Y * Y) >= a
  {
    assert c * (Y * Y) - c * (X * Y) == c * (Y * (Y - X));
    MulNonNegMono(1, Y, Y - X);
    MulNonNegMono(1, Y * (Y - X), c);
    MulNonNegMono(0, X, X);
    MulNonNegMono(0, X * X, a);
  }

  /** A reduced form represents no positive number smaller than `a` away
      from the origin, and `a` itself at (1, 0): `a` is the least value of
      the form, which is what makes the reduced form a canonical choice. */
  lemma ReducedMinimum(f: QuadraticForm, x: int, y: int)
    requires IsReducedPosDef(f)
    requires x != 0 || y != 0
    ensures Value(f, x, y) >= f.a == Value(f, 1, 0)
  {
    var a, b, c := f.a, f.b, f.c;
    assert 0 <= Abs(b) <= a <= c && 0 < a;
    var X, Y := Abs(x), Abs(y);
    SquareAbs(a, x);
    SquareAbs(c, y);
    CrossTermBound(b, x, y);
    MinimumOnAbs(a, Abs(b), c, X, Y);
  }

  lemma SquareAbs(a: int, x: int)
    ensures a * x * x == a * (Abs(x) * Abs(x))
  {
    assert x * x == Abs(x) * Abs(x);
  }

  lemma CrossTermBound(b: int, x: int, y: int)
    ensures b * x * y >= -(Abs(b) * (Abs(x) * Abs(y)))
  {
    var xy := x * y;
    AbsMul(x, y);
    AbsMul(b, xy);
    assert b * x * y == b * xy;
  }

  // ---------------------------------------------------------------------
  // Primitivity and reduction

  /** A form is primitive exactly when no integer larger than 1 divides all
      three coefficients. */
  lemma PrimitiveIff(f: QuadraticForm)
    ensures IsPrimitive(f) <==> forall d :: d > 1 ==> !(Divides(d, f.a) && Divides(d, f.b) && Divides(d, f.c))
  {
    var g := GcdInt(f.a, f.b);
    CoprimeIff(g, f.c);
    forall d | d > 1
      ensures Divides(d, g) <==> Divides(d, f.a) && Divides(d, f.b)
    {
      GcdIntDivisors(f.a, f.b, d);
    }
  }

  /** The reduction criterion in terms of common divisors, inequalities and
      the boundary tie-break. */
  lemma ReducedIff(f: QuadraticForm)
    ensures IsReducedPosDef(f) <==>
      && (forall d :: d > 1 ==> !(Divides(d, f.a) && Divides(d, f.b) && Divides(d, f.c)))
      && f.a > 0 && f.b * f.b < 4 * f.a * f.c
      && -f.a <= f.b <= f.a <= f.c
      && (f.b == f.a || f.b == -f.a || f.a == f.c ==> f.b >= 0)
  {
    PrimitiveIff(f);
  }

  /** Reduced forms have 3a^2 <= -D and a positive last coefficient: this is
      the search bound of the class-group enumeration. */
  lemma ReducedBound(f: QuadraticForm)
    requires IsReducedPosDef(f)
    ensures 3 * f.a * f.a <= -Disc(f)
    ensures f.c > 0
  {
    var a, b, c := f.a, f.b, f.c;
    MulNonNegMono(a, c, a);
    assert b * b == Abs(b) * Abs(b);
    MulNonNegMono(Abs(b), a, Abs(b));
    MulNonNegMono(Abs(b), a, a);
  }

  /** Changing the sign of b keeps a form primitive and its discriminant. */
  lemma NegateMiddle(f: QuadraticForm)
    ensures Disc(QuadraticForm(f.a, -f.b, f.c)) == Disc(f)
    ensures IsPrimitive(QuadraticForm(f.a, -f.b, f.c)) == IsPrimitive(f)
  {
    assert Abs(-f.b) == Abs(f.b);
  }

  /** On the boundary (|b| = a or a = c, b != 0) the forms (a, b, c) and
      (a, -b, c) are equivalent, and the tie-break keeps exactly one of them;
      off the boundary both are reduced or neither is. */
  lemma TieBreak(f: QuadraticForm)
    requires f.b != 0
    ensures var g := QuadraticForm(f.a, -f.b, f.c);
      if Abs(f.b) == f.a || f.a == f.c then
        IsReducedPosDef(f) ==> !IsReducedPosDef(g)
      else
        IsReducedPosDef(f) <==> IsReducedPosDef(g)
    ensures var g := QuadraticForm(f.a, -f.b, f.c);
      IsPrimitive(f) && IsPositiveDefinite(f) && Abs(f.b) <= f.a <= f.c ==>
        IsReducedPosDef(f) || IsReducedPosDef(g)
  {
    NegateMiddle(f);
  }
}
