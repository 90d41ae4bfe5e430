# Primes and quadratic forms — a Dafny model of the integer core

`main.py` of *Primes-and-quadratic-forms* decides, for each n, which primes
can be written as x² + n y². Its integer engine works with binary quadratic
forms a x² + b x y + c y² of negative discriminant D = b² − 4ac. It has five
parts:

- the `QuadraticForm` class: discriminant, value, and the primitive,
  positive-definite and reduced predicates;
- the genus machinery: a brute-force genus representative, the residue set
  of the principal genus, `genus_size` and `is_convenient`;
- `narrow_class_group` and `narrow_class_number`, which enumerate the
  reduced forms of a discriminant;
- `jacobi_symbol`, with the residue filter that calls it;
- `Polynomial.__mul__`, the product of coefficient lists.

This project models those five parts in Dafny and proves properties about
them. The modules follow the program's structure:

| module | file | models |
|---|---|---|
| `Arith` | `arith.dfy` | `math.gcd` (non-negative gcd of absolute values, gcd(0, 0) = 0, three arguments folded from the left), divisibility |
| `QuadraticForms` | `quadratic_forms.dfy` | the form, its discriminant and value, and the reduction criterion |
| `ClassGroup` | `class_group.dfy` | `narrow_class_group`, `narrow_class_number` |
| `Genus` | `genus.dfy` | `get_genus_representative`, `get_genus_for_principal`, `genus_size`, `is_convenient` |
| `JacobiSymbols` | `jacobi.dfy` | `jacobi_symbol` and the residue filter of `print_residue_string` |
| `Polynomials` | `polynomials.dfy` | `Polynomial.__mul__` |
| `ClassTables` | `class_tables.dfy` | the enumeration and the convenience test worked out for the small n the program reports on |

A form is an immutable triple. The discriminant is a function of that
triple, so it cannot drift away from the coefficients. The enumeration,
the genus scans and the symbol's loops are recursive functions that follow
the source's loops one iteration per call. `jacobi_symbol` and
`Polynomial.__mul__` are also written as methods with the source's
`while`/`for` loops, and those methods are proved to compute the functions.
On every call the program makes, the divisor of Python's `//` and `%` is
positive, and there they agree with Dafny's Euclidean operators.

Notes on the modelling choices:

- **Loop guard of `narrow_class_group`.** The source tests the float
  comparison `a*a <= -D/3`. The model states it exactly, as 3a² ≤ −D. For
  integers the two agree except where float rounding of −D/3 matters; the
  discriminants the program uses are far too small for that.
- **"Bad args" in `jacobi_symbol`.** When k is even or negative, the
  function prints a warning and then runs its loops anyway. The model does
  the same for every k > 0. Each property of the symbol is stated for odd k,
  which `ValidModulus` names.
- **Odd discriminants in the residue filter.** For an even D = −4n, which is
  the only case the program builds, every modulus the filter passes is odd
  (`EvenDiscriminantFilter`). For an odd D the filter also passes even
  moduli, which are outside the symbol's domain. `OddDiscriminantEvenModulus`
  shows the input D = −3: the modulus is 2 and 2 is kept.
- **Worked cases.** `ClassTables` computes the enumeration for the
  discriminants −4n with n = 1, ..., 10 and n = 14, and settles
  `is_convenient` for x² + n y² with those n. Each lemma takes the
  discriminant, or the form, as a parameter fixed by its `requires`. The
  lists are proved by showing that they hold exactly the reduced forms
  (`GroupIs`). Representatives are certified by the first point of the scan
  that gives a unit. Residues outside the principal genus are certified by a
  divisor q of 4n modulo which no value of x² + n y² matches them.

## Model

| member | source | states |
|---|---|---|
| `QuadraticForms.DiscriminantIdentity` | main.py:45-52 | completing the square links the value and the fixed discriminant: 4a·f(x, y) = (2ax + by)² − D·y² |
| `QuadraticForms.PositiveDefiniteValues` | main.py:60-61 | a positive-definite form (a > 0, D < 0) takes only positive values at every (x, y) other than (0, 0) |
| `QuadraticForms.PrimitiveIff` | main.py:63-64 | `abs(gcd(a, b, c)) == 1` holds exactly when no d > 1 divides all three coefficients |
| `QuadraticForms.ReducedIff` | main.py:54-64 | reduced exactly when: no common divisor > 1; a > 0 and b² < 4ac; −a ≤ b ≤ a ≤ c; and b ≥ 0 when b = ±a or a = c |
| `QuadraticForms.ReducedMinimum` | main.py:54-58 | a reduced form takes no value below a away from the origin, and takes a at (1, 0) |
| `QuadraticForms.ReducedBound` | main.py:153 | every reduced form satisfies 3a² ≤ −D, the enumeration's loop guard, and has c > 0 |
| `QuadraticForms.TieBreak` | main.py:55-57 | on the boundary \|b\| = a or a = c, at most one of (a, ±b, c) is reduced; off it, both are or neither is; for a primitive positive-definite form with \|b\| ≤ a ≤ c, at least one of the two is |
| `QuadraticForms.NegateMiddle` | main.py:49 | flipping the sign of b keeps the discriminant and primitivity |
| `Arith.GcdDivisors` | main.py:64 | the positive divisors of Euclid's gcd are exactly the common divisors of the two arguments |
| `Arith.CoprimeIff` | main.py:64 | gcd(x, y) = 1 exactly when no d > 1 divides both |
| `ClassGroup.Row` | main.py:154-158 | the inner loop keeps only forms (a, b', c) with b ≤ b' ≤ a, discriminant D and reduced; they come in increasing b' |
| `ClassGroup.From` | main.py:151-159 | the outer loop from a on keeps only reduced forms of discriminant D with first coefficient ≥ a, strictly increasing in (a, b) |
| `ClassGroup.CandidateExact` | main.py:155-157 | the floor-division candidate has discriminant D exactly when 4a divides b² − D; inexact c values fail the discriminant test |
| `ClassGroup.RowComplete` | main.py:154-158 | every reduced form (a, b', c) of discriminant D with b ≤ b' ≤ a is produced by the inner loop |
| `ClassGroup.FromComplete` | main.py:151-159 | every reduced form of discriminant D with first coefficient ≥ a is produced from a on |
| `ClassGroup.NarrowClassGroup` | main.py:150-160 | the result contains a form exactly when the form has discriminant D and is reduced, and is strictly increasing in (a, b), hence has no repeats |
| `ClassGroup.NarrowClassNumber` | main.py:163-164 | the length of the enumeration is the number of distinct reduced forms of discriminant D |
| `ClassGroup.SortedDistinct` | main.py:150-160 | a list strictly increasing in (a, b) has no repeated forms |
| `ClassGroup.DistinctCount` | main.py:163-164 | a list without repeats has as many elements as it has distinct forms |
| `ClassGroup.PrincipalFirst` | main.py:150-160 | for D = −4n, n ≥ 1, the enumeration is non-empty and starts with (1, 0, n) |
| `ClassGroup.PrincipalIsReduced` | main.py:54-58 | (1, 0, n) is reduced with discriminant −4n for n ≥ 1 |
| `ClassGroup.ClassNumberPositive` | main.py:163-164 | the class number of −4n is at least 1 |
| `ClassGroup.EmptyForNonNegative` | main.py:153 | a discriminant D ≥ 0 fails the loop guard at once, so the enumeration is empty |
| `Genus.ScanRow` | main.py:71-74 | the inner scan returns None exactly when no column from y on gives a unit mod \|D\|; otherwise it returns the residue at the first column that does |
| `Genus.ScanFrom` | main.py:70-74 | the row-major scan from row x returns None exactly when no point in the rest of the square gives a unit; otherwise it returns the residue at the first such point in scan order |
| `Genus.GenusRepresentative` | main.py:69-74 | a returned representative lies in [0, \|D\|) and is coprime to \|D\| |
| `Genus.RepresentativeIsFirst` | main.py:69-74 | the representative is None exactly when no point of [0, \|D\|)² gives a unit, and otherwise it is the residue at the first point that does |
| `Genus.GenusValues` | main.py:79-85 | the loop collects k exactly when k is the unit residue of f(x, 0) or f(x, 1) for some x in range |
| `Genus.PrincipalGenus` | main.py:76-86 | every element lies in [0, \|D\|) and is coprime to \|D\|; the set is empty unless a = 1 and b = 0; and it contains exactly the unit residues of f(x, 0), f(x, 1) for 0 ≤ x < 2c |
| `Genus.CountInGenus` | main.py:91-94 | the counting loop counts at most as many forms as it visits |
| `Genus.CountedSetCons` | main.py:91-94 | one step of the counting loop: the counted set of a list is that of its tail plus the head when the head is counted and not repeated |
| `Genus.CountDistinct` | main.py:91-94 | on a list without repeats, the count equals the number of listed forms whose representative lies in the genus set |
| `Genus.GenusSize` | main.py:88-95 | the genus size is the number of reduced forms of discriminant D whose representative lies in the principal genus; it is at most the class number, and 0 unless a = 1 and b = 0 |
| `Genus.PrincipalRepresentative` | main.py:69-74 | the scan of (1, 0, n) returns the residue 1 (found at (0, 1) for n = 1 and at (1, 0) otherwise) |
| `Genus.OneInPrincipalGenus` | main.py:76-86 | the residue 1 belongs to the principal genus of (1, 0, n) |
| `Genus.PrincipalInOwnGenus` | main.py:88-95 | the principal form lies in its own genus, so the genus size of x² + n y² is at least 1 |
| `Genus.ConvenientIff` | main.py:97-98 | x² + n y² is convenient exactly when the principal class is the only class in the principal genus |
| `Genus.ClassNumberOneConvenient` | main.py:194-197 | class number 1 implies convenient, so the first branch of the report is consistent with `is_convenient` |
| `JacobiSymbols.StripTwos` | main.py:136-140 | the halving loop ends with an odd part in (0, n] and a sign, and for odd k the odd part has the same gcd with k as n |
| `JacobiSymbols.StripTwosOddPart` | main.py:136-140 | the halving loop returns the odd part m with n = 2^v·m, v the exponent of 2 in n, and the incoming sign flipped exactly when k ≡ 3 or 5 mod 8 and v is odd |
| `JacobiSymbols.Loop` | main.py:135-147 | the outer loop terminates and returns a sign or 0; for odd k it returns 0 exactly when gcd(n, k) ≠ 1 |
| `JacobiSymbols.Jacobi` | main.py:130-147 | (n/k) is −1, 0 or 1; for odd k it is 0 exactly when n and k share a factor; (n/1) = 1 |
| `JacobiSymbols.ComputeJacobi` | main.py:130-147 | the nested `while` loops return the value of `Jacobi`, in {−1, 0, 1}, and 0 exactly when gcd(n, k) ≠ 1 for odd k |
| `JacobiSymbols.JacobiPeriodic` | main.py:133 | ((n + qk)/k) = (n/k): the symbol depends only on n mod k |
| `JacobiSymbols.JacobiOfOne` | main.py:130-147 | (1/k) = 1 for odd k |
| `JacobiSymbols.JacobiOfTwo` | main.py:136-140 | for every odd k > 0, (2/k) = 1 when k ≡ ±1 mod 8 and −1 when k ≡ ±3 mod 8 (so (2/1) = 1) |
| `JacobiSymbols.StripTwosSign` | main.py:136-140 | negating the starting sign negates the sign the halving loop ends with and leaves the odd part unchanged |
| `JacobiSymbols.LoopSign` | main.py:135-147 | negating the running sign negates the result |
| `JacobiSymbols.Reciprocity` | main.py:141-143 | for odd positive m, n: (m/n) = −(n/m) when both are 3 mod 4, and (m/n) = (n/m) otherwise |
| `JacobiSymbols.JacobiSelf` | main.py:130-147 | (n/n) is 1 for n = 1 and 0 otherwise |
| `JacobiSymbols.ResiduesFrom` | main.py:102-105 | the filter loop from i on keeps j exactly when i ≤ j ≤ \|D\|, j is coprime to \|D\| and `jacobi_symbol(D, j)` = 1, in increasing order |
| `JacobiSymbols.ResidueList` | main.py:100-105 | the residue list holds exactly the i in [1, \|D\|] coprime to \|D\| with (D/i) = 1, increasing, and is empty for D ≥ 0 |
| `JacobiSymbols.EvenDiscriminantFilter` | main.py:102-104 | for even D every modulus the filter passes is odd and positive, and the gcd test is then implied by (D/i) = 1 |
| `JacobiSymbols.OddDiscriminantEvenModulus` | main.py:103-104 | for D = −3 the filter passes the even modulus 2, outside the symbol's domain, and keeps 2 |
| `Polynomials.Mul` | main.py:20-27 | the nested loops return a list of length max(0, m + k − 1) whose entry t is Σ_{i+j=t} p_i·q_j |
| `Polynomials.SumStable` | main.py:23-26 | summing over the indices of p, as the loops do, gives the full convolution coefficient |
| `Polynomials.SumReflect` | main.py:23-26 | substituting i := t − i in the coefficient sum swaps the roles of p and q |
| `Polynomials.ProductCommutes` | main.py:20-29 | p · q = q · p, which is what makes `__rmul__ = __mul__` sound |
| `Polynomials.ProductOne` | main.py:184 | multiplying by the accumulator seed [1], on either side, leaves every coefficient list unchanged, the empty one included |
| `Polynomials.LeadingCoefficient` | main.py:20-27 | the top coefficient of a product is the product of the top coefficients |
| `ClassTables.PrimitiveByCombination` | main.py:63-64 | weights s, t, u with s·a + t·b + u·c = 1 show the form primitive |
| `ClassTables.SortedUnique` | main.py:150-160 | two lists strictly increasing in (a, b) with the same members are equal, so the enumeration is fixed by which forms it contains |
| `ClassTables.GroupIs` | main.py:150-160 | the enumeration of D equals a strictly increasing list L whenever L holds exactly the reduced forms of discriminant D |
| `ClassTables.ClassShape` | main.py:153-157 | every reduced form of discriminant D < 0 lies in the searched range: a ≥ 1, 3a² ≤ −D, −a ≤ b ≤ a, b ≡ D mod 2 and 4ac = b² − D |
| `ClassTables.GroupMinus4` | main.py:150-160 | the enumeration for D = −4 is [(1, 0, 1)] |
| `ClassTables.GroupMinus20` | main.py:150-160 | the enumeration for D = −20 is [(1, 0, 5), (2, 2, 3)] |
| `ClassTables.GroupMinus56` | main.py:150-160 | the enumeration for D = −56 is [(1, 0, 14), (2, 0, 7), (3, −2, 5), (3, 2, 5)] |
| `ClassTables.ClassNumbers` | main.py:163-164 | h(−4n) is 1 for n = 1, 2, 3, 4, 7; 2 for n = 5, 6, 8, 9, 10; and 4 for n = 14 |
| `ClassTables.RepresentativeAt` | main.py:69-74 | when (x, y) is the first point in scan order with a unit value, the representative is that value mod \|D\| |
| `ClassTables.RepresentativeAtOneOne` | main.py:69-74 | a common factor of c and \|D\| rules out row x = 0, so a form with no unit at (1, 0) and one at (1, 1) has f(1, 1) mod \|D\| as representative |
| `ClassTables.OutsidePrincipalGenus` | main.py:76-86 | a residue r is not in the principal genus of x² + n y² when, for some q dividing 4n, no u² + n·y with y in {0, 1} is r mod q |
| `ClassTables.ConvenientTwoClasses` | main.py:88-98 | with exactly the two classes (1, 0, n) and g, x² + n y² is convenient when g's representative lies outside the principal genus |
| `ClassTables.IdonealUpToTen` | main.py:88-98 | x² + n y² is convenient for every n from 1 to 10 |
| `ClassTables.SecondPrincipalClass` | main.py:88-98 | a second reduced class of −4n whose representative lies in the principal genus makes the genus size at least 2, so x² + n y² is not convenient |
| `ClassTables.SecondClass14` | main.py:69-86 | (2, 0, 7) is a reduced class of −56 other than (1, 0, 14), its representative is 9, and 9 lies in the principal genus of x² + 14 y² |
| `ClassTables.NotConvenient14` | main.py:88-98 | the genus size of x² + 14 y² is at least 2, so x² + 14 y² is not convenient |

## Left out

- `get_ideal_class_rep`, `make_min_poly_hilbert_class` and `make_integer_poly` (main.py:66-67, 167-187) are left out. They compute with `mpmath` complex numbers at arbitrary precision, `kleinj`, and a 1e-11 rounding tolerance. That is floating-point numerics, not integer logic. Only the `Polynomial([1])` seed of the accumulator is modelled, by `ProductOne`.
- `print_residue_string`, `print_genus_string`, `print_prime_condition` and `main` (main.py:100-110, 190-228) are console output and the driver loop over n. The residue list that `print_residue_string` builds is modelled as `ResidueList`, without the printing. The `mp.dps` precision setting is left out too.
- `Polynomial.__str__`, `QuadraticForm.__str__` and `conv_to_super` (main.py:5-13, 31-41, 112-127) render text and are left out.
- `Polynomials.Mul` has integer coefficients only. The source also multiplies lists of `mpmath` complex numbers.
- `ClassGroup.From` tests the loop guard exactly, as 3a² ≤ −D, where the source compares floats (`a*a <= -D/3`). The two can differ only when rounding −D/3 to a double changes the comparison, which needs |D| of about 2^53 or more, beyond the 53-bit precision of a double; the program's discriminants are −4n for n < 2000.
- `JacobiSymbols.Jacobi` covers only k > 0. For k = 0 the source raises `ZeroDivisionError` at `n % k`. Negative k is not modelled; no caller passes one.
- `Genus.GenusRepresentative`: its contract states only the range and coprimality of a returned value. The first-point characterisation is a separate lemma, `RepresentativeIsFirst`, which keeps the function cheap to use in `GenusSize`.
- Multiplicativity of the Jacobi symbol in n is not proved. Associativity of the polynomial product is not proved either.
