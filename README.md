# Wiener's attack and Hastad's CRT step, modelled in Dafny

This project models the arithmetic core of two RSA attacks in the `vveiln/crypto` repository:

- **Rational numbers and continued fractions** (`wiener/fraction/fraction.go`). A `Fraction` object holds a numerator and a non-zero denominator. `Reduce` and `Inverse` change it in place. `Equals` compares two fractions by reducing copies of them. The integer and fractional parts use truncated division. `computeContinuedFraction` expands a fraction by Euclid's algorithm. `GetConvergent`, `NextConvergent` and `Convergents` build the convergents h/k of a term list.
- **Wiener's attack** (`wiener/wiener/wiener.go`). `FindKey(e, n)` scans the convergents k/d of e/n and skips those with k = 0. For each remaining one it forms phi = (e*d - 1)/k when k divides e*d - 1. It then solves x^2 - (n - phi + 1)x + n = 0 with a floor square root and floor halving. It returns the first d whose two roots multiply to n.
- **Hastad's broadcast attack, CRT step** (`hastad.py`). `separate` splits (ciphertext, modulus) pairs into two sequences. `CRT` combines values with the Chinese remainder theorem, modulo the product of the moduli.

Files:

- `integers.dfy` (module `Integers`) gives the library primitives the source calls, as functions with contracts:
  - big.Int `Quo` (truncated division), `GCD` (non-negative), `Sqrt` (floor square root) and `Rsh` by one (floor halving). `GCD` follows Go 1.14 and later, which accept zero and negative arguments; earlier versions return 0 for an argument <= 0, which would make `Reduce` of 0/3 divide by zero, while fraction_test.go expects 0/1;
  - `Crypto.Util.number.inverse` (a modular inverse built from the extended Euclidean algorithm);
  - the divisibility and gcd facts the proofs use.
- `optional.dfy` (module `Optional`) stands for Go's nil results.
- `fractions.dfy`, `wiener.dfy` and `hastad.dfy` model the three core files.

A `Fraction` is a Dafny class, because the source changes its fields in place. Convergents are never mutated after they are built, so they are `Ratio` values. A continued fraction is a value holding its term list.

## Model

| member | source | states |
|---|---|---|
| Integers.Quo | wiener/fraction/fraction.go:59-61 | the truncated quotient: the remainder a - q*b is smaller than b in magnitude and is zero or has the sign of a |
| Integers.Gcd | wiener/fraction/fraction.go:34 | GCD of the magnitudes: zero exactly when both are zero, otherwise a common divisor |
| Integers.GcdScale | wiener/fraction/fraction.go:33-39 | gcd(k*a, k*b) = abs(k) * gcd(a, b), the fact that makes a reduced fraction coprime |
| Integers.Isqrt | wiener/wiener/wiener.go:21 | floor square root: r^2 <= x < (r+1)^2 |
| Integers.IsqrtOfSquare | wiener/wiener/wiener.go:21 | the floor square root of t^2 is t |
| Integers.Rsh1 | wiener/wiener/wiener.go:25 | shifting right by one is floor halving: 2r <= x < 2r + 2 |
| Integers.ModInverse | hastad.py:30 | the result lies in [0, m) and, when gcd(u, m) = 1, r*u is congruent to 1 modulo m |
| Integers.CoprimeMul | hastad.py:30 | a product of two numbers coprime to m is coprime to m |
| Fractions.NewFraction | wiener/fraction/fraction.go:14-19 | null exactly when the denominator is zero; otherwise a new object holding (n, d) as given, unreduced |
| Fractions.Fraction.Reduce | wiener/fraction/fraction.go:33-39 | the new fields are both old fields divided by their gcd, or unchanged when that gcd is 1 |
| Fractions.ReducedValue | wiener/fraction/fraction.go:33-39 | reduction keeps the rational value and the sign of the denominator |
| Fractions.ReducedCoprime | wiener/fraction/fraction.go:33-39 | after reduction numerator and denominator have gcd 1 |
| Fractions.ReduceIdempotent | wiener/fraction/fraction.go:33-39 | reducing twice is the same as reducing once |
| Fractions.Fraction.Equals | wiener/fraction/fraction.go:41-47 | true exactly when the two fractions have equal cross products and denominators of the same sign; neither operand changes |
| Fractions.EqualsIff | wiener/fraction/fraction.go:41-47 | two fractions reduce to the same pair if and only if they denote the same value with same-signed denominators |
| Fractions.ScaledEquals | wiener/fraction/fraction.go:41-47 | scaling both parts by a positive factor does not change the reduced form |
| Fractions.Fraction.Inverse | wiener/fraction/fraction.go:49-57 | null and no change exactly when the numerator is zero; otherwise the fields are swapped and the same object is returned |
| Fractions.InverseTwice | wiener/fraction/fraction.go:49-57 | inverting a fraction with a non-zero numerator twice restores its fields and returns the same object |
| Fractions.Fraction.GetIntegerPart | wiener/fraction/fraction.go:59-61 | the truncated quotient of numerator by denominator |
| Fractions.Fraction.GetFractionalPart | wiener/fraction/fraction.go:63-67 | a new fraction over the same denominator whose numerator r satisfies n = q*d + r and abs(r) < abs(d) |
| Fractions.Fraction.IsZero | wiener/fraction/fraction.go:69-71 | true exactly when the fraction denotes the rational number zero |
| Fractions.Expand | wiener/fraction/fraction.go:83-94 | a non-empty term list headed by the integer part; the recursion ends because the denominator shrinks in magnitude |
| Fractions.ComputeContinuedFraction | wiener/fraction/fraction.go:83-94 | returns the expansion of its argument and changes no existing object |
| Fractions.NewContinuedFraction | wiener/fraction/fraction.go:78-81 | holds the expansion of its argument |
| Fractions.ContinuedFraction.NextConvergent | wiener/fraction/fraction.go:97-105 | the next convergent from the two before it; NextConvergentDeterminant states one consequence of the recurrence |
| Fractions.NextConvergentDeterminant | wiener/fraction/fraction.go:97-105 | the cross determinant h*k' - h'*k of the new convergent and the previous one is minus that of the two previous ones |
| Fractions.ContinuedFraction.GetConvergent | wiener/fraction/fraction.go:108-121 | bases a0/1 and (a0*a1 + 1)/a1, then NextConvergent; ConvergentRecurrence proves it equal to the textbook recurrence |
| Fractions.ConvergentDeterminant | wiener/fraction/fraction.go:96-121 | consecutive convergents satisfy h_n k_(n-1) - h_(n-1) k_n = (-1)^(n-1) |
| Fractions.ConvergentCoprime | wiener/fraction/fraction.go:96-121 | every convergent is in lowest terms, so the k/d that FindKey tests are reduced |
| Fractions.ConvergentRecurrence | wiener/fraction/fraction.go:96-121 | GetConvergent, with its two base cases and NextConvergent, equals the textbook recurrence seeded with 0/1 and 1/0 |
| Fractions.ContinuedFraction.Convergents | wiener/fraction/fraction.go:123-130 | as many convergents as terms, element i being GetConvergent(i); at least two terms are needed |
| Fractions.ExpandRoundTrip | wiener/fraction/fraction.go:83-130 | for n >= 0 and d > 0 the last convergent of the expansion of n/d is n/d in lowest terms |
| Fractions.LastConvergentEquals | wiener/fraction/fraction.go:83-130 | for n >= 0 and d > 0 the last convergent compares Equal to n/d |
| Fractions.NegativeRoundTrip | wiener/fraction/fraction.go:41-130 | -1/2 expands to [0, -2], whose last convergent 1/-2 reduces to a pair other than -1/2, so Equals is false |
| Fractions.ExpandTermsPositive | wiener/fraction/fraction.go:83-94 | for n >= 0 and d > 0 the first term is non-negative and every later term is positive |
| Fractions.ConvergentSigns | wiener/fraction/fraction.go:96-130 | with such terms every convergent has a non-negative numerator and a denominator of at least 1 |
| Fractions.ReduceTestVectors | wiener/fraction/fraction_test.go:8-43 | 22/33 reduces to 2/3, 2/3 stays, 0/3 reduces to 0/1; 0/3 equals 0/1 and 2/3 equals 4/6 |
| Fractions.ExpansionTestVectors | wiener/fraction/fraction_test.go:58-90 | integer parts 0, 1, 23 and fractional numerators 2, 1, 0 for 2/22, 23/22, 23/1 |
| Fractions.FiveSixthsExpansion | wiener/fraction/fraction.go:83-121 | 5/6 expands to [0, 1, 5] with convergents 0/1, 1/1, 5/6 |
| Wiener.SolveQuadraticEquation | wiener/wiener/wiener.go:10-32 | no roots exactly when the discriminant (n - phi + 1)^2 - 4n is negative; otherwise the first root is at least the second |
| Wiener.QuadraticVieta | wiener/wiener/wiener.go:16-31 | when the discriminant is a perfect square the roots add up to n - phi + 1 and multiply to n |
| Wiener.ProductCheckImpliesSquare | wiener/wiener/wiener.go:16-31 | for n > 0, roots that multiply to n can only come from a perfect-square discriminant |
| Wiener.RootsOfFactors | wiener/wiener/wiener.go:10-32 | for n = p*q with p >= q and phi = (p-1)(q-1) the quadratic returns exactly (p, q) |
| Wiener.Check | wiener/wiener/wiener.go:40-56 | the tests FindKey applies to one convergent; CheckSound and CheckComplete state exactly which convergents it accepts |
| Wiener.CheckSound | wiener/wiener/wiener.go:40-56 | an accepted convergent k/d has k != 0, e*d = k*phi + 1, n = p*q with p >= q, p + q = n - phi + 1 and phi = (p-1)(q-1) |
| Wiener.CheckComplete | wiener/wiener/wiener.go:40-56 | if n = p*q with p >= q and e*d = k*(p-1)(q-1) + 1 with k != 0, the convergent k/d is accepted and yields p and q |
| Wiener.ExpansionHasTwoTerms | wiener/wiener/wiener.go:35-36 | the expansion of e/n has at least two terms exactly when n does not divide e |
| Wiener.FindKey | wiener/wiener/wiener.go:34-61 | None exactly when no convergent passes the checks; otherwise the denominator of the first convergent, in index order, that passes them |
| Hastad.Separate | hastad.py:33-36 | two sequences as long as the input, whose i-th elements are the two halves of the i-th pair |
| Hastad.Zip | hastad.py:28 | pairs up two sequences position by position, as long as the shorter one |
| Hastad.ZipSeparate | hastad.py:33-36 | zipping the two halves that Separate returns gives back the original pairs |
| Hastad.CrtTermOverZip | hastad.py:28-30 | the i-th summand is built from the i-th zipped (modulus, value) pair, for every index below the shorter length |
| Hastad.SeparateZip | hastad.py:33-36 | Separate undoes Zip on sequences of equal length |
| Hastad.Product | hastad.py:26 | the left fold of multiplication from 1; ProductPositive, ProductConcat and ProductFactor state its properties |
| Hastad.ProductPositive | hastad.py:26 | the left fold of multiplication starting from 1 is positive when every modulus is |
| Hastad.ProductConcat | hastad.py:26 | the product of a concatenation is the product of the products |
| Hastad.ProductFactor | hastad.py:26-29 | every modulus divides the product, leaving the product of the other moduli |
| Hastad.CofactorQuotient | hastad.py:29 | for positive moduli prod // m_i is exact and equals the product of the other moduli |
| Hastad.CofactorDivisible | hastad.py:29-30 | p_i = prod // m_i is a multiple of every other modulus |
| Hastad.CoprimeProduct | hastad.py:26-30 | a product of numbers each coprime to m is coprime to m |
| Hastad.CofactorCoprime | hastad.py:29-30 | for pairwise coprime moduli, p_i is coprime to m_i, so the inverse the source asks for exists |
| Hastad.CrtTerm | hastad.py:29-30 | the summand v_i * inverse(p_i, m_i) * p_i with p_i = prod // m_i; TermResidue states its residues |
| Hastad.TermResidue | hastad.py:30 | the i-th summand is a multiple of every other modulus and congruent to v_i modulo m_i |
| Hastad.SumResidue | hastad.py:28-30 | the running sum is congruent to v_j modulo m_j once pair j has been added, and to 0 before |
| Hastad.CrtValue | hastad.py:24-31 | the sum over the zipped pairs reduced modulo the product lies in [0, prod) |
| Hastad.CrtResidue | hastad.py:24-31 | the reduced sum is congruent to v_j modulo m_j |
| Hastad.CrtResidues | hastad.py:24-31 | the Chinese remainder theorem: with pairwise coprime moduli, the reduced sum is congruent to every paired value modulo its modulus |
| Hastad.CRT | hastad.py:24-31 | the loop computes CrtValue, which lies in [0, prod); for pairwise coprime moduli, x is congruent to v_i modulo m_i for every zipped pair |

## Left out

- `Fraction.String` and the `Numerator`/`Denominator` accessors (wiener/fraction/fraction.go:21-31) are left out. They only format or read fields, and the model reads the fields directly.
- `generate_key`, `encrypt`, `root`, `hastad` and the `__main__` block of hastad.py are left out. They use randomness, RSA key generation, encryption, 4200-digit decimal powers, byte conversion and I/O.
- The big.Int primitives and `Crypto.Util.number.inverse` are not their library implementations. They are specified by the functions in `Integers`, with the contracts in the table. Integers are unbounded, as big.Int and Python ints are.
- Integers.ModInverse: for a number that is not invertible the library raises an error or returns an unspecified value, depending on its version; the model returns some value in [0, m) and promises nothing more.
- Fractions.ContinuedFraction.Convergents: Go's version reads term 1 unconditionally and so panics on a one-term expansion, that is whenever n divides e (e = 0 included). The intended behaviour is to skip a zero e and go on scanning. The code panics instead; the model follows the code and requires at least two terms.
- Wiener.FindKey: requires 0 <= e, 0 < n and e % n != 0. With n = 0 the source dereferences a nil fraction, and with n dividing e it panics in `Convergents`. Negative e or n run without a panic in the source, but a public exponent and modulus are non-negative, and the attack's interface takes them so.
- Fractions.ContinuedFraction.NextConvergent returns a `Ratio` value, not a fraction that may be nil. The source's NewFraction gives nil for a zero denominator, which the model does not carry. ExpandTermsPositive, ConvergentSigns and ConvergentRecurrence together show that this never happens for the expansions FindKey builds, where every denominator is at least 1.
- Fractions.ContinuedFraction.GetConvergent returns a `Ratio` value as well, for the same reason and with the same argument that its nil case never arises on FindKey's input.
- Pointer aliasing is not modelled. This covers the `big.Int` pointers that Equals's copies share with their operands, and the result pointer that FindKey returns. Fields are modelled as integer values.
- Fractions.ExpandRoundTrip: requires n >= 0 and d > 0. The round trip does not hold for every rational: NegativeRoundTrip shows that for -1/2 the source's last convergent is 1/-2, which Equals reports unequal to -1/2 because reduction keeps the sign of the denominator. FindKey only expands e/n with e >= 0 and n > 0.
- Wiener's theorem is not proved: that for d < n^(1/4)/3 the right k/d appears among the convergents of e/n. CheckComplete proves that such a convergent, once present, is accepted. FindKey proves that the first accepted one is returned.
- Hastad.CRT: requires positive moduli, and so does Hastad.CrtValue. In the source a zero modulus raises ZeroDivisionError at `prod // modules_i` or at `sum_ % prod` (hastad.py:29 or 31): the latter when the zero modulus lies beyond the zipped pairs, or when `values` is empty. A negative modulus still runs Python's floor `//` and `%`, after which `inverse` raises or returns an unspecified value, depending on the library version. The model does not capture either case, because RSA moduli are positive.
- Hastad.CRT: uniqueness of the CRT solution modulo the product is not stated, because the source only computes the residue.
