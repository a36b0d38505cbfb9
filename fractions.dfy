/**
 * The rational-number type behind Wiener's attack: a Fraction object holding
 * a numerator and a non-zero denominator, with in-place Reduce and Inverse,
 * value comparison, integer and fractional parts, the Euclidean
 * continued-fraction expansion of a fraction and the convergents of an
 * expansion.
 */
module Fractions {
  import opened Integers

  /** The pair of integers a Fraction holds, in whatever form it was built. */
  datatype Ratio = Ratio(num: int, den: int)

  /**
   * x and y denote the same rational number (their cross products agree) and
   * their denominators have the same sign. Reduction never changes a sign, so
   * this is exactly when two fractions compare equal.
   */
  predicate SameValue(x: Ratio, y: Ratio) {
    x.num * y.den == y.num * x.den && (x.den > 0 <==> y.den > 0)
  }

  /** What Reduce leaves in a fraction: both parts divided by their gcd, unless that gcd is 1. */
  function Reduced(x: Ratio): Ratio
    requires x.den != 0
  {
    var g := Gcd(x.num, x.den);
    if g != 1 then Ratio(Quo(x.num, g), Quo(x.den, g)) else x
  }

  // ---------------------------------------------------------------------------
  // Arithmetic helpers
  // ---------------------------------------------------------------------------

  lemma Cancel(g: int, a: int, b: int)
    requires g != 0 && g * a == g * b
    ensures a == b
  {
    assert g * (a - b) == 0;
    if a != b {
      MulMagnitude(g, a - b);
    }
  }

  lemma PositiveFactorSign(g: int, y: int)
    requires g > 0
    ensures g * y > 0 <==> y > 0
    ensures g * y != 0 <==> y != 0
  {
    if y != 0 {
      MulMagnitude(y, g);
    }
    if y > 0 {
      assert g * y == g * (y - 1) + g;
      assert g * (y - 1) >= 0;
    } else if y < 0 {
      assert g * y == -(g * (-y));
      assert g * (-y) > 0 by {
        assert g * (-y) == g * (-y - 1) + g;
        assert g * (-y - 1) >= 0;
      }
    }
  }

  // ---------------------------------------------------------------------------
  // Reduction and value comparison
  // ---------------------------------------------------------------------------

  /** Reduction divides both parts exactly by their gcd. */
  lemma ReducedFactor(x: Ratio)
    requires x.den != 0
    ensures Gcd(x.num, x.den) > 0
    ensures x.num == Gcd(x.num, x.den) * Reduced(x).num
    ensures x.den == Gcd(x.num, x.den) * Reduced(x).den
  {
    var g := Gcd(x.num, x.den);
    QuoExact(x.num, g);
    QuoExact(x.den, g);
  }

  /** Reduction preserves the rational value and the sign of the denominator. */
  lemma ReducedValue(x: Ratio)
    requires x.den != 0
    ensures Reduced(x).den != 0 && SameValue(Reduced(x), x)
  {
    ReducedFactor(x);
    var g, r := Gcd(x.num, x.den), Reduced(x);
    assert r.num * x.den == x.num * r.den by {
      assert r.num * x.den == r.num * (g * r.den);
      assert x.num * r.den == (g * r.num) * r.den;
    }
    PositiveFactorSign(g, r.den);
  }

  /** A reduced fraction is in lowest terms. */
  lemma ReducedCoprime(x: Ratio)
    requires x.den != 0
    ensures Reduced(x).den != 0
    ensures Gcd(Reduced(x).num, Reduced(x).den) == 1
  {
    ReducedFactor(x);
    ReducedValue(x);
    var g, r := Gcd(x.num, x.den), Reduced(x);
    GcdScale(g, r.num, r.den);
    Cancel(g, Gcd(r.num, r.den), 1);
  }

  /** Reducing twice is reducing once. */
  lemma ReduceIdempotent(x: Ratio)
    requires x.den != 0
    ensures Reduced(x).den != 0 && Reduced(Reduced(x)) == Reduced(x)
  {
    ReducedCoprime(x);
  }

  lemma SameValueTransitive(x: Ratio, y: Ratio, z: Ratio)
    requires x.den != 0 && y.den != 0 && z.den != 0
    requires SameValue(x, y) && SameValue(y, z)
    ensures SameValue(x, z)
  {
    assert y.den * (x.num * z.den) == y.den * (z.num * x.den) by {
      calc {
        y.den * (x.num * z.den);
        z.den * (x.num * y.den);
        z.den * (y.num * x.den);
        x.den * (y.num * z.den);
        x.den * (z.num * y.den);
        y.den * (z.num * x.den);
      }
    }
    Cancel(y.den, x.num * z.den, z.num * x.den);
  }

  /** Two fractions in lowest terms with the same value and denominator sign are identical. */
  lemma CoprimeUnique(x: Ratio, y: Ratio)
    requires x.den != 0 && y.den != 0
    requires Gcd(x.num, x.den) == 1 && Gcd(y.num, y.den) == 1
    requires SameValue(x, y)
    ensures x == y
  {
    GcdScale(y.den, x.num, x.den);
    GcdScale(x.den, y.num, y.den);
    assert y.den * x.num == x.den * y.num;
    assert y.den * x.den == x.den * y.den;
    assert Abs(y.den) == Abs(x.den);
    assert x.den == y.den;
    Cancel(x.den, x.num, y.num);
  }

  /** Comparing reduced forms decides equality of rational values (with denominator signs). */
  lemma EqualsIff(x: Ratio, y: Ratio)
    requires x.den != 0 && y.den != 0
    ensures Reduced(x) == Reduced(y) <==> SameValue(x, y)
  {
    ReducedValue(x);
    ReducedValue(y);
    if Reduced(x) == Reduced(y) {
      SameValueTransitive(x, Reduced(x), y);
    }
    if SameValue(x, y) {
      SameValueTransitive(Reduced(x), x, y);
      SameValueTransitive(Reduced(x), y, Reduced(y));
      ReducedCoprime(x);
      ReducedCoprime(y);
      CoprimeUnique(Reduced(x), Reduced(y));
    }
  }

  /** Scaling both parts by a positive factor does not change what Equals sees. */
  lemma ScaledEquals(x: Ratio, c: int)
    requires x.den != 0 && c > 0
    ensures c * x.den != 0 && Reduced(Ratio(c * x.num, c * x.den)) == Reduced(x)
  {
    PositiveFactorSign(c, x.den);
    var y := Ratio(c * x.num, c * x.den);
    assert x.num * y.den == y.num * x.den by {
      assert x.num * (c * x.den) == (c * x.num) * x.den;
    }
    EqualsIff(x, y);
  }

  // ---------------------------------------------------------------------------
  // The Fraction object
  // ---------------------------------------------------------------------------

  class Fraction {
    var numerator: int
    var denominator: int

    /** The invariant NewFraction establishes and every method keeps. */
    ghost predicate Valid()
      reads this
    {
      denominator != 0
    }

    function Value(): Ratio
      reads this
    {
      Ratio(numerator, denominator)
    }

    constructor (n: int, d: int)
      requires d != 0
      ensures Valid() && Value() == Ratio(n, d)
    {
      numerator, denominator := n, d;
    }

    /** Divides both fields by their gcd, in place. */
    method Reduce()
      requires Valid()
      modifies this
      ensures Valid() && Value() == Reduced(old(Value()))
    {
      ReducedValue(Value());
      var gcd := Gcd(numerator, denominator);
      if gcd != 1 {
        numerator, denominator := Quo(numerator, gcd), Quo(denominator, gcd);
      }
    }

    /** Reduces fresh copies of both operands and compares them field by field. */
    method Equals(ff: Fraction) returns (eq: bool)
      requires Valid() && ff.Valid()
      ensures eq <==> SameValue(Value(), ff.Value())
    {
      var cf := NewFraction(numerator, denominator);
      var cff := NewFraction(ff.numerator, ff.denominator);
      cf.Reduce();
      cff.Reduce();
      eq := cf.numerator == cff.numerator && cf.denominator == cff.denominator;
      EqualsIff(Value(), ff.Value());
    }

    /** Swaps the fields in place and returns this object; null for a zero numerator. */
    method Inverse() returns (g: Fraction?)
      requires Valid()
      modifies this
      ensures Valid()
      ensures g == null <==> old(numerator) == 0
      ensures g == null ==> Value() == old(Value())
      ensures g != null ==> g == this && Value() == Ratio(old(denominator), old(numerator))
    {
      if numerator == 0 {
        return null;
      }
      numerator, denominator := denominator, numerator;
      g := this;
    }

    /** The quotient truncated toward zero. */
    function GetIntegerPart(): (q: int)
      reads this
      requires Valid()
      ensures Abs(numerator - q * denominator) < Abs(denominator)
      ensures numerator - q * denominator == 0 || (numerator - q * denominator < 0 <==> numerator < 0)
    {
      Quo(numerator, denominator)
    }

    /** A new fraction over the same denominator holding the remainder of the truncated division. */
    method GetFractionalPart() returns (f: Fraction)
      requires Valid()
      ensures fresh(f) && f.Valid()
      ensures f.denominator == denominator
      ensures numerator == GetIntegerPart() * denominator + f.numerator
      ensures Abs(f.numerator) < Abs(denominator)
    {
      var intPart := GetIntegerPart();
      var num := numerator - intPart * denominator;
      f := NewFraction(num, denominator);
    }

    /** The fraction denotes the rational number zero. */
    function IsZero(): (z: bool)
      reads this
      requires Valid()
      ensures z <==> SameValue(Value(), Ratio(0, denominator))
    {
      assert numerator * denominator == 0 <==> numerator == 0 by {
        if numerator != 0 {
          MulMagnitude(denominator, numerator);
        }
      }
      numerator == 0
    }
  }

  /** null exactly when the denominator is zero; otherwise a new object holding the pair as given. */
  method NewFraction(n: int, d: int) returns (f: Fraction?)
    ensures f == null <==> d == 0
    ensures f != null ==> fresh(f) && f.Valid() && f.Value() == Ratio(n, d)
  {
    if d == 0 {
      return null;
    }
    f := new Fraction(n, d);
  }

  /** Inverting twice gives the original fraction back, as the same object. */
  method InverseTwice(f: Fraction) returns (g: Fraction?)
    requires f.Valid() && f.numerator != 0
    modifies f
    ensures g == f && f.Valid() && f.Value() == old(f.Value())
  {
    var h := f.Inverse();
    g := h.Inverse();
  }

  // ---------------------------------------------------------------------------
  // Continued fractions
  // ---------------------------------------------------------------------------

  /**
   * The continued-fraction terms of x: its integer part, followed, unless the
   * fractional part is zero, by the terms of the inverted fractional part.
   * Each step is one step of Euclid's algorithm on (numerator, denominator),
   * so the denominator shrinks in magnitude and the expansion is finite.
   */
  function Expand(x: Ratio): (terms: seq<int>)
    requires x.den != 0
    ensures |terms| >= 1 && terms[0] == Quo(x.num, x.den)
    decreases Abs(x.den)
  {
    var q := Quo(x.num, x.den);
    var r := x.num - q * x.den;
    if r == 0 then [q] else [q] + Expand(Ratio(x.den, r))
  }

  /** The term list of r; r itself is left as it was, only fresh fractions are inverted. */
  method ComputeContinuedFraction(r: Fraction) returns (fraction: seq<int>)
    requires r.Valid()
    ensures fraction == Expand(r.Value())
    decreases Abs(r.denominator)
  {
    fraction := [r.GetIntegerPart()];
    var f := r.GetFractionalPart();
    if f.IsZero() {
      return;
    }
    var inv := f.Inverse();
    var rest := ComputeContinuedFraction(inv);
    fraction := fraction + rest;
  }

  /** The cross determinant x.num * y.den - y.num * x.den of two ratios. */
  function Det(x: Ratio, y: Ratio): int {
    x.num * y.den - y.num * x.den
  }


  /** The term list [a0, a1, ..., ak] of a continued fraction. */
  datatype ContinuedFraction = ContinuedFraction(terms: seq<int>)
  {
    /** The convergent at index n from the two before it. */
    function NextConvergent(c1: Ratio, c2: Ratio, n: nat): Ratio
      requires n < |terms|
    {
      Ratio(terms[n] * c1.num + c2.num, terms[n] * c1.den + c2.den)
    }

    /** The n-th convergent, computed recursively from a0/1 and (a0*a1 + 1)/a1. */
    function GetConvergent(n: nat): Ratio
      requires n < |terms|
    {
      if n == 0 then Ratio(terms[0], 1)
      else if n == 1 then Ratio(terms[0] * terms[1] + 1, terms[1])
      else NextConvergent(GetConvergent(n - 1), GetConvergent(n - 2), n)
    }

    /** All convergents, in index order; the first two are always taken, so two terms are needed. */
    method Convergents() returns (convergents: seq<Ratio>)
      requires |terms| >= 2
      ensures |convergents| == |terms|
      ensures forall i :: 0 <= i < |terms| ==> convergents[i] == GetConvergent(i)
    {
      convergents := [GetConvergent(0), GetConvergent(1)];
      for i := 2 to |terms|
        invariant |convergents| == i
        invariant forall j :: 0 <= j < i ==> convergents[j] == GetConvergent(j)
      {
        convergents := convergents + [NextConvergent(convergents[i - 1], convergents[i - 2], i)];
      }
    }
  }

  method NewContinuedFraction(r: Fraction) returns (cf: ContinuedFraction)
    requires r.Valid()
    ensures cf.terms == Expand(r.Value())
  {
    var fraction := ComputeContinuedFraction(r);
    cf := ContinuedFraction(fraction);
  }

  /**
   * The textbook convergent recurrence h_i = a_i h_(i-1) + h_(i-2) and
   * k_i = a_i k_(i-1) + k_(i-2), seeded with h/k = 0/1 at index -2 and 1/0
   * at index -1.
   */
  function Convergent(terms: seq<int>, i: int): Ratio
    requires -2 <= i < |terms|
    decreases i + 2
  {
    if i == -2 then Ratio(0, 1)
    else if i == -1 then Ratio(1, 0)
    else
      var c1, c2 := Convergent(terms, i - 1), Convergent(terms, i - 2);
      Ratio(terms[i] * c1.num + c2.num, terms[i] * c1.den + c2.den)
  }

  /** GetConvergent's two base cases are the seeded recurrence's first two steps. */
  lemma {:induction false} ConvergentRecurrence(cf: ContinuedFraction, i: nat)
    requires i < |cf.terms|
    ensures cf.GetConvergent(i) == Convergent(cf.terms, i)
    decreases i
  {
    if i >= 2 {
      ConvergentRecurrence(cf, i - 1);
      ConvergentRecurrence(cf, i - 2);
    }
  }

  lemma DetStep(a: int, h1: int, k1: int, h2: int, k2: int)
    ensures (a * h1 + h2) * k1 - h1 * (a * k1 + k2) == -(h1 * k2 - h2 * k1)
  {
    assert (a * h1 + h2) * k1 == a * h1 * k1 + h2 * k1;
    assert h1 * (a * k1 + k2) == a * h1 * k1 + h1 * k2;
  }

  /** Each step of the recurrence flips the sign of the cross determinant of consecutive convergents. */
  lemma NextConvergentDeterminant(cf: ContinuedFraction, c1: Ratio, c2: Ratio, n: nat)
    requires n < |cf.terms|
    ensures Det(cf.NextConvergent(c1, c2, n), c1) == -Det(c1, c2)
  {
    DetStep(cf.terms[n], c1.num, c1.den, c2.num, c2.den);
  }

  /** Consecutive convergents h/k satisfy h_n k_(n-1) - h_(n-1) k_n = (-1)^(n-1). */
  lemma {:induction false} ConvergentDeterminant(cf: ContinuedFraction, n: nat)
    requires 1 <= n < |cf.terms|
    ensures Det(cf.GetConvergent(n), cf.GetConvergent(n - 1)) == if n % 2 == 1 then 1 else -1
    decreases n
  {
    if n == 1 {
      var a0, a1 := cf.terms[0], cf.terms[1];
      assert Det(cf.GetConvergent(1), cf.GetConvergent(0)) == (a0 * a1 + 1) * 1 - a0 * a1;
    } else {
      ConvergentDeterminant(cf, n - 1);
      NextConvergentDeterminant(cf, cf.GetConvergent(n - 1), cf.GetConvergent(n - 2), n);
    }
  }

  lemma UnitDeterminant(h: int, k: int, h': int, k': int, s: int)
    requires h * k' - h' * k == s && (s == 1 || s == -1)
    ensures Gcd(h, k) == 1
  {
    if s == 1 {
      CoprimeOfCombination(h, k, k', -h');
    } else {
      CoprimeOfCombination(h, k, -k', h');
    }
  }

  /** Every convergent is in lowest terms: its numerator and denominator are coprime. */
  lemma ConvergentCoprime(cf: ContinuedFraction, n: nat)
    requires n < |cf.terms|
    ensures Gcd(cf.GetConvergent(n).num, cf.GetConvergent(n).den) == 1
  {
    var c := cf.GetConvergent(n);
    if n == 0 {
      assert c.den == 1;
      CoprimeOfCombination(c.num, c.den, 0, 1);
    } else {
      var p := cf.GetConvergent(n - 1);
      ConvergentDeterminant(cf, n);
      UnitDeterminant(c.num, c.den, p.num, p.den, Det(c, p));
    }
  }

  /**
   * Putting a term a in front of a list maps each convergent h/k of the list
   * to (a*h + k)/h: the convergents of a0 + 1/x are built from those of x.
   */
  lemma PrependStep(a: int, x: int, pn: int, pd: int, ppn: int, ppd: int)
    ensures x * (a * pn + pd) + (a * ppn + ppd) == a * (x * pn + ppn) + (x * pd + ppd)
  {
    assert x * (a * pn + pd) == a * (x * pn) + x * pd;
    assert a * (x * pn + ppn) == a * (x * pn) + a * ppn;
  }

  lemma {:induction false} ConvergentPrepend(a: int, t: seq<int>, j: int)
    requires -2 <= j < |t|
    ensures var c := Convergent(t, j);
            Convergent([a] + t, j + 1) == Ratio(a * c.num + c.den, c.num)
    decreases j + 2
  {
    var s := [a] + t;
    if j >= 0 {
      ConvergentPrepend(a, t, j - 1);
      ConvergentPrepend(a, t, j - 2);
      var p, pp := Convergent(t, j - 1), Convergent(t, j - 2);
      var x := t[j];
      var c1, c2 := Convergent(s, j), Convergent(s, j - 1);
      assert c1 == Ratio(a * p.num + p.den, p.num);
      assert c2 == Ratio(a * pp.num + pp.den, pp.num);
      assert s[j + 1] == x;
      assert Convergent(s, j + 1) == Ratio(x * c1.num + c2.num, x * c1.den + c2.den);
      assert Convergent(t, j) == Ratio(x * p.num + pp.num, x * p.den + pp.den);
      PrependStep(a, x, p.num, p.den, pp.num, pp.den);
    }
  }

  /** One step of the expansion of a non-negative over a positive number is one step of Euclid. */
  lemma ExpandStep(n: int, d: int)
    requires 0 <= n && 0 < d
    ensures n == d * (n / d) + n % d && 0 <= n % d < d
    ensures Expand(Ratio(n, d)) == if n % d == 0 then [n / d] else [n / d] + Expand(Ratio(d, n % d))
    ensures Gcd(n, d) == Gcd(d, n % d)
  {
    QuoNonNegative(n, d);
  }

  lemma RoundTripStep(n: int, d: int, q: int, r: int, g: int, rn: int, rd: int, sn: int)
    requires g != 0 && n == d * q + r && d == g * rn && r == g * rd && n == g * sn
    ensures sn == q * rn + rd
  {
    assert d * q == g * (q * rn);
    assert g * (q * rn + rd) == g * (q * rn) + g * rd;
    Cancel(g, sn, q * rn + rd);
  }

  /**
   * The expansion of n/d (n >= 0, d > 0) rebuilt through its last convergent
   * is n/d in lowest terms.
   */
  lemma {:induction false} ExpandRoundTrip(n: int, d: int)
    requires 0 <= n && 0 < d
    ensures var t := Expand(Ratio(n, d));
            Convergent(t, |t| - 1) == Reduced(Ratio(n, d))
    decreases d
  {
    ExpandStep(n, d);
    var q, r := n / d, n % d;
    var t := Expand(Ratio(n, d));
    var S := Reduced(Ratio(n, d));
    ReducedFactor(Ratio(n, d));
    var g := Gcd(n, d);
    if r == 0 {
      assert t == [q];
      assert Convergent(t, 0) == Ratio(q, 1);
      assert g == d;
      Cancel(d, 1, S.den);
      Cancel(d, q, S.num);
    } else {
      var t' := Expand(Ratio(d, r));
      assert t == [q] + t';
      ExpandRoundTrip(d, r);
      ConvergentPrepend(q, t', |t'| - 1);
      var R := Reduced(Ratio(d, r));
      ReducedFactor(Ratio(d, r));
      assert Convergent(t, |t| - 1) == Ratio(q * R.num + R.den, R.num);
      Cancel(g, S.den, R.num);
      RoundTripStep(n, d, q, r, g, R.num, R.den, S.num);
    }
  }

  /** The last convergent of the expansion of n/d compares Equal to n/d. */
  lemma LastConvergentEquals(n: int, d: int)
    requires 0 <= n && 0 < d
    ensures var cf := ContinuedFraction(Expand(Ratio(n, d)));
            && cf.GetConvergent(|cf.terms| - 1) == Reduced(Ratio(n, d))
            && SameValue(cf.GetConvergent(|cf.terms| - 1), Ratio(n, d))
  {
    var cf := ContinuedFraction(Expand(Ratio(n, d)));
    ExpandRoundTrip(n, d);
    ConvergentRecurrence(cf, |cf.terms| - 1);
    ReducedValue(Ratio(n, d));
  }

  lemma QuotientOfSmaller(d: int, r: int)
    requires 0 < r < d
    ensures d / r >= 1
  {
    var q, m := (d - r) / r, (d - r) % r;
    assert d - r == r * q + m;
    assert d == r * (q + 1) + m;
    DivModUnique(d, r, q + 1, m);
  }

  lemma QuotientNonNegative(n: int, d: int)
    requires 0 <= n && 0 < d
    ensures n / d >= 0
  {
    var q, r := n / d, n % d;
    assert n == d * q + r && r < d;
    assert d * (q + 1) == d * q + d;
    PositiveFactorSign(d, q + 1);
  }

  /** For n >= 0 and d > 0 the first term is non-negative and every later term is positive. */
  lemma {:induction false} ExpandTermsPositive(n: int, d: int)
    requires 0 <= n && 0 < d
    ensures var t := Expand(Ratio(n, d));
            t[0] >= 0 && forall i :: 1 <= i < |t| ==> t[i] >= 1
    decreases d
  {
    ExpandStep(n, d);
    QuotientNonNegative(n, d);
    var r := n % d;
    if r != 0 {
      ExpandTermsPositive(d, r);
      ExpandStep(d, r);
      var t, t' := Expand(Ratio(n, d)), Expand(Ratio(d, r));
      QuotientOfSmaller(d, r);
      assert t'[0] == d / r;
      assert t == [n / d] + t';
      forall i | 1 <= i < |t|
        ensures t[i] >= 1
      {
        assert t[i] == t'[i - 1];
      }
    }
  }

  /** One recurrence step keeps the signs: non-negative stays so, and a positive denominator follows. */
  lemma SignStep(a: int, h1: int, k1: int, h2: int, k2: int)
    requires a >= 0 && h1 >= 0 && k1 >= 0 && h2 >= 0 && k2 >= 0
    ensures a * h1 + h2 >= 0 && a * k1 + k2 >= 0
    ensures (a >= 1 && k1 >= 1) || k2 >= 1 ==> a * k1 + k2 >= 1
  {
    if a >= 1 && k1 >= 1 {
      PositiveFactorSign(k1, a);
    }
  }

  /** With such terms every convergent has a non-negative numerator and a positive denominator. */
  lemma {:induction false} ConvergentSigns(terms: seq<int>, i: int)
    requires |terms| >= 1 && terms[0] >= 0
    requires forall j :: 1 <= j < |terms| ==> terms[j] >= 1
    requires -2 <= i < |terms|
    ensures Convergent(terms, i).num >= 0 && Convergent(terms, i).den >= 0
    ensures i >= 0 ==> Convergent(terms, i).den >= 1
    decreases i + 2
  {
    if i >= 0 {
      ConvergentSigns(terms, i - 1);
      ConvergentSigns(terms, i - 2);
      var c1, c2 := Convergent(terms, i - 1), Convergent(terms, i - 2);
      assert Convergent(terms, i) == Ratio(terms[i] * c1.num + c2.num, terms[i] * c1.den + c2.den);
      assert i == 0 ==> c2.den == 1;
      SignStep(terms[i], c1.num, c1.den, c2.num, c2.den);
    }
  }

  /** The reductions and comparisons checked by the fraction package's tests. */
  lemma ReduceTestVectors()
    ensures Reduced(Ratio(22, 33)) == Ratio(2, 3)
    ensures Reduced(Ratio(2, 3)) == Ratio(2, 3)
    ensures Reduced(Ratio(0, 3)) == Ratio(0, 1)
    ensures SameValue(Ratio(0, 3), Ratio(0, 1)) && SameValue(Ratio(2, 3), Ratio(4, 6))
  {
    assert Reduced(Ratio(22, 33)) == Ratio(2, 3) by {
      assert NatGcd(22, 33) == NatGcd(33, 22) == NatGcd(22, 11) == NatGcd(11, 0);
    }
    assert Reduced(Ratio(2, 3)) == Ratio(2, 3) by {
      assert NatGcd(2, 3) == NatGcd(3, 2) == NatGcd(2, 1) == NatGcd(1, 0);
    }
    assert Reduced(Ratio(0, 3)) == Ratio(0, 1) by {
      assert NatGcd(0, 3) == NatGcd(3, 0);
    }
  }

  /** The integer and fractional parts checked by the package's tests. */
  lemma ExpansionTestVectors()
    ensures Quo(2, 22) == 0 && Quo(23, 22) == 1 && Quo(23, 1) == 23
    ensures 2 - Quo(2, 22) * 22 == 2 && 23 - Quo(23, 22) * 22 == 1 && 23 - Quo(23, 1) * 1 == 0
  {
    QuoNonNegative(2, 22);
    QuoNonNegative(23, 22);
    QuoNonNegative(23, 1);
  }

  /** A worked example: 5/6 = 0 + 1/(1 + 1/5), with convergents 0/1, 1/1 and 5/6. */
  lemma FiveSixthsExpansion()
    ensures Expand(Ratio(5, 6)) == [0, 1, 5]
    ensures var cf := ContinuedFraction([0, 1, 5]);
            cf.GetConvergent(0) == Ratio(0, 1) && cf.GetConvergent(1) == Ratio(1, 1)
            && cf.GetConvergent(2) == Ratio(5, 6)
  {
    QuoNonNegative(5, 6);
    QuoNonNegative(6, 5);
    QuoNonNegative(5, 1);
    assert Expand(Ratio(5, 6)) == [0] + Expand(Ratio(6, 5));
    assert Expand(Ratio(6, 5)) == [1] + Expand(Ratio(5, 1));
  }

  /**
   * The round trip needs n >= 0: -1/2 expands to [0, -2], whose last
   * convergent 1/-2 has the value -1/2 but reduces to a different pair, so
   * Equals reports it unequal to -1/2.
   */
  lemma NegativeRoundTrip()
    ensures Expand(Ratio(-1, 2)) == [0, -2]
    ensures ContinuedFraction([0, -2]).GetConvergent(1) == Ratio(1, -2)
    ensures Reduced(Ratio(1, -2)) == Ratio(1, -2) && Reduced(Ratio(-1, 2)) == Ratio(-1, 2)
    ensures !SameValue(Ratio(1, -2), Ratio(-1, 2))
  {
    assert Quo(-1, 2) == 0;
    assert Quo(2, -1) == -2;
    assert Expand(Ratio(-1, 2)) == [0] + Expand(Ratio(2, -1));
    CoprimeOfCombination(1, -2, 1, 0);
    CoprimeOfCombination(-1, 2, -1, 0);
  }
}
