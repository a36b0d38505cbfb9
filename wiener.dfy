/**
 * Wiener's attack on RSA keys with a small private exponent: scan the
 * convergents k/d of e/n, rebuild a candidate totient phi = (e*d - 1)/k from
 * each, solve x^2 - (n - phi + 1)x + n = 0, and accept the first d whose two
 * roots multiply to n.
 */
module Wiener {
  import opened Integers
  import opened Optional
  import opened Fractions

  /** x is a perfect square: its floor square root is exact. */
  predicate IsSquare(x: int) {
    x >= 0 && Isqrt(x) * Isqrt(x) == x
  }

  /**
   * The integer roots of x^2 - (n - phi + 1)x + n = 0 as the source takes
   * them: none when the discriminant is negative, otherwise the floor halves
   * of s + isqrt(D) and s - isqrt(D), where s = n - phi + 1 and D = s^2 - 4n.
   */
  function SolveQuadraticEquation(phi: int, n: int): (roots: Option<(int, int)>)
    ensures var s := n - phi + 1;
            roots.None? <==> s * s - 4 * n < 0
    ensures roots.Some? ==> roots.value.0 >= roots.value.1
  {
    var b := -(n - phi + 1);
    var c := n;
    var discr := b * b - 4 * c;
    assert b * b == (n - phi + 1) * (n - phi + 1);
    if discr < 0 then None
    else
      var root := Isqrt(discr);
      Some((Rsh1(-b + root), Rsh1(-b - root)))
  }

  /** SolveQuadraticEquation in closed form, for the lemmas below. */
  lemma SolveQuadraticShape(phi: int, n: int)
    requires var s := n - phi + 1; s * s - 4 * n >= 0
    ensures var s := n - phi + 1;
            var t := Isqrt(s * s - 4 * n);
            SolveQuadraticEquation(phi, n) == Some((Rsh1(s + t), Rsh1(s - t)))
  {
    var s, b := n - phi + 1, -(n - phi + 1);
    assert b * b - 4 * n == s * s - 4 * n by {
      assert b * b == s * s;
    }
  }

  lemma HalfOfEven(a: int)
    ensures Rsh1(2 * a) == a && Rsh1(2 * a + 1) == a
  {
  }

  /**
   * Writing s + t = 2a + e and s - t = 2b + e with e the common parity bit,
   * s^2 - t^2 is 4ab, plus 2s - 1 when both are odd.
   */
  lemma ParityExpansion(s: int, t: int, a: int, b: int, e: int)
    requires e == 0 || e == 1
    requires s + t == 2 * a + e && s - t == 2 * b + e
    ensures s * s - t * t == 4 * (a * b) + (if e == 1 then 2 * s - 1 else 0)
  {
    assert s * s - t * t == (s + t) * (s - t);
    assert (2 * a + e) * (2 * b + e) == 4 * (a * b) + 2 * e * (a + b) + e * e;
    if e == 1 {
      assert 2 * (a + b) == 2 * s - 2;
    }
  }

  /** The two floor halvings of s + t and s - t, with their common parity bit. */
  lemma HalvesOf(s: int, t: int)
    ensures var e := (s + t) % 2;
            && (e == 0 || e == 1)
            && s + t == 2 * Rsh1(s + t) + e
            && s - t == 2 * Rsh1(s - t) + e
  {
    ModAddMultiple(s + t, 2, -t);
    assert (s + t) + 2 * (-t) == s - t;
  }

  /** Integer core of Vieta: s^2 - t^2 = 4n forces s + t even, and the halves are exact. */
  lemma VietaArith(s: int, t: int, n: int)
    requires s * s - t * t == 4 * n
    ensures Rsh1(s + t) + Rsh1(s - t) == s && Rsh1(s + t) * Rsh1(s - t) == n
  {
    var e, a, b := (s + t) % 2, Rsh1(s + t), Rsh1(s - t);
    HalvesOf(s, t);
    ParityExpansion(s, t, a, b, e);
  }

  /**
   * Vieta's relations: when the discriminant is a perfect square, s and its
   * root have the same parity, so the floor halvings are exact and the two
   * roots add up to n - phi + 1 and multiply to n.
   */
  lemma QuadraticVieta(phi: int, n: int)
    requires IsSquare((n - phi + 1) * (n - phi + 1) - 4 * n)
    ensures var roots := SolveQuadraticEquation(phi, n);
            && roots.Some?
            && roots.value.0 + roots.value.1 == n - phi + 1
            && roots.value.0 * roots.value.1 == n
  {
    var s := n - phi + 1;
    var t := Isqrt(s * s - 4 * n);
    SolveQuadraticShape(phi, n);
    VietaArith(s, t, n);
  }

  /** a >= 0 and b < 0 give a non-positive product. */
  lemma ProductSign(a: int, b: int)
    ensures a >= 0 && b < 0 ==> a * b <= 0
  {
    if a >= 0 && b < 0 {
      assert a * b == -(a * (-b));
    }
  }

  /**
   * Integer core of exactness: if the floor root t of s^2 - 4n has halves
   * multiplying to n > 0, it is exact. Were s + t odd, the discriminant would
   * be t^2 + 2s - 1, which pins s between 1 and t and makes the second half
   * negative while the first is not, so their product could not be n.
   */
  lemma ExactArith(s: int, t: int, n: int)
    requires n > 0 && t >= 0
    requires t * t <= s * s - 4 * n < (t + 1) * (t + 1)
    requires Rsh1(s + t) * Rsh1(s - t) == n
    ensures t * t == s * s - 4 * n
  {
    var e, a, b := (s + t) % 2, Rsh1(s + t), Rsh1(s - t);
    HalvesOf(s, t);
    ParityExpansion(s, t, a, b, e);
    ProductSign(a, b);
    assert (t + 1) * (t + 1) == t * t + 2 * t + 1;
  }

  /**
   * The success test is exact for n > 0: if the two roots multiply to n,
   * then the discriminant was a perfect square (so Vieta's relations hold).
   */
  lemma ProductCheckImpliesSquare(phi: int, n: int)
    requires n > 0
    requires var roots := SolveQuadraticEquation(phi, n);
             roots.Some? && roots.value.0 * roots.value.1 == n
    ensures IsSquare((n - phi + 1) * (n - phi + 1) - 4 * n)
  {
    var s := n - phi + 1;
    var t := Isqrt(s * s - 4 * n);
    SolveQuadraticShape(phi, n);
    ExactArith(s, t, n);
  }

  /** One convergent k/d that passed every test, with the totient and factors it yields. */
  datatype Candidate = Candidate(k: int, d: int, phi: int, p: int, q: int)

  /** The tests FindKey applies to one convergent: Some exactly when it accepts the convergent. */
  function Check(e: int, n: int, conv: Ratio): Option<Candidate>
  {
    if conv.num == 0 then None
    else
      var probablePhi := e * conv.den - 1;
      if probablePhi % conv.num != 0 then None
      else
        var phi := probablePhi / conv.num;
        match SolveQuadraticEquation(phi, n)
        case None => None
        case Some(roots) =>
          if roots.0 * roots.1 == n then Some(Candidate(conv.num, conv.den, phi, roots.0, roots.1))
          else None
  }

  /**
   * Soundness of an accepted convergent k/d: k is non-zero and divides e*d - 1,
   * n factors as p*q with p >= q, phi = (p - 1)(q - 1), and e*d = k*phi + 1,
   * so d is an inverse of e modulo the totient of that factorisation.
   */
  lemma CheckSound(e: int, n: int, conv: Ratio)
    requires n > 0 && Check(e, n, conv).Some?
    ensures var c := Check(e, n, conv).value;
            && c.k == conv.num && c.k != 0 && c.d == conv.den
            && e * c.d == c.k * c.phi + 1
            && c.p * c.q == n && c.p >= c.q
            && c.p + c.q == n - c.phi + 1
            && c.phi == (c.p - 1) * (c.q - 1)
  {
    var k, d := conv.num, conv.den;
    var probablePhi := e * d - 1;
    var phi := probablePhi / k;
    var roots := SolveQuadraticEquation(phi, n);
    assert probablePhi % k == 0 && roots.Some? && roots.value.0 * roots.value.1 == n;
    assert Check(e, n, conv) == Some(Candidate(k, d, phi, roots.value.0, roots.value.1));
    ExactQuotient(probablePhi, k);
    ProductCheckImpliesSquare(phi, n);
    QuadraticVieta(phi, n);
    TotientOfRoots(roots.value.0, roots.value.1, n, phi);
  }

  lemma ExactQuotient(a: int, k: int)
    requires k != 0 && a % k == 0
    ensures a == k * (a / k)
  {
  }

  /** Roots with sum n - phi + 1 and product n give phi = (p - 1)(q - 1). */
  lemma TotientOfRoots(p: int, q: int, n: int, phi: int)
    requires p * q == n && p + q == n - phi + 1
    ensures phi == (p - 1) * (q - 1)
  {
    assert (p - 1) * (q - 1) == p * q - p - q + 1;
  }

  /**
   * Completeness of the tests: if n = p*q (p >= q), phi = (p - 1)(q - 1) and
   * e*d = k*phi + 1 with k non-zero, the convergent k/d is accepted and yields
   * exactly p and q.
   */
  lemma CheckComplete(e: int, n: int, k: int, d: int, p: int, q: int)
    requires p >= q && n == p * q && k != 0
    requires e * d == k * ((p - 1) * (q - 1)) + 1
    ensures Check(e, n, Ratio(k, d)) == Some(Candidate(k, d, (p - 1) * (q - 1), p, q))
  {
    var phi := (p - 1) * (q - 1);
    MulMod(k, phi);
    assert e * d - 1 == k * phi;
    RootsOfFactors(p, q, n, phi);
  }

  /** With n = p*q and phi = (p - 1)(q - 1): s = p + q and the discriminant is (p - q)^2. */
  lemma FactorsArith(p: int, q: int, n: int, phi: int)
    requires n == p * q && phi == (p - 1) * (q - 1)
    ensures n - phi + 1 == p + q
    ensures (n - phi + 1) * (n - phi + 1) - 4 * n == (p - q) * (p - q)
  {
    assert phi == p * q - p - q + 1;
    assert (p + q) * (p + q) == p * p + 2 * (p * q) + q * q;
    assert (p - q) * (p - q) == p * p - 2 * (p * q) + q * q;
  }

  /** The quadratic built from n = p*q and phi = (p - 1)(q - 1) has exactly the roots p and q. */
  lemma RootsOfFactors(p: int, q: int, n: int, phi: int)
    requires p >= q && n == p * q && phi == (p - 1) * (q - 1)
    ensures SolveQuadraticEquation(phi, n) == Some((p, q))
  {
    FactorsArith(p, q, n, phi);
    var s := n - phi + 1;
    assert Isqrt(s * s - 4 * n) == p - q by {
      IsqrtOfSquare(p - q);
    }
    SolveQuadraticShape(phi, n);
    assert Rsh1(s + (p - q)) == p by {
      HalfOfEven(p);
    }
    assert Rsh1(s - (p - q)) == q by {
      HalfOfEven(q);
    }
  }

  /** The expansion of e/n has the two terms Convergents needs exactly when n does not divide e. */
  lemma ExpansionHasTwoTerms(e: int, n: int)
    requires 0 <= e && 0 < n
    ensures |Expand(Ratio(e, n))| >= 2 <==> e % n != 0
  {
    ExpandStep(e, n);
  }

  /**
   * The private exponent found by Wiener's attack: the denominator of the
   * first convergent of e/n, in index order, that Check accepts; None when
   * no convergent is accepted. The source indexes the second term of the
   * expansion unconditionally, so n must not divide e.
   */
  method FindKey(e: int, n: int) returns (key: Option<int>)
    requires 0 <= e && 0 < n && e % n != 0
    ensures var cf := ContinuedFraction(Expand(Ratio(e, n)));
            key.None? ==> forall i :: 0 <= i < |cf.terms| ==> Check(e, n, cf.GetConvergent(i)).None?
    ensures var cf := ContinuedFraction(Expand(Ratio(e, n)));
            (forall i :: 0 <= i < |cf.terms| ==> Check(e, n, cf.GetConvergent(i)).None?) ==> key.None?
    ensures var cf := ContinuedFraction(Expand(Ratio(e, n)));
            key.Some? ==>
              exists i :: 0 <= i < |cf.terms| && Check(e, n, cf.GetConvergent(i)).Some?
                          && cf.GetConvergent(i).den == key.value
                          && forall j :: 0 <= j < i ==> Check(e, n, cf.GetConvergent(j)).None?
  {
    var r := NewFraction(e, n);
    var cf := NewContinuedFraction(r);
    assert cf == ContinuedFraction(Expand(Ratio(e, n)));
    ExpansionHasTwoTerms(e, n);
    var convergents := cf.Convergents();
    for i := 0 to |convergents|
      invariant forall j :: 0 <= j < i ==> Check(e, n, convergents[j]).None?
    {
      var conv := convergents[i];
      if conv.num == 0 {
        assert Check(e, n, conv).None?;
        continue;
      }
      var probablePhi := e * conv.den - 1;
      var divisible := probablePhi % conv.num;
      if divisible == 0 {
        var phi := probablePhi / conv.num;
        var roots := SolveQuadraticEquation(phi, n);
        if roots.Some? && roots.value.0 * roots.value.1 == n {
          assert Check(e, n, cf.GetConvergent(i)).Some?;
          return Some(conv.den);
        }
      }
      assert Check(e, n, conv).None?;
    }
    return None;
  }
}
