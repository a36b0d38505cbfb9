/**
 * Exact integer primitives that the fraction type, Wiener's attack and the
 * CRT step rely on. Each library routine the source calls is specified here by
 * what it computes: big.Int's truncated quotient (Quo), its non-negative
 * greatest common divisor (GCD), its floor square root (Sqrt), its arithmetic
 * right shift by one (Rsh), and the modular inverse of Crypto.Util.number.
 * Dafny's own `/` and `%` are Euclidean, which is what big.Int's Div and Mod
 * compute and what Python's `//` and `%` compute for a positive divisor.
 */
module Integers {

  function Abs(x: int): nat { if x < 0 then -x else x }

  lemma AbsMul(a: int, b: int)
    ensures Abs(a * b) == Abs(a) * Abs(b)
  {
    if a < 0 && b < 0 {
      assert a * b == (-a) * (-b);
    } else if a < 0 {
      assert -(a * b) == (-a) * b;
    } else if b < 0 {
      assert -(a * b) == a * (-b);
    }
  }

  // ---------------------------------------------------------------------------
  // Euclidean division facts
  // ---------------------------------------------------------------------------

  /** A non-zero multiple of y is at least as large as y in magnitude. */
  lemma MulMagnitude(y: int, t: int)
    requires t != 0
    ensures Abs(y * t) >= Abs(y)
  {
    AbsMul(y, t);
    var ay, at := Abs(y), Abs(t);
    assert ay * at == ay * (at - 1) + ay;
    assert ay * (at - 1) >= 0;
  }

  /** Euclidean division is unique: any quotient and remainder in range are x / y and x % y. */
  lemma DivModUnique(x: int, y: int, q: int, r: int)
    requires y != 0 && x == y * q + r && 0 <= r < Abs(y)
    ensures x / y == q && x % y == r
  {
    var q0, r0 := x / y, x % y;
    assert x == y * q0 + r0;
    assert y * (q - q0) == r0 - r by {
      assert y * q - y * q0 == y * (q - q0);
    }
    if q != q0 {
      MulMagnitude(y, q - q0);
      assert false;
    }
  }

  lemma MulMod(c: int, k: int)
    requires c != 0
    ensures (c * k) % c == 0 && (c * k) / c == k
  {
    DivModUnique(c * k, c, k, 0);
  }

  lemma ModAddMultiple(a: int, m: int, k: int)
    requires m != 0
    ensures (a + m * k) % m == a % m
  {
    assert a == m * (a / m) + a % m;
    assert a + m * k == m * (a / m + k) + a % m by {
      assert m * (a / m + k) == m * (a / m) + m * k;
    }
    DivModUnique(a + m * k, m, a / m + k, a % m);
  }

  /** A linear combination of multiples of c is a multiple of c. */
  lemma DivisibleLinear(u: int, v: int, x: int, y: int, c: int)
    requires c != 0 && u % c == 0 && v % c == 0
    ensures (u * x + v * y) % c == 0
  {
    var a, b := u / c, v / c;
    assert u == c * a && v == c * b;
    assert u * x + v * y == c * (a * x + b * y) by {
      assert u * x == c * (a * x);
      assert v * y == c * (b * y);
    }
    MulMod(c, a * x + b * y);
  }

  /** Congruence modulo m is divisibility of the difference. */
  lemma CongruentIff(a: int, b: int, m: int)
    requires m != 0
    ensures (a - b) % m == 0 <==> a % m == b % m
  {
    if a % m == b % m {
      assert a == m * (a / m) + a % m;
      assert b == m * (b / m) + b % m;
      assert a - b == m * (a / m - b / m) by {
        assert m * (a / m - b / m) == m * (a / m) - m * (b / m);
      }
      MulMod(m, a / m - b / m);
    }
    if (a - b) % m == 0 {
      var w := (a - b) / m;
      assert a - b == m * w;
      ModAddMultiple(b, m, w);
    }
  }

  /** A positive number that divides 1 is 1. */
  lemma DividesOne(g: int)
    requires g > 0 && 1 % g == 0
    ensures g == 1
  {
    if g > 1 {
      DivModUnique(1, g, 0, 1);
    }
  }

  // ---------------------------------------------------------------------------
  // Truncated division: big.Int Quo
  // ---------------------------------------------------------------------------

  /**
   * The quotient rounded toward zero. Its meaning: the remainder a - q*b is
   * smaller than b in magnitude and is zero or has the sign of a; these two
   * facts fix q uniquely.
   */
  function Quo(a: int, b: int): (q: int)
    requires b != 0
    ensures Abs(a - q * b) < Abs(b)
    ensures a - q * b == 0 || (a - q * b < 0 <==> a < 0)
  {
    var aa, ab := Abs(a), Abs(b);
    assert aa == ab * (aa / ab) + aa % ab;
    var q := if (a < 0) == (b < 0) then aa / ab else -(aa / ab);
    assert a - q * b == (if a < 0 then -(aa % ab) else aa % ab) by {
      if a < 0 && b < 0 {
        assert q * b == -(q * ab);
      } else if a < 0 {
        assert q * b == -((aa / ab) * ab);
      } else if b < 0 {
        assert q * b == (aa / ab) * ab;
      }
    }
    q
  }

  /** When the divisor divides exactly, the truncated quotient is exact. */
  lemma QuoExact(a: int, g: int)
    requires g > 0 && Abs(a) % g == 0
    ensures Quo(a, g) * g == a
  {
    MulMod(g, Abs(a) / g);
    assert Abs(a) == g * (Abs(a) / g);
    if a < 0 {
      assert Quo(a, g) == -(Abs(a) / g);
    }
  }

  /** For a non-negative dividend and a positive divisor, Quo is Euclidean division. */
  lemma QuoNonNegative(a: int, b: int)
    requires 0 <= a && 0 < b
    ensures Quo(a, b) == a / b && a - Quo(a, b) * b == a % b
  {
  }

  // ---------------------------------------------------------------------------
  // Greatest common divisor: big.Int GCD
  // ---------------------------------------------------------------------------

  /** Euclid's algorithm on naturals. */
  function NatGcd(x: nat, y: nat): (g: nat)
    ensures g == 0 <==> x == 0 && y == 0
    ensures g > 0 ==> x % g == 0 && y % g == 0
    decreases y
  {
    if y == 0 then x
    else
      var g := NatGcd(y, x % y);
      assert x == y * (x / y) + (x % y) * 1;
      DivisibleLinear(y, x % y, x / y, 1, g);
      g
  }

  /**
   * big.Int GCD with no cofactors: the greatest common divisor of |a| and |b|,
   * never negative, zero only for GCD(0, 0).
   */
  function Gcd(a: int, b: int): (g: nat)
    ensures g == 0 <==> a == 0 && b == 0
    ensures g > 0 ==> Abs(a) % g == 0 && Abs(b) % g == 0
  {
    NatGcd(Abs(a), Abs(b))
  }

  /** Scaling both arguments scales the gcd. */
  lemma {:induction false} NatGcdScale(k: nat, x: nat, y: nat)
    requires k > 0
    ensures NatGcd(k * x, k * y) == k * NatGcd(x, y)
    decreases y
  {
    if y == 0 {
      assert k * y == 0;
    } else {
      assert k * y != 0 by { MulMagnitude(k, y); }
      assert k * x == (k * y) * (x / y) + k * (x % y) by {
        assert x == y * (x / y) + x % y;
        assert k * x == k * (y * (x / y)) + k * (x % y);
      }
      assert k * (x % y) < k * y by {
        assert k * y - k * (x % y) == k * (y - x % y);
        assert k * (y - x % y) >= k by { MulMagnitude(k, y - x % y); }
      }
      DivModUnique(k * x, k * y, x / y, k * (x % y));
      NatGcdScale(k, y, x % y);
    }
  }

  lemma GcdScale(k: int, a: int, b: int)
    requires k != 0
    ensures Gcd(k * a, k * b) == Abs(k) * Gcd(a, b)
  {
    AbsMul(k, a);
    AbsMul(k, b);
    NatGcdScale(Abs(k), Abs(a), Abs(b));
  }

  lemma ExtGcdStep(x: int, y: int, q: int, r: int, a: int, b: int)
    requires x == y * q + r
    ensures x * b + y * (a - q * b) == y * a + r * b
  {
    assert x * b == (y * q) * b + r * b;
    assert y * (a - q * b) == y * a - y * (q * b);
    assert (y * q) * b == y * (q * b);
  }

  /** Extended Euclid: Bezout coefficients for NatGcd. */
  function ExtGcd(x: nat, y: nat): (c: (int, int))
    ensures x * c.0 + y * c.1 == NatGcd(x, y)
    decreases y
  {
    if y == 0 then (1, 0)
    else
      var c := ExtGcd(y, x % y);
      ExtGcdStep(x, y, x / y, x % y, c.0, c.1);
      (c.1, c.0 - (x / y) * c.1)
  }

  /** Bezout's identity over the integers: some a*x + b*y equals Gcd(a, b). */
  lemma Bezout(a: int, b: int) returns (x: int, y: int)
    ensures a * x + b * y == Gcd(a, b)
  {
    var c := ExtGcd(Abs(a), Abs(b));
    x := if a < 0 then -c.0 else c.0;
    y := if b < 0 then -c.1 else c.1;
    SignedFactor(a, c.0);
    SignedFactor(b, c.1);
  }

  lemma SignedFactor(a: int, c: int)
    ensures a * (if a < 0 then -c else c) == Abs(a) * c
  {
    if a < 0 {
      assert a * -c == (-a) * c;
    }
  }

  /** A number whose magnitude is a multiple of g is itself a multiple of g. */
  lemma DivisibleAbs(x: int, g: int)
    requires g > 0 && Abs(x) % g == 0
    ensures x % g == 0
  {
    if x < 0 {
      DivisibleLinear(Abs(x), 0, -1, 0, g);
      assert Abs(x) * -1 + 0 * 0 == x;
    }
  }

  lemma BezoutProduct(a: int, b: int, m: int, x1: int, y1: int, x2: int, y2: int)
    requires a * x1 + m * y1 == 1 && b * x2 + m * y2 == 1
    ensures (a * b) * (x1 * x2) + m * (y1 * (b * x2) + y2) == 1
  {
    var u, v := a * x1, b * x2;
    assert (a * b) * (x1 * x2) == u * v;
    assert u * v == (1 - m * y1) * v;
    assert (1 - m * y1) * v == v - m * (y1 * v);
    assert m * (y1 * v + y2) == m * (y1 * v) + m * y2;
  }

  /** Numbers with an integer combination equal to 1 are coprime. */
  lemma CoprimeOfCombination(a: int, b: int, x: int, y: int)
    requires a * x + b * y == 1
    ensures Gcd(a, b) == 1
  {
    var g := Gcd(a, b);
    if g == 0 {
      assert false;
    }
    DivisibleAbs(a, g);
    DivisibleAbs(b, g);
    DivisibleLinear(a, b, x, y, g);
    DividesOne(g);
  }

  /** A product of two numbers coprime to m is coprime to m. */
  lemma CoprimeMul(a: int, b: int, m: int)
    requires Gcd(a, m) == 1 && Gcd(b, m) == 1
    ensures Gcd(a * b, m) == 1
  {
    var x1, y1 := Bezout(a, m);
    var x2, y2 := Bezout(b, m);
    BezoutProduct(a, b, m, x1, y1, x2, y2);
    var g := Gcd(a * b, m);
    if g == 0 {
      assert m == 0 && a * b == 0;
      assert Gcd(a, 0) == Abs(a) && Gcd(b, 0) == Abs(b);
      AbsMul(a, b);
      assert false;
    }
    DivisibleAbs(a * b, g);
    DivisibleAbs(m, g);
    DivisibleLinear(a * b, m, x1 * x2, y1 * (b * x2) + y2, g);
    DividesOne(g);
  }

  // ---------------------------------------------------------------------------
  // Modular inverse: Crypto.Util.number.inverse
  // ---------------------------------------------------------------------------

  lemma InverseStep(u: int, m: int, x: int, y: int, g: int)
    requires m > 0 && u * x + m * y == g
    ensures ((x % m) * u) % m == g % m
  {
    var r, q := x % m, x / m;
    assert x == m * q + r;
    assert r * u == g + m * (-(y + u * q)) by {
      assert r * u == x * u - (m * q) * u;
      assert (m * q) * u == m * (u * q);
      assert m * (-(y + u * q)) == -(m * y) - m * (u * q);
    }
    ModAddMultiple(g, m, -(y + u * q));
  }

  /**
   * The inverse of u modulo m, in [0, m). When u and m are coprime the
   * product with u is 1 modulo m (for m = 1 everything is 0 modulo m).
   */
  function ModInverse(u: int, m: int): (r: int)
    requires m > 0
    ensures 0 <= r < m
    ensures Gcd(u, m) == 1 ==> (r * u) % m == 1 % m
  {
    var c := ExtGcd(Abs(u), m);
    var x := if u < 0 then -c.0 else c.0;
    assert u * x == Abs(u) * c.0;
    InverseStep(u, m, x, c.1, Gcd(u, m));
    x % m
  }

  // ---------------------------------------------------------------------------
  // Floor square root (big.Int Sqrt) and floor halving (big.Int Rsh by 1)
  // ---------------------------------------------------------------------------

  lemma SquareMonotone(a: nat, b: nat)
    requires a <= b
    ensures a * a <= b * b
  {
    assert b * b - a * a == (b - a) * (b + a);
  }

  /** Doubling the floor root of x / 4 brackets the root of x. */
  lemma IsqrtStep(x: int, r0: int)
    requires x >= 0 && r0 >= 0 && r0 * r0 <= x / 4 < (r0 + 1) * (r0 + 1)
    ensures (2 * r0) * (2 * r0) <= x < (2 * r0 + 2) * (2 * r0 + 2)
  {
    var q := x / 4;
    assert 4 * q <= x < 4 * q + 4;
    assert (2 * r0) * (2 * r0) == 4 * (r0 * r0);
    assert (2 * r0 + 2) * (2 * r0 + 2) == 4 * ((r0 + 1) * (r0 + 1));
  }

  /** The largest r whose square does not exceed x. */
  function Isqrt(x: nat): (r: nat)
    ensures r * r <= x < (r + 1) * (r + 1)
    decreases x
  {
    if x < 4 then (if x == 0 then 0 else 1)
    else
      var r0 := Isqrt(x / 4);
      IsqrtStep(x, r0);
      var h := 2 * r0;
      if (h + 1) * (h + 1) <= x then h + 1 else h
  }

  /** The floor square root of a perfect square is its root. */
  lemma IsqrtOfSquare(t: nat)
    ensures Isqrt(t * t) == t
  {
    var r := Isqrt(t * t);
    if r < t {
      SquareMonotone(r + 1, t);
    } else if r > t {
      assert (t + 1) * (t + 1) == t * t + 2 * t + 1;
      SquareMonotone(t + 1, r);
    }
  }

  /** Arithmetic shift right by one: halving rounded toward minus infinity. */
  function Rsh1(x: int): (r: int)
    ensures 2 * r <= x < 2 * r + 2
  {
    x / 2
  }
}
