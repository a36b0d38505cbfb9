/**
 * The arithmetic of Hastad's broadcast attack: splitting the intercepted
 * (ciphertext, modulus) pairs, and combining the ciphertexts with the Chinese
 * remainder theorem into one residue modulo the product of the moduli.
 */
module Hastad {
  import opened Integers

  function Min(a: int, b: int): int { if a <= b then a else b }

  /** The ciphertexts and the moduli of a sequence of (ciphertext, modulus) pairs, in order. */
  function Separate(data: seq<(int, int)>): (split: (seq<int>, seq<int>))
    ensures |split.0| == |data| && |split.1| == |data|
    ensures forall i :: 0 <= i < |data| ==> data[i] == (split.0[i], split.1[i])
  {
    (seq(|data|, i requires 0 <= i < |data| => data[i].0),
     seq(|data|, i requires 0 <= i < |data| => data[i].1))
  }

  /** Pairs up two sequences position by position, stopping at the shorter one. */
  function Zip(a: seq<int>, b: seq<int>): (pairs: seq<(int, int)>)
    ensures |pairs| == Min(|a|, |b|)
    ensures forall i :: 0 <= i < |pairs| ==> pairs[i] == (a[i], b[i])
  {
    seq(Min(|a|, |b|), i requires 0 <= i < Min(|a|, |b|) => (a[i], b[i]))
  }

  /** Separate loses nothing: zipping its two halves gives the pairs back. */
  lemma ZipSeparate(data: seq<(int, int)>)
    ensures var split := Separate(data);
            Zip(split.0, split.1) == data
  {
    var split := Separate(data);
    var pairs := Zip(split.0, split.1);
    assert |pairs| == |data|;
    forall i | 0 <= i < |data|
      ensures pairs[i] == data[i]
    {
    }
  }

  /** Separate undoes Zip on sequences of equal length. */
  lemma SeparateZip(a: seq<int>, b: seq<int>)
    requires |a| == |b|
    ensures Separate(Zip(a, b)) == (a, b)
  {
    var split := Separate(Zip(a, b));
    assert split.0 == a;
    assert split.1 == b;
  }

  /** The product of the moduli, folded from the left starting at 1. */
  function Product(ms: seq<int>): int
  {
    if |ms| == 0 then 1 else Product(ms[..|ms| - 1]) * ms[|ms| - 1]
  }

  /**
   * Positive moduli. The source's floor divisions need only non-zero ones;
   * the model takes positive ones, as RSA moduli are.
   */
  predicate PositiveModuli(ms: seq<int>) {
    forall i :: 0 <= i < |ms| ==> ms[i] > 0
  }

  /** A product of positive moduli is positive. */
  lemma {:induction false} ProductPositive(ms: seq<int>)
    requires PositiveModuli(ms)
    ensures Product(ms) > 0
    decreases |ms|
  {
    if |ms| > 0 {
      var init := ms[..|ms| - 1];
      assert PositiveModuli(init) by {
        assert forall j :: 0 <= j < |init| ==> init[j] == ms[j];
      }
      ProductPositive(init);
      assert Product(init) * ms[|ms| - 1] > 0 by {
        PositiveProduct(Product(init), ms[|ms| - 1]);
      }
    }
  }

  lemma PositiveProduct(a: int, b: int)
    requires a > 0 && b > 0
    ensures a * b > 0
  {
  }

  lemma {:induction false} ProductConcat(a: seq<int>, b: seq<int>)
    ensures Product(a + b) == Product(a) * Product(b)
    decreases |b|
  {
    if |b| == 0 {
      assert a + b == a;
    } else {
      var init, last := b[..|b| - 1], b[|b| - 1];
      assert (a + b)[..|a + b| - 1] == a + init;
      assert (a + b)[|a + b| - 1] == last;
      ProductConcat(a, init);
      assert Product(a + b) == (Product(a) * Product(init)) * last;
      assert Product(b) == Product(init) * last;
    }
  }

  /** The product of every modulus but the i-th. */
  function Cofactor(ms: seq<int>, i: int): int
    requires 0 <= i < |ms|
  {
    Product(ms[..i] + ms[i + 1..])
  }

  lemma MulRearrange(p: int, a: int, y: int, x: int, b: int, c: int)
    requires p == a * y && y == x * b && c == a * b
    ensures p == x * c
  {
  }

  /** The product of a one-element prefix and a tail. */
  lemma ProductCons(x: int, back: seq<int>)
    ensures Product([x] + back) == x * Product(back)
  {
    ProductConcat([x], back);
    assert [x][..0] == [];
  }

  lemma SplitAt(ms: seq<int>, i: int)
    requires 0 <= i < |ms|
    ensures ms == ms[..i] + ([ms[i]] + ms[i + 1..])
  {
  }

  /** Every modulus divides the product: Product(ms) = ms[i] * Cofactor(ms, i). */
  lemma ProductFactor(ms: seq<int>, i: int)
    requires 0 <= i < |ms|
    ensures Product(ms) == ms[i] * Cofactor(ms, i)
  {
    var front, back, x := ms[..i], ms[i + 1..], ms[i];
    SplitAt(ms, i);
    ProductCons(x, back);
    ProductConcat(front, [x] + back);
    ProductConcat(front, back);
    MulRearrange(Product(ms), Product(front), Product([x] + back), x, Product(back), Cofactor(ms, i));
  }

  /** With positive moduli, the floor quotient prod // m_i is exactly the cofactor. */
  lemma CofactorQuotient(ms: seq<int>, i: int)
    requires 0 <= i < |ms| && ms[i] > 0
    ensures Product(ms) / ms[i] == Cofactor(ms, i)
  {
    ProductFactor(ms, i);
    MulMod(ms[i], Cofactor(ms, i));
  }

  /** The cofactor of i is a multiple of every other modulus. */
  lemma CofactorDivisible(ms: seq<int>, i: int, j: int)
    requires 0 <= i < |ms| && 0 <= j < |ms| && i != j && ms[j] != 0
    ensures Cofactor(ms, i) % ms[j] == 0
  {
    var rest := ms[..i] + ms[i + 1..];
    var j' := if j < i then j else j - 1;
    assert rest[j'] == ms[j];
    ProductFactor(rest, j');
    MulMod(ms[j], Cofactor(rest, j'));
  }

  /** Pairwise coprime moduli, as the Chinese remainder theorem needs them. */
  predicate PairwiseCoprime(ms: seq<int>) {
    forall i, j :: 0 <= i < |ms| && 0 <= j < |ms| && i != j ==> Gcd(ms[i], ms[j]) == 1
  }

  lemma GcdOneLeft(m: int)
    ensures Gcd(1, m) == 1
  {
    DividesOne(Gcd(1, m));
  }

  /** A product of numbers each coprime to m is coprime to m. */
  lemma {:induction false} CoprimeProduct(ms: seq<int>, m: int)
    requires forall j :: 0 <= j < |ms| ==> Gcd(ms[j], m) == 1
    ensures Gcd(Product(ms), m) == 1
    decreases |ms|
  {
    if |ms| == 0 {
      GcdOneLeft(m);
    } else {
      var init := ms[..|ms| - 1];
      assert forall j :: 0 <= j < |init| ==> init[j] == ms[j];
      CoprimeProduct(init, m);
      CoprimeMul(Product(init), ms[|ms| - 1], m);
    }
  }

  /** Under pairwise coprimality the cofactor of i is invertible modulo the i-th modulus. */
  lemma CofactorCoprime(ms: seq<int>, i: int)
    requires 0 <= i < |ms| && PairwiseCoprime(ms)
    ensures Gcd(Cofactor(ms, i), ms[i]) == 1
  {
    var rest := ms[..i] + ms[i + 1..];
    forall j | 0 <= j < |rest|
      ensures Gcd(rest[j], ms[i]) == 1
    {
      if j < i {
        assert rest[j] == ms[j];
      } else {
        assert rest[j] == ms[j + 1];
      }
    }
    CoprimeProduct(rest, ms[i]);
  }

  /** The i-th summand v_i * inverse(p, m_i) * p, where p = prod // m_i. */
  function CrtTerm(ms: seq<int>, vs: seq<int>, i: int): int
    requires PositiveModuli(ms) && 0 <= i < |ms| && i < |vs|
  {
    var p := Product(ms) / ms[i];
    vs[i] * ModInverse(p, ms[i]) * p
  }

  /** The summands are taken over the zipped (modulus, value) pairs, as the source's loop does. */
  lemma CrtTermOverZip(ms: seq<int>, vs: seq<int>, i: int)
    requires PositiveModuli(ms) && 0 <= i < Min(|ms|, |vs|)
    ensures var pairs := Zip(ms, vs);
            i < |pairs|
            && CrtTerm(ms, vs, i)
               == pairs[i].1 * ModInverse(Product(ms) / pairs[i].0, pairs[i].0) * (Product(ms) / pairs[i].0)
  {
  }

  /** The sum of the first k summands. */
  function CrtSum(ms: seq<int>, vs: seq<int>, k: int): int
    requires PositiveModuli(ms) && 0 <= k <= Min(|ms|, |vs|)
  {
    if k == 0 then 0 else CrtSum(ms, vs, k - 1) + CrtTerm(ms, vs, k - 1)
  }

  /** A multiple of m stays one when multiplied by anything. */
  lemma MultipleTerm(v: int, inv: int, p: int, m: int)
    requires m != 0 && p % m == 0
    ensures (v * inv * p) % m == 0
  {
    assert v * inv * p == p * (v * inv) + 0 * 0;
    DivisibleLinear(p, 0, v * inv, 0, m);
  }

  /** When inv * p is 1 modulo m, v * inv * p is v modulo m. */
  lemma InverseTerm(v: int, inv: int, p: int, m: int)
    requires m > 0 && (inv * p) % m == 1 % m
    ensures (v * inv * p - v) % m == 0
  {
    CongruentIff(inv * p, 1, m);
    assert v * inv * p - v == (inv * p - 1) * v + 0 * 0;
    DivisibleLinear(inv * p - 1, 0, v, 0, m);
  }

  /** Summand i is a multiple of every other modulus, and congruent to v_i modulo m_i. */
  lemma TermResidue(ms: seq<int>, vs: seq<int>, i: int, j: int)
    requires PositiveModuli(ms) && PairwiseCoprime(ms)
    requires 0 <= i < Min(|ms|, |vs|) && 0 <= j < |ms|
    ensures i != j ==> CrtTerm(ms, vs, i) % ms[j] == 0
    ensures i == j ==> (CrtTerm(ms, vs, i) - vs[i]) % ms[i] == 0
  {
    var p := Product(ms) / ms[i];
    var inv := ModInverse(p, ms[i]);
    assert CrtTerm(ms, vs, i) == vs[i] * inv * p;
    CofactorQuotient(ms, i);
    if i != j {
      CofactorDivisible(ms, i, j);
      MultipleTerm(vs[i], inv, p, ms[j]);
    } else {
      CofactorCoprime(ms, i);
      InverseTerm(vs[i], inv, p, ms[i]);
    }
  }

  /** A sum of two multiples of m is a multiple of m. */
  lemma SumOfMultiples(a: int, b: int, m: int)
    requires m != 0 && a % m == 0 && b % m == 0
    ensures (a + b) % m == 0
  {
    DivisibleLinear(a, b, 1, 1, m);
    assert a * 1 + b * 1 == a + b;
  }

  /**
   * The partial sum over the first k summands is congruent to v_j modulo m_j
   * once j < k, and to 0 before, given the residues of the summands.
   */
  lemma {:induction false} SumResidue(ms: seq<int>, vs: seq<int>, j: int, k: int)
    requires PositiveModuli(ms) && 0 <= j < |ms| && 0 <= k <= Min(|ms|, |vs|)
    requires forall i :: 0 <= i < k && i != j ==> CrtTerm(ms, vs, i) % ms[j] == 0
    requires j < k ==> (CrtTerm(ms, vs, j) - vs[j]) % ms[j] == 0
    ensures j < k ==> (CrtSum(ms, vs, k) - vs[j]) % ms[j] == 0
    ensures k <= j ==> CrtSum(ms, vs, k) % ms[j] == 0
    decreases k
  {
    if k == 0 {
      MulMod(ms[j], 0);
    } else {
      SumResidue(ms, vs, j, k - 1);
      var m := ms[j];
      var sum, term := CrtSum(ms, vs, k - 1), CrtTerm(ms, vs, k - 1);
      assert CrtSum(ms, vs, k) == sum + term;
      if j < k - 1 {
        SumOfMultiples(sum - vs[j], term, m);
        assert (sum - vs[j]) + term == CrtSum(ms, vs, k) - vs[j];
      } else if j == k - 1 {
        SumOfMultiples(sum, term - vs[j], m);
        assert sum + (term - vs[j]) == CrtSum(ms, vs, k) - vs[j];
      } else {
        SumOfMultiples(sum, term, m);
      }
    }
  }

  /** Reducing modulo a multiple of m keeps the residue modulo m. */
  lemma ReduceModMultiple(s: int, m: int, c: int)
    requires m > 0 && c > 0
    ensures (s % (m * c)) % m == s % m
  {
    assert s % (m * c) == s + m * (-(c * (s / (m * c)))) by {
      assert s == (m * c) * (s / (m * c)) + s % (m * c);
    }
    ModAddMultiple(s, m, -(c * (s / (m * c))));
  }

  /** The cofactor of positive moduli is positive. */
  lemma CofactorPositive(ms: seq<int>, i: int)
    requires PositiveModuli(ms) && 0 <= i < |ms|
    ensures Cofactor(ms, i) > 0
  {
    var rest := ms[..i] + ms[i + 1..];
    assert forall t :: 0 <= t < |rest| ==> rest[t] > 0;
    ProductPositive(rest);
  }

  /** What CRT returns: the sum over the zipped pairs, reduced modulo the product of all the moduli. */
  function CrtValue(ms: seq<int>, vs: seq<int>): (x: int)
    requires PositiveModuli(ms)
    ensures 0 <= x < Product(ms)
  {
    ProductPositive(ms);
    CrtSum(ms, vs, Min(|ms|, |vs|)) % Product(ms)
  }

  /** One modulus of the Chinese remainder theorem. */
  lemma CrtResidue(ms: seq<int>, vs: seq<int>, j: int)
    requires PositiveModuli(ms) && PairwiseCoprime(ms)
    requires 0 <= j < Min(|ms|, |vs|)
    ensures CrtValue(ms, vs) % ms[j] == vs[j] % ms[j]
  {
    var n := Min(|ms|, |vs|);
    var s := CrtSum(ms, vs, n);
    forall i | 0 <= i < n && i != j
      ensures CrtTerm(ms, vs, i) % ms[j] == 0
    {
      TermResidue(ms, vs, i, j);
    }
    TermResidue(ms, vs, j, j);
    SumResidue(ms, vs, j, n);
    assert (s - vs[j]) % ms[j] == 0;
    CongruentIff(s, vs[j], ms[j]);
    ProductFactor(ms, j);
    CofactorPositive(ms, j);
    ReduceModMultiple(s, ms[j], Cofactor(ms, j));
  }

  /**
   * The Chinese remainder theorem for the combination the source computes:
   * for pairwise coprime positive moduli, the result is congruent to every
   * paired value modulo its modulus.
   */
  lemma CrtResidues(ms: seq<int>, vs: seq<int>)
    requires PositiveModuli(ms) && PairwiseCoprime(ms)
    ensures forall j :: 0 <= j < Min(|ms|, |vs|) ==> CrtValue(ms, vs) % ms[j] == vs[j] % ms[j]
  {
    forall j | 0 <= j < Min(|ms|, |vs|)
      ensures CrtValue(ms, vs) % ms[j] == vs[j] % ms[j]
    {
      CrtResidue(ms, vs, j);
    }
  }

  /**
   * CRT(modules, values): the sum over the zipped pairs of
   * v_i * inverse(p_i, m_i) * p_i with p_i = prod // m_i, reduced modulo the
   * product of all the moduli.
   */
  method CRT(modules: seq<int>, values: seq<int>) returns (x: int)
    requires PositiveModuli(modules)
    ensures x == CrtValue(modules, values)
    ensures 0 <= x < Product(modules)
    ensures PairwiseCoprime(modules) ==>
              forall i :: 0 <= i < |modules| && i < |values| ==> x % modules[i] == values[i] % modules[i]
  {
    var sum := 0;
    var prod := Product(modules);
    ProductPositive(modules);
    var pairs := Min(|modules|, |values|);
    for i := 0 to pairs
      invariant sum == CrtSum(modules, values, i)
    {
      var p := prod / modules[i];
      sum := sum + values[i] * ModInverse(p, modules[i]) * p;
    }
    x := sum % prod;
    if PairwiseCoprime(modules) {
      CrtResidues(modules, values);
    }
  }
}
