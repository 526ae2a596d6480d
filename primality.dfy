/** The number-theory helpers of the factoriser: Euclid's greatest common divisor, the
    6k ± 1 trial-division primality test, and the three-way Gaussian-primality test. */
module Primality {
  import opened Arith
  import opened Gaussian

  /** A rational prime: greater than 1 and with no divisor strictly between 1 and itself. */
  predicate Prime(n: int)
  {
    n > 1 && forall d :: 1 < d < n ==> n % d != 0
  }

  /** No d with 1 < d < k divides n. */
  predicate NoDivisorBelow(n: int, k: int)
  {
    forall d :: 1 < d < k ==> n % d != 0
  }

  // ---------------------------------------------------------------------------
  // Trial division
  // ---------------------------------------------------------------------------

  /** If d divides n with 1 < d < n, so does the cofactor n / d, which also lies
      strictly between 1 and n. */
  lemma Cofactor(n: int, d: int)
    requires 1 < d < n && Divides(d, n)
    ensures 1 < n / d < n && Divides(n / d, n) && d * (n / d) == n
  {
    var e := n / d;
    assert n == d * e;
    ProductBounds(d, e);
    ProductBounds(e, d);
    QuotientSmaller(d, n);
    FactorDivides(e, d);
  }

  /** Trial division only has to look below the square root: a number above 1 with no
      divisor d, 1 < d < k, where k² > n, is prime. */
  lemma PrimeBySmallDivisors(n: int, k: int)
    requires n > 1 && k >= 0 && k * k > n && NoDivisorBelow(n, k)
    ensures Prime(n)
  {
    forall d | 1 < d < n
      ensures n % d != 0
    {
      if d >= k && n % d == 0 {
        Cofactor(n, d);
        if n / d >= k {
          ProductAtLeast(d, n / d, k);
        }
      }
    }
  }

  /** Primality is plain trial division up to the square root: n > 1 is prime exactly
      when no d ≥ 2 with d² ≤ n divides it. */
  lemma PrimeIffNoSmallDivisor(n: int)
    requires n > 1
    ensures Prime(n) <==> forall d :: 2 <= d && d * d <= n ==> n % d != 0
  {
    if Prime(n) {
      forall d | 2 <= d && d * d <= n
        ensures n % d != 0
      {
        ProductBounds(d, d - 1);
        assert d * d == d + d * (d - 1);
      }
    }
    if forall d :: 2 <= d && d * d <= n ==> n % d != 0 {
      var k := ISqrt(n) + 1;
      ISqrtBounds(n);
      forall d | 1 < d < k
        ensures n % d != 0
      {
        SquareMonotone(d, k - 1);
      }
      PrimeBySmallDivisors(n, k);
    }
  }

  /** Two factors, both at least k >= 0, have a product at least k². */
  lemma ProductAtLeast(d: int, e: int, k: int)
    requires d >= k >= 0 && e >= k
    ensures d * e >= k * k
  {
    ProductBounds(d - k, e);
    ProductBounds(k, e - k);
    assert d * e == (d - k) * e + k * (e - k) + k * k;
  }

  /** A number with a divisor strictly between 1 and itself is not prime. */
  lemma CompositeNotPrime(n: int, d: int)
    requires 1 < d < n && n % d == 0
    ensures !Prime(n)
  {
  }

  /** Once 2 and 3 are ruled out, trial division may skip every candidate that is not
      of the form 6k ± 1: such a candidate is a multiple of 2 or of 3. */
  lemma SkipNonCandidate(n: int, d: int)
    requires d > 1 && n % 2 != 0 && n % 3 != 0
    requires d % 6 != 1 && d % 6 != 5
    ensures n % d != 0
  {
    if n % d == 0 {
      var q, r := d / 6, d % 6;
      assert d == 6 * q + r;
      if r == 0 || r == 2 || r == 4 {
        MultipleDivides(3 * q + r / 2, 2);
        assert d == (3 * q + r / 2) * 2;
        DividesTransitive(2, d, n);
      } else {
        assert r == 3;
        MultipleDivides(2 * q + 1, 3);
        assert d == (2 * q + 1) * 3;
        DividesTransitive(3, d, n);
      }
    }
  }

  /** The source's isPrime: false up to 1, true for 2 and 3, false for multiples of 2
      or 3, and otherwise trial division by 6k − 1 and 6k + 1 while the candidate's
      square is at most n. */
  method IsPrime(n: int) returns (prime: bool)
    ensures prime == Prime(n)
  {
    if n <= 1 {
      return false;
    }
    if n <= 3 {
      return true;
    }
    if n % 2 == 0 || n % 3 == 0 {
      CompositeNotPrime(n, if n % 2 == 0 then 2 else 3);
      return false;
    }
    var i := 5;
    FirstCandidate(n);
    while i * i <= n
      invariant i >= 5 && i % 6 == 5
      invariant NoDivisorBelow(n, i)
    {
      if n % i == 0 || n % (i + 2) == 0 {
        CandidatesBelow(n, i);
        if n % i == 0 {
          CompositeNotPrime(n, i);
        } else {
          CompositeNotPrime(n, i + 2);
        }
        return false;
      }
      CandidateStep(n, i);
      i := i + 6;
    }
    PrimeBySmallDivisors(n, i);
    return true;
  }

  /** With 2 and 3 ruled out, nothing below 5 divides n. */
  lemma FirstCandidate(n: int)
    requires n % 2 != 0 && n % 3 != 0
    ensures NoDivisorBelow(n, 5)
  {
    if n % 4 == 0 {
      MultipleDivides(2, 2);
      DividesTransitive(2, 4, n);
    }
  }

  /** While i² ≤ n, both candidates i and i + 2 lie below n. */
  lemma CandidatesBelow(n: int, i: int)
    requires i >= 5 && i * i <= n
    ensures i + 2 < n
  {
    ProductBounds(i, i - 5);
    assert i * (i - 5) == i * i - 5 * i;
  }

  /** One round of the 6k ± 1 loop: when neither i = 6k − 1 nor i + 2 = 6k + 1 divides
      n, nothing below i + 6 does. */
  lemma CandidateStep(n: int, i: int)
    requires n % 2 != 0 && n % 3 != 0
    requires i >= 5 && i % 6 == 5 && NoDivisorBelow(n, i)
    requires n % i != 0 && n % (i + 2) != 0
    ensures NoDivisorBelow(n, i + 6) && (i + 6) % 6 == 5
  {
    forall d | 1 < d < i + 6
      ensures n % d != 0
    {
      if i < d && d != i + 2 {
        SkipNonCandidate(n, d);
      }
    }
  }

  // ---------------------------------------------------------------------------
  // Gaussian primality
  // ---------------------------------------------------------------------------

  /** The source's isGaussianPrime: on the real axis, |re| must be a rational prime
      congruent to 3 mod 4; on the imaginary axis the same test on |im|; off the axes
      the norm must be a rational prime. */
  predicate IsGaussianPrime(g: GaussianInteger)
    ensures IsGaussianPrime(g) ==> g.Norm() > 1 && !IsUnit(g)
  {
    if g.im == 0 then
      AxisNorm(g, g.re);
      Prime(Abs(g.re)) && Abs(g.re) % 4 == 3
    else if g.re == 0 then
      AxisNorm(g, g.im);
      Prime(Abs(g.im)) && Abs(g.im) % 4 == 3
    else Prime(g.Norm())
  }

  /** On an axis the norm is the square of the one nonzero part. */
  lemma AxisNorm(g: GaussianInteger, x: int)
    requires (x == g.re && g.im == 0) || (x == g.im && g.re == 0)
    ensures Abs(x) > 1 ==> g.Norm() > 1
  {
    assert g.Norm() == x * x;
    ProductBounds(Abs(x), Abs(x));
    assert x * x == Abs(x) * Abs(x);
  }

  /** The test is closed under conjugation. */
  lemma GaussianPrimeConjugate(g: GaussianInteger)
    ensures IsGaussianPrime(g) <==> IsGaussianPrime(g.Conjugate())
  {
  }

  /** The test is closed under multiplication by the unit i, so it accepts all four
      associates of an accepted element or none. */
  lemma GaussianPrimeAssociate(g: GaussianInteger)
    ensures IsGaussianPrime(g) <==> IsGaussianPrime(Mul(I, g))
  {
    var h := Mul(I, g);
    assert h == GaussianInteger(-g.im, g.re);
    assert h.Norm() == g.Norm();
  }

  // ---------------------------------------------------------------------------
  // Euclid's algorithm
  // ---------------------------------------------------------------------------

  /** JavaScript's integer quotient: truncated toward zero. */
  function JsQuot(a: int, b: int): int
    requires b != 0
  {
    var q := Abs(a) / Abs(b);
    if (a < 0) == (b < 0) then q else -q
  }

  /** JavaScript's `%`: a − b·trunc(a / b), so the remainder takes the sign of the
      dividend, unlike Dafny's Euclidean `%`. */
  function JsRem(a: int, b: int): (r: int)
    requires b != 0
    ensures Abs(r) < Abs(b)
    ensures r != 0 ==> (r < 0 <==> a < 0)
  {
    var q, m := Abs(a) / Abs(b), Abs(a) % Abs(b);
    assert Abs(a) == Abs(b) * q + m;
    assert b * JsQuot(a, b) == (if a < 0 then -(Abs(b) * q) else Abs(b) * q);
    a - b * JsQuot(a, b)
  }

  /** d divides every element of the pair (x, y). */
  predicate CommonDivisor(d: int, x: int, y: int)
    requires d > 0
  {
    Divides(d, x) && Divides(d, y)
  }

  /** A common divisor of b and a − bq divides a and conversely. */
  lemma CommonDivisorStep(d: int, a: int, b: int, q: int)
    requires d > 0
    ensures CommonDivisor(d, a, b) <==> CommonDivisor(d, b, a - b * q)
  {
    if Divides(d, b) {
      var k := b / d;
      assert b == d * k;
      assert b * q == d * (k * q);
      if Divides(d, a) {
        var j := a / d;
        assert a - b * q == (j - k * q) * d;
        MultipleDivides(j - k * q, d);
      }
      if Divides(d, a - b * q) {
        var j := (a - b * q) / d;
        assert a == (j + k * q) * d;
        MultipleDivides(j + k * q, d);
      }
    }
  }

  /** The pairs (a, b) and (a0, b0) have the same positive common divisors. */
  ghost predicate SameDivisors(a: int, b: int, a0: int, b0: int)
  {
    forall d :: d > 0 ==> (CommonDivisor(d, a, b) <==> CommonDivisor(d, a0, b0))
  }

  /** One round of Euclid's loop, (a, b) to (b, a % b) with JavaScript's remainder, keeps
      the common divisors. */
  lemma EuclidStep(a: int, b: int, a0: int, b0: int)
    requires b != 0 && SameDivisors(a, b, a0, b0)
    ensures SameDivisors(b, JsRem(a, b), a0, b0)
  {
    forall d | d > 0
      ensures CommonDivisor(d, a, b) <==> CommonDivisor(d, b, JsRem(a, b))
    {
      CommonDivisorStep(d, a, b, JsQuot(a, b));
    }
  }

  /** When the loop stops at (a, 0), |a| is the greatest common divisor of (a0, b0) in
      the divisibility order. */
  lemma EuclidEnd(a: int, a0: int, b0: int)
    requires SameDivisors(a, 0, a0, b0)
    ensures Abs(a) > 0 ==> CommonDivisor(Abs(a), a0, b0)
    ensures Abs(a) > 0 ==> forall d :: d > 0 && CommonDivisor(d, a0, b0) ==> Divides(d, Abs(a))
  {
    var g := Abs(a);
    forall d | d > 0
      ensures CommonDivisor(d, a0, b0) <==> Divides(d, g)
    {
      DividesAbs(d, a);
      assert CommonDivisor(d, a, 0) <==> Divides(d, a);
    }
    if g > 0 {
      DividesSelf(g);
    }
  }

  /** d divides a exactly when it divides |a|. */
  lemma DividesAbs(d: int, a: int)
    requires d > 0
    ensures Divides(d, a) <==> Divides(d, Abs(a))
  {
    if a < 0 {
      if Divides(d, a) {
        MultipleDivides(-(a / d), d);
      }
      if Divides(d, -a) {
        MultipleDivides(-(-a / d), d);
      }
    }
  }

  /** A positive number divides itself. */
  lemma DividesSelf(g: int)
    requires g > 0
    ensures Divides(g, g)
  {
    MultipleDivides(1, g);
  }

  /** The source's gcd: Euclid's loop with JavaScript's remainder, returning the absolute
      value of the last non-zero entry. The result is the greatest common divisor in the
      divisibility order: it divides both inputs, and every common divisor divides it;
      it is 0 only for gcd(0, 0). */
  method Gcd(a0: int, b0: int) returns (g: int)
    ensures g >= 0
    ensures g == 0 <==> a0 == 0 && b0 == 0
    ensures g > 0 ==> CommonDivisor(g, a0, b0)
    ensures g > 0 ==> forall d :: d > 0 && CommonDivisor(d, a0, b0) ==> Divides(d, g)
  {
    var a, b := a0, b0;
    while b != 0
      invariant a == 0 && b == 0 <==> a0 == 0 && b0 == 0
      invariant SameDivisors(a, b, a0, b0)
      decreases Abs(b)
    {
      var temp := b;
      EuclidStep(a, b, a0, b0);
      b := JsRem(a, b);
      a := temp;
    }
    EuclidEnd(a, a0, b0);
    g := Abs(a);
  }
}
