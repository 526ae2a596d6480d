/** The factoriser's main routine, before formatting: the list of Gaussian factors it
    records for an ordinary integer n ≠ 0. The loops of the source are the method
    CollectFactors; RawFactors is an independent description of the same list (sign
    units, then each rational prime of |n| in ascending order, split as ℤ[i] splits it),
    and the lemmas below prove what the list means: it multiplies back to n, and every
    entry but the sign units passes the Gaussian-primality test. */
module Factorization {
  import opened Arith
  import opened Gaussian
  import opened Primality
  import opened TwoSquares
  import opened Wrappers

  // ---------------------------------------------------------------------------
  // The ascending rational prime factorisation
  // ---------------------------------------------------------------------------

  /** The least divisor of m that is at least d. */
  function SmallestFactorFrom(m: nat, d: nat): (r: nat)
    requires 2 <= d <= m
    ensures d <= r <= m && Divides(r, m)
    decreases m - d
  {
    if m % d == 0 then d else SmallestFactorFrom(m, d + 1)
  }

  /** The least divisor of m above 1. */
  function SmallestFactor(m: nat): (r: nat)
    requires m >= 2
    ensures 2 <= r <= m && Divides(r, m)
  {
    SmallestFactorFrom(m, 2)
  }

  /** The rational prime factors of m ≥ 1, in ascending order, with repetition. */
  function PrimeFactors(m: nat): seq<nat>
    decreases m
  {
    if m <= 1 then []
    else
      var q := SmallestFactor(m);
      QuotientSmaller(q, m);
      [q] + PrimeFactors(m / q)
  }

  /** The search starting at a finds its least divisor at p when nothing from a up to p
      divides m. */
  lemma {:induction false} SmallestFactorFromIs(m: nat, d: nat, p: nat)
    requires 2 <= d <= p <= m && Divides(p, m)
    requires forall e :: d <= e < p ==> m % e != 0
    ensures SmallestFactorFrom(m, d) == p
    decreases p - d
  {
    if d < p {
      SmallestFactorFromIs(m, d + 1, p);
    }
  }

  /** A divisor p ≥ 2 of m with no divisor of m below it is m's least factor. */
  lemma SmallestFactorIs(m: nat, p: nat)
    requires 2 <= p && m >= 1 && Divides(p, m) && NoDivisorBelow(m, p)
    ensures p <= m && SmallestFactor(m) == p
  {
    DivisorAtMost(p, m);
    SmallestFactorFromIs(m, 2, p);
  }

  /** The least factor of m ≥ 2 is prime. */
  lemma SmallestFactorPrime(m: nat)
    requires m >= 2
    ensures Prime(SmallestFactor(m))
  {
    var q := SmallestFactor(m);
    forall d | 1 < d < q
      ensures q % d != 0
    {
      if q % d == 0 {
        DividesTransitive(d, q, m);
        SmallestFactorBelow(m, 2, d);
      }
    }
  }

  /** The search starting at d never passes a divisor of m at or above d. */
  lemma {:induction false} SmallestFactorBelow(m: nat, d: nat, e: nat)
    requires 2 <= d <= e <= m && Divides(e, m)
    ensures SmallestFactorFrom(m, d) <= e
    decreases e - d
  {
    if m % d != 0 {
      SmallestFactorBelow(m, d + 1, e);
    }
  }

  /** Every entry of PrimeFactors(m) is prime, and they multiply back to m. */
  lemma {:induction false} PrimeFactorsCorrect(m: nat)
    requires m >= 1
    ensures forall k :: 0 <= k < |PrimeFactors(m)| ==> Prime(PrimeFactors(m)[k])
    ensures SeqProduct(PrimeFactors(m)) == m
    decreases m
  {
    if m >= 2 {
      var q := SmallestFactor(m);
      QuotientSmaller(q, m);
      SmallestFactorPrime(m);
      PrimeFactorsCorrect(m / q);
      DividesQuotient(q, m);
    }
  }

  /** The product of a list of ordinary integers. */
  function SeqProduct(s: seq<nat>): nat
  {
    if s == [] then 1 else s[0] * SeqProduct(s[1..])
  }

  /** The prime factors come out in ascending order. */
  lemma {:induction false} PrimeFactorsAscending(m: nat)
    requires m >= 1
    ensures forall j, k :: 0 <= j < k < |PrimeFactors(m)| ==> PrimeFactors(m)[j] <= PrimeFactors(m)[k]
    decreases m
  {
    if m >= 2 {
      var q := SmallestFactor(m);
      QuotientSmaller(q, m);
      PrimeFactorsAscending(m / q);
      PrimeFactorsDivide(m / q);
      forall k | 0 <= k < |PrimeFactors(m / q)|
        ensures q <= PrimeFactors(m / q)[k]
      {
        var r := PrimeFactors(m / q)[k];
        DividesOfQuotient(r, q, m);
        SmallestFactorBelow(m, 2, r);
      }
    }
  }

  /** Every entry of PrimeFactors(m) is a divisor of m above 1. */
  lemma {:induction false} PrimeFactorsDivide(m: nat)
    requires m >= 1
    ensures forall k :: 0 <= k < |PrimeFactors(m)| ==>
      2 <= PrimeFactors(m)[k] <= m && Divides(PrimeFactors(m)[k], m)
    decreases m
  {
    if m >= 2 {
      var q := SmallestFactor(m);
      QuotientSmaller(q, m);
      PrimeFactorsDivide(m / q);
      forall k | 0 <= k < |PrimeFactors(m / q)|
        ensures Divides(PrimeFactors(m / q)[k], m)
      {
        DividesOfQuotient(PrimeFactors(m / q)[k], q, m);
      }
    }
  }

  // ---------------------------------------------------------------------------
  // How one rational prime splits in ℤ[i]
  // ---------------------------------------------------------------------------

  /** m is a perfect square, recognised as the source does: ⌊√m⌋² = m. */
  predicate IsSquare(m: int)
  {
    m >= 0 && ISqrt(m) * ISqrt(m) == m
  }

  /** The source's descending search for p = a² + b²: from a downward to 1, the first a
      for which p − a² is a perfect square b², as the pair (a, b). */
  function SquareSearch(p: int, a: int): Option<(nat, nat)>
    decreases a
  {
    if a <= 0 then None
    else if IsSquare(p - a * a) then Some((a, ISqrt(p - a * a)))
    else SquareSearch(p, a - 1)
  }

  /** The search as the source starts it, from a = ⌊√p⌋. */
  function LegSearch(p: nat): Option<(nat, nat)>
  {
    SquareSearch(p, ISqrt(p))
  }

  /** The pair g, ḡ that the source records for a prime that splits. */
  function ConjugatePair(g: GaussianInteger): seq<GaussianInteger>
  {
    [g, g.Conjugate()]
  }

  /** The factors the source records for one rational prime q: the pair 1 ± i for 2,
      q itself for q ≡ 3 (mod 4), and the conjugate pair a ± bi found by the search for
      q ≡ 1 (mod 4). */
  function PrimeSplit(q: nat): seq<GaussianInteger>
  {
    if q == 2 then ConjugatePair(GaussianInteger(1, 1))
    else if q % 4 == 3 then [FromInt(q)]
    else if q % 4 == 1 then
      match LegSearch(q)
      case Some(legs) => ConjugatePair(GaussianInteger(legs.0, legs.1))
      case None => []
    else []
  }

  /** The recorded factors of a list of rational primes, one split after another. */
  function Expand(qs: seq<nat>): seq<GaussianInteger>
  {
    if qs == [] then [] else PrimeSplit(qs[0]) + Expand(qs[1..])
  }

  /** The factor list the source builds for n ≠ 0: i twice when n is negative, then the
      splits of the ascending prime factors of |n|. */
  function RawFactors(n: int): seq<GaussianInteger>
  {
    (if n < 0 then [I, I] else []) + Expand(PrimeFactors(Abs(n)))
  }

  /** What the search promises when it returns (a, b): a decomposition p = a² + b² whose
      a is the largest one at or below the start. */
  lemma {:induction false} SquareSearchHit(p: int, a: int)
    requires SquareSearch(p, a).Some?
    ensures var (c, d) := SquareSearch(p, a).value;
      1 <= c <= a && c * c + d * d == p &&
      forall e :: c < e <= a ==> !IsSquare(p - e * e)
    decreases a
  {
    if !IsSquare(p - a * a) {
      SquareSearchHit(p, a - 1);
    }
  }

  /** What the search promises when it comes back empty: no a in 1..start has p − a² a
      perfect square; put the other way, one such a makes the search succeed. */
  lemma {:induction false} SquareSearchComplete(p: int, a: int)
    ensures forall e :: 1 <= e <= a && IsSquare(p - e * e) ==> SquareSearch(p, a).Some?
    decreases a
  {
    if a > 0 && SquareSearch(p, a).None? {
      assert !IsSquare(p - a * a);
      SquareSearchComplete(p, a - 1);
    }
  }

  /** For a prime p ≡ 1 (mod 4) the search from ⌊√p⌋ never comes back empty: by
      Fermat's theorem some a in range leaves a perfect square. */
  lemma SquareSearchSucceeds(p: nat)
    requires Prime(p) && p % 4 == 1
    ensures LegSearch(p).Some?
  {
    var c, d := FermatTwoSquares(p);
    LegIsCandidate(p, c, d);
    SquareSearchComplete(p, ISqrt(p));
  }

  /** For a prime p ≡ 1 (mod 4) the search from ⌊√p⌋ succeeds, with p = a² + b²,
      a > b > 0, and a the largest first leg of any decomposition of p into two squares. */
  lemma SquareSearchFinds(p: nat) returns (a: nat, b: nat)
    requires Prime(p) && p % 4 == 1
    ensures LegSearch(p) == Some((a, b))
    ensures a * a + b * b == p && a > b > 0
    ensures forall c, d :: 0 <= c && 0 <= d && SumOfSquares(c, d) == p ==> c <= a
  {
    SquareSearchSucceeds(p);
    a, b := LegSearch(p).value.0, LegSearch(p).value.1;
    SquareSearchHit(p, ISqrt(p));
    LargestLeg(p, a, b);
  }

  /** When no first leg above a (up to ⌊√p⌋) works, the decomposition p = a² + b² of a
      prime p ≡ 1 (mod 4) has a > b > 0 and a is the largest first leg there is. */
  lemma LargestLeg(p: nat, a: nat, b: nat)
    requires Prime(p) && p % 4 == 1 && a * a + b * b == p
    requires forall e :: a < e <= ISqrt(p) ==> !IsSquare(p - e * e)
    ensures a > b > 0
    ensures forall c, d :: 0 <= c && 0 <= d && SumOfSquares(c, d) == p ==> c <= a
  {
    forall c, d | 0 <= c && 0 <= d && SumOfSquares(c, d) == p
      ensures c <= a
    {
      LegIsCandidate(p, c, d);
    }
    assert SumOfSquares(b, a) == p;
    LegsDistinct(p, a, b);
  }

  /** In a decomposition p = a² + b² of an odd prime both legs are non-zero and
      they differ. */
  lemma LegsDistinct(p: nat, a: nat, b: nat)
    requires Prime(p) && p % 2 == 1 && a * a + b * b == p
    ensures a != b && a > 0 && b > 0
  {
    PrimeNotSquare(p, a);
    PrimeNotSquare(p, b);
    assert a * a + a * a == 2 * (a * a);
  }

  /** p = c² + d². */
  function SumOfSquares(c: int, d: int): int
  {
    c * c + d * d
  }

  /** A first leg c of p = c² + d² lies within the search's range and passes its test. */
  lemma LegIsCandidate(p: nat, c: nat, d: nat)
    requires c * c + d * d == p
    ensures c <= ISqrt(p) && IsSquare(p - c * c)
  {
    FirstLegBelow(p, c, d);
    BelowISqrt(p, c);
    SquareIsSquare(p - c * c, d);
  }

  /** A square passes the perfect-square test. */
  lemma SquareIsSquare(m: nat, d: nat)
    requires m == d * d
    ensures IsSquare(m)
  {
    ISqrtOfSquare(m, d);
  }

  /** The first leg's square does not exceed p. */
  lemma FirstLegBelow(p: nat, c: nat, d: nat)
    requires c * c + d * d == p
    ensures c * c <= p
  {
    ProductBounds(d, d);
  }

  /** A prime other than 2 is odd, so it is 1 or 3 mod 4. */
  lemma PrimeResidues(q: nat)
    requires Prime(q)
    ensures q == 2 || q % 4 == 1 || q % 4 == 3
  {
    if q != 2 {
      assert q % 2 != 0;
    }
  }

  /** The split of a prime multiplies back to it. */
  lemma PrimeSplitProduct(q: nat)
    requires Prime(q)
    ensures Product(PrimeSplit(q)) == FromInt(q)
  {
    PrimeResidues(q);
    if q == 2 {
      PairProduct(GaussianInteger(1, 1));
    } else if q % 4 == 3 {
      SingletonProduct(FromInt(q));
    } else {
      var a, b := SquareSearchFinds(q);
      PairProduct(GaussianInteger(a, b));
    }
  }

  /** A one-factor list multiplies to its factor. */
  lemma SingletonProduct(g: GaussianInteger)
    ensures Product([g]) == g
  {
    assert [g][..0] == [];
    MulOne(g);
  }

  /** A conjugate pair multiplies to the norm. */
  lemma PairProduct(g: GaussianInteger)
    ensures Product(ConjugatePair(g)) == FromInt(g.Norm())
  {
    ProductConjugatePair([], g);
    assert [] + ConjugatePair(g) == ConjugatePair(g);
    MulOne(FromInt(g.Norm()));
  }

  /** Every factor in the split of a prime passes the Gaussian-primality test. */
  lemma PrimeSplitGaussianPrime(q: nat)
    requires Prime(q)
    ensures forall k :: 0 <= k < |PrimeSplit(q)| ==> IsGaussianPrime(PrimeSplit(q)[k])
  {
    PrimeResidues(q);
    if q == 2 {
      assert Prime(GaussianInteger(1, 1).Norm());
    } else if q % 4 == 3 {
      assert PrimeSplit(q) == [FromInt(q)];
    } else {
      var a, b := SquareSearchFinds(q);
      var g := GaussianInteger(a, b);
      assert PrimeSplit(q) == [g, g.Conjugate()];
      assert g.Norm() == q;
    }
  }

  // ---------------------------------------------------------------------------
  // What the factor list means
  // ---------------------------------------------------------------------------

  /** Splitting the first prime of a list, then the rest. */
  lemma ExpandCons(q: nat, rest: seq<nat>)
    ensures Expand([q] + rest) == PrimeSplit(q) + Expand(rest)
  {
    assert ([q] + rest)[0] == q && ([q] + rest)[1..] == rest;
  }

  /** The splits of a list of primes multiply back to the product of the primes. */
  lemma {:induction false} ExpandProduct(qs: seq<nat>)
    requires forall k :: 0 <= k < |qs| ==> Prime(qs[k])
    ensures Product(Expand(qs)) == FromInt(SeqProduct(qs))
  {
    if qs == [] {
    } else {
      ExpandProduct(qs[1..]);
      PrimeSplitProduct(qs[0]);
      ProductAppend(PrimeSplit(qs[0]), Expand(qs[1..]));
      MulFromInt(qs[0], SeqProduct(qs[1..]));
    }
  }

  /** Every split of a list of primes passes the Gaussian-primality test. */
  lemma {:induction false} ExpandGaussianPrime(qs: seq<nat>)
    requires forall k :: 0 <= k < |qs| ==> Prime(qs[k])
    ensures forall k :: 0 <= k < |Expand(qs)| ==> IsGaussianPrime(Expand(qs)[k])
  {
    if qs != [] {
      ExpandGaussianPrime(qs[1..]);
      PrimeSplitGaussianPrime(qs[0]);
      var head := PrimeSplit(qs[0]);
      forall k | 0 <= k < |Expand(qs)|
        ensures IsGaussianPrime(Expand(qs)[k])
      {
        if k >= |head| {
          assert Expand(qs)[k] == Expand(qs[1..])[k - |head|];
        }
      }
    }
  }

  /** The two sign units multiply to −1. */
  lemma SignProduct()
    ensures Product([I, I]) == FromInt(-1)
  {
    assert [I, I][..1] == [I];
    SingletonProduct(I);
  }

  /** The splits of the prime factors of m multiply back to m. */
  lemma ExpandedProduct(m: nat)
    requires m >= 1
    ensures Product(Expand(PrimeFactors(m))) == FromInt(m)
  {
    PrimeFactorsCorrect(m);
    ExpandProduct(PrimeFactors(m));
  }

  /** Prefixing the two sign units negates a product. */
  lemma SignedProduct(rest: seq<GaussianInteger>, m: int)
    requires Product(rest) == FromInt(m)
    ensures Product([I, I] + rest) == FromInt(-m)
  {
    var sign := [I, I];
    ProductAppend(sign, rest);
    SignProduct();
    NegateFromInt(m);
    assert Product(sign + rest) == Mul(FromInt(-1), FromInt(m));
  }

  /** Multiplying by −1 negates. */
  lemma NegateFromInt(m: int)
    ensures Mul(FromInt(-1), FromInt(m)) == FromInt(-m)
  {
    MulFromInt(-1, m);
  }

  /** Headline property: the recorded factors multiply back to n, for every n ≠ 0. */
  lemma RawFactorsProduct(n: int)
    requires n != 0
    ensures Product(RawFactors(n)) == FromInt(n)
  {
    var m := Abs(n);
    var rest := Expand(PrimeFactors(m));
    ExpandedProduct(m);
    if n < 0 {
      assert RawFactors(n) == [I, I] + rest;
      SignedProduct(rest, m);
    } else {
      assert RawFactors(n) == [] + rest;
      ProductAppend([], rest);
      MulOne(FromInt(m));
    }
  }

  /** Headline property: i appears exactly as the first two factors, and only when n
      is negative (never a −1 unit); every other recorded factor passes the
      Gaussian-primality test. */
  lemma RawFactorsGaussianPrime(n: int)
    requires n != 0
    ensures forall k :: 0 <= k < |RawFactors(n)| ==> (RawFactors(n)[k] == I <==> n < 0 && k < 2)
    ensures forall k :: 0 <= k < |RawFactors(n)| && RawFactors(n)[k] != I ==>
      IsGaussianPrime(RawFactors(n)[k])
  {
    var m := Abs(n);
    PrimeFactorsCorrect(m);
    ExpandGaussianPrime(PrimeFactors(m));
    var rest := Expand(PrimeFactors(m));
    var offset := if n < 0 then 2 else 0;
    assert !IsGaussianPrime(I);
    forall k | 0 <= k < |RawFactors(n)|
      ensures (RawFactors(n)[k] == I <==> n < 0 && k < 2)
      ensures RawFactors(n)[k] != I ==> IsGaussianPrime(RawFactors(n)[k])
    {
      if k >= offset {
        assert RawFactors(n)[k] == rest[k - offset];
      }
    }
  }

  // ---------------------------------------------------------------------------
  // The source's loops
  // ---------------------------------------------------------------------------

  /** Trial division by p, when nothing below p divides m: p is the next prime factor,
      and the quotient still has no divisor below p. */
  lemma DivideStep(m: nat, p: nat)
    requires m >= 1 && p >= 2 && m % p == 0 && NoDivisorBelow(m, p)
    ensures PrimeFactors(m) == [p] + PrimeFactors(m / p)
    ensures m / p >= 1 && NoDivisorBelow(m / p, p)
  {
    SmallestFactorIs(m, p);
    QuotientSmaller(p, m);
    forall d | 1 < d < p
      ensures (m / p) % d != 0
    {
      if (m / p) % d == 0 {
        DividesOfQuotient(d, p, m);
      }
    }
  }

  /** Moving to the next odd candidate: if the odd candidate p does not divide an odd m,
      nothing below p + 2 does (p + 1 is even). */
  lemma NextCandidate(m: nat, p: nat)
    requires p >= 3 && p % 2 == 1 && NoDivisorBelow(m, p) && m % p != 0
    ensures NoDivisorBelow(m, p + 2) && (p + 2) % 2 == 1
  {
    assert m % 2 != 0;
    if m % (p + 1) == 0 {
      var k := p / 2;
      assert p + 1 == (k + 1) * 2;
      MultipleDivides(k + 1, 2);
      DividesTransitive(2, p + 1, m);
    }
  }

  /** What is left after trial division up to √m is a single prime. */
  lemma LeftoverStep(m: nat, p: nat)
    requires m > 1 && p >= 0 && p * p > m && NoDivisorBelow(m, p)
    ensures PrimeFactors(m) == [m]
  {
    PrimeBySmallDivisors(m, p);
    MultipleDivides(1, m);
    SmallestFactorIs(m, m);
    assert m / m == 1;
  }

  /** The source's search for p = a² + b²: a runs down from ⌊√p⌋ and stops at the first
      a for which b = ⌊√(p − a²)⌋ has b² = p − a². */
  method SearchLegs(p: nat) returns (found: bool, a: nat, b: nat)
    ensures found ==> LegSearch(p) == Some((a, b))
    ensures !found ==> LegSearch(p) == None
  {
    ISqrtBounds(p);
    a := ISqrt(p);
    b := 0;
    found := false;
    while a > 0
      invariant a * a <= p
      invariant SquareSearch(p, a) == LegSearch(p)
      invariant !found
      decreases a
    {
      var b2 := p - a * a;
      b := ISqrt(b2);
      if b * b == b2 {
        found := true;
        SearchHit(p, a, b2, b);
        return;
      }
      SearchMiss(p, a, b2, b);
      SquareMonotone(a - 1, a);
      a := a - 1;
    }
  }

  /** Pushing a + bi and then a − bi appends the conjugate pair of a + bi. */
  lemma PushedPair(s: seq<GaussianInteger>, a: int, b: int)
    ensures s + [GaussianInteger(a, b)] + [GaussianInteger(a, -b)] == s + ConjugatePair(GaussianInteger(a, b))
    ensures [] + [GaussianInteger(a, b)] + [GaussianInteger(a, -b)] == ConjugatePair(GaussianInteger(a, b))
  {
  }

  /** The split of p ≡ 1 (mod 4) is the conjugate pair the search finds, or nothing. */
  lemma PrimeSplitSearched(p: nat, found: bool, a: nat, b: nat)
    requires p % 4 == 1
    requires found ==> LegSearch(p) == Some((a, b))
    requires !found ==> LegSearch(p) == None
    ensures PrimeSplit(p) == if found then ConjugatePair(GaussianInteger(a, b)) else []
  {
    assert p != 2 && p % 4 != 3;
  }

  /** The block the source runs for an odd number p (written out twice there: for a
      trial divisor and for the leftover): p itself when p ≡ 3 (mod 4); when
      p ≡ 1 (mod 4), the search for p = a² + b², recording a + bi and a − bi when it
      succeeds. */
  method SplitOddPrime(p: nat) returns (split: seq<GaussianInteger>)
    requires p % 2 == 1
    ensures split == PrimeSplit(p)
  {
    split := [];
    if p % 4 == 3 {
      PrimeSplitOdd(p);
      split := split + [GaussianInteger(p, 0)];
    } else if p % 4 == 1 {
      var found, a, b := SearchLegs(p);
      PrimeSplitSearched(p, found, a, b);
      if found {
        split := split + [GaussianInteger(a, b)];
        split := split + [GaussianInteger(a, -(b as int))];
        PushedPair([], a, b);
      }
    }
  }

  /** The search from a stops at a when b2 = p − a² is a perfect square. */
  lemma SearchHit(p: nat, a: nat, b2: int, b: nat)
    requires 0 < a && b2 == p - a * a && b2 >= 0 && b == ISqrt(b2) && b * b == b2
    ensures SquareSearch(p, a) == Some((a, b))
  {
  }

  /** Otherwise it moves on to a − 1. */
  lemma SearchMiss(p: nat, a: nat, b2: int, b: nat)
    requires 0 < a && b2 == p - a * a && b2 >= 0 && b == ISqrt(b2) && b * b != b2
    ensures SquareSearch(p, a) == SquareSearch(p, a - 1)
  {
  }

  /** The split of an odd number, case by case. */
  lemma PrimeSplitOdd(p: nat)
    requires p % 2 == 1
    ensures p % 4 == 3 ==> PrimeSplit(p) == [FromInt(p)]
    ensures p % 4 == 1 && LegSearch(p).None? ==> PrimeSplit(p) == []
    ensures p % 4 == 1 && LegSearch(p).Some? ==>
      var legs := LegSearch(p).value;
      PrimeSplit(p) == ConjugatePair(GaussianInteger(legs.0, legs.1))
  {
    assert p != 2;
  }

  /** The factors recorded before any trial division: the sign units. */
  lemma SignUnits(n: int)
    ensures (if n < 0 then [] + [GaussianInteger(0, 1)] + [GaussianInteger(0, 1)] else [])
      + Expand(PrimeFactors(Abs(n))) == RawFactors(n)
  {
  }

  /** One trial division, on the recorded list: dividing m by p moves the split of p
      from the pending part to the recorded part. */
  lemma TrialDivision(factors: seq<GaussianInteger>, m: nat, p: nat, target: seq<GaussianInteger>)
    requires m >= 1 && p >= 2 && m % p == 0 && NoDivisorBelow(m, p)
    requires factors + Expand(PrimeFactors(m)) == target
    ensures (factors + PrimeSplit(p)) + Expand(PrimeFactors(m / p)) == target
    ensures 1 <= m / p < m && NoDivisorBelow(m / p, p)
  {
    DivideStep(m, p);
    QuotientSmaller(p, m);
    ExpandCons(p, PrimeFactors(m / p));
    assert (factors + PrimeSplit(p)) + Expand(PrimeFactors(m / p))
      == factors + (PrimeSplit(p) + Expand(PrimeFactors(m / p)));
  }

  /** The leftover m > 1 after trial division is an odd prime, and its split completes
      the list. */
  lemma LeftoverFactor(factors: seq<GaussianInteger>, m: nat, p: nat, target: seq<GaussianInteger>)
    requires m > 1 && p >= 3 && p * p > m && NoDivisorBelow(m, p)
    requires factors + Expand(PrimeFactors(m)) == target
    ensures m % 2 == 1 && factors + PrimeSplit(m) == target
  {
    LeftoverStep(m, p);
    ExpandCons(m, []);
    assert PrimeSplit(m) + [] == PrimeSplit(m);
  }

  /** A leftover of 1 adds nothing. */
  lemma NoLeftover(factors: seq<GaussianInteger>, target: seq<GaussianInteger>)
    requires factors + Expand(PrimeFactors(1)) == target
    ensures factors == target
  {
    assert factors + [] == factors;
  }

  /** The factor-recording part of the source's factorizeGaussianInteger, for n ≠ 0:
      i twice for a negative n, the pair 1 + i, 1 − i for each factor 2, then trial
      division by odd p while p² ≤ remaining, and finally the leftover. */
  method CollectFactors(n: int) returns (factors: seq<GaussianInteger>)
    requires n != 0
    ensures factors == RawFactors(n)
  {
    ghost var target := RawFactors(n);
    factors := [];
    var remaining: nat := Abs(n);
    if n < 0 {
      factors := factors + [GaussianInteger(0, 1)];
      factors := factors + [GaussianInteger(0, 1)];
    }
    SignUnits(n);
    while remaining % 2 == 0
      invariant remaining >= 1
      invariant factors + Expand(PrimeFactors(remaining)) == target
      decreases remaining
    {
      TrialDivision(factors, remaining, 2, target);
      PushedPair(factors, 1, 1);
      factors := factors + [GaussianInteger(1, 1)];
      factors := factors + [GaussianInteger(1, -1)];
      remaining := remaining / 2;
    }
    var p: nat := 3;
    while p * p <= remaining
      invariant p >= 3 && p % 2 == 1
      invariant remaining >= 1 && NoDivisorBelow(remaining, p)
      invariant factors + Expand(PrimeFactors(remaining)) == target
      decreases remaining - p
    {
      ProductBounds(p, p);
      ghost var before := remaining;
      while remaining % p == 0
        invariant 1 <= remaining <= before && NoDivisorBelow(remaining, p)
        invariant factors + Expand(PrimeFactors(remaining)) == target
        decreases remaining
      {
        TrialDivision(factors, remaining, p, target);
        var split := SplitOddPrime(p);
        factors := factors + split;
        remaining := remaining / p;
      }
      NextCandidate(remaining, p);
      p := p + 2;
    }
    if remaining > 1 {
      LeftoverFactor(factors, remaining, p, target);
      var split := SplitOddPrime(remaining);
      factors := factors + split;
    } else {
      NoLeftover(factors, target);
    }
  }
}
