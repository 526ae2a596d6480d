/** Integer facts the factoriser leans on: an exact integer square root (standing in
    for the floating-point floor of a square root) and divisibility stated with `%`,
    as the factoriser's own loops test it. */
module Arith {

  /** The absolute value, as Math.abs computes it on integers. */
  function Abs(n: int): nat
  {
    if n < 0 then -n else n
  }

  /** `m` is a multiple of the positive `d`, tested the way the factoriser tests it. */
  predicate Divides(d: int, m: int)
    requires d > 0
  {
    m % d == 0
  }

  /** ⌊√n⌋, exactly (ISqrtBounds states what it is). */
  function ISqrt(n: nat): nat
  {
    RootFrom(n, 0, 0)
  }

  /** The largest root at or above r, stepping up while the next square still fits in
      n; sq carries r², so each step only adds 2r + 1. */
  function RootFrom(n: nat, r: nat, sq: nat): nat
    requires sq <= n
    decreases n - sq
  {
    if sq + 2 * r + 1 > n then r else RootFrom(n, r + 1, sq + 2 * r + 1)
  }

  /** ⌊√n⌋ is the r with r² ≤ n < (r + 1)². */
  lemma ISqrtBounds(n: nat)
    ensures ISqrt(n) * ISqrt(n) <= n < (ISqrt(n) + 1) * (ISqrt(n) + 1)
  {
    RootFromBounds(n, 0, 0);
  }

  /** Stepping up from a root r with r² ≤ n ends at the root of n. */
  lemma {:induction false} RootFromBounds(n: nat, r: nat, sq: nat)
    requires sq <= n && sq == r * r
    ensures RootFrom(n, r, sq) * RootFrom(n, r, sq) <= n
    ensures n < (RootFrom(n, r, sq) + 1) * (RootFrom(n, r, sq) + 1)
    decreases n - sq
  {
    NextSquare(r);
    var t := RootFrom(n, r, sq);
    if sq + 2 * r + 1 > n {
      SquareOfEqual(t, r);
      SquareOfEqual(t + 1, r + 1);
    } else {
      RootFromBounds(n, r + 1, sq + 2 * r + 1);
    }
  }

  /** (r + 1)² = r² + 2r + 1. */
  lemma NextSquare(r: int)
    ensures (r + 1) * (r + 1) == r * r + 2 * r + 1
  {
  }

  /** Equal numbers have equal squares (a rewriting step the solver does not always find). */
  lemma SquareOfEqual(x: int, y: int)
    requires x == y
    ensures x * x == y * y
  {
  }

  /** Squaring is monotone on the naturals. */
  lemma SquareMonotone(a: nat, b: nat)
    requires a <= b
    ensures a * a <= b * b
  {
    assert a * a <= a * b <= b * b;
  }

  /** The square-root bounds determine the root. */
  lemma ISqrtUnique(n: nat, r: nat)
    requires r * r <= n < (r + 1) * (r + 1)
    ensures ISqrt(n) == r
  {
    var s := ISqrt(n);
    ISqrtBounds(n);
    if s < r {
      SquareMonotone(s + 1, r);
    } else if s > r {
      SquareMonotone(r + 1, s);
    }
  }

  /** The root of a perfect square is its side. */
  lemma ISqrtOfSquare(m: nat, b: nat)
    requires m == b * b
    ensures ISqrt(m) == b && ISqrt(m) * ISqrt(m) == m
  {
    assert (b + 1) * (b + 1) == b * b + 2 * b + 1;
    ISqrtUnique(m, b);
    SquareOfEqual(ISqrt(m), b);
  }

  /** Anything whose square is at most n is at most ⌊√n⌋. */
  lemma BelowISqrt(n: nat, a: nat)
    requires a * a <= n
    ensures a <= ISqrt(n)
  {
    ISqrtBounds(n);
    RootAbove(n, a, ISqrt(n));
  }

  /** A number whose square is at most n lies below any r with n < (r + 1)². */
  lemma RootAbove(n: nat, a: nat, r: nat)
    requires a * a <= n < (r + 1) * (r + 1)
    ensures a <= r
  {
    if a > r {
      SquareMonotone(r + 1, a);
    }
  }

  /** Sign facts about a product, stated so that they can be used in any context. */
  lemma ProductBounds(a: int, b: int)
    ensures a >= 0 && b >= 0 ==> a * b >= 0
    ensures a > 0 && b >= 1 ==> a * b >= a
    ensures a > 0 && b <= -1 ==> a * b <= -a
  {
    if a > 0 && b >= 1 {
      assert a * b == a * (b - 1) + a;
    } else if a > 0 && b <= -1 {
      assert a * b == a * (b + 1) - a;
      assert a * -(b + 1) >= 0;
    }
  }

  /** A multiple of d lies in [0, d) only when it is 0. */
  lemma MultipleBelow(d: int, x: int)
    requires d > 0 && 0 <= d * x < d
    ensures x == 0
  {
    ProductBounds(d, x);
  }

  /** k·d is a multiple of d. */
  lemma MultipleDivides(k: int, d: int)
    requires d > 0
    ensures Divides(d, k * d) && (k * d) / d == k
  {
    var q, r := (k * d) / d, (k * d) % d;
    assert k * d == d * q + r;
    assert d * (k - q) == r;
    MultipleBelow(d, k - q);
  }

  /** A multiple is its divisor times the quotient. */
  lemma DividesQuotient(d: int, m: int)
    requires d > 0 && Divides(d, m)
    ensures m == d * (m / d)
  {
  }

  /** Divisibility is transitive. */
  lemma DividesTransitive(e: int, d: int, m: int)
    requires e > 0 && d > 0 && Divides(e, d) && Divides(d, m)
    ensures Divides(e, m)
  {
    assert m == d * (m / d);
    assert d == e * (d / e);
    assert m == ((d / e) * (m / d)) * e;
    MultipleDivides((d / e) * (m / d), e);
  }

  /** A divisor of m / d divides m when d divides m. */
  lemma DividesOfQuotient(e: int, d: int, m: int)
    requires e > 0 && d > 0 && Divides(d, m) && Divides(e, m / d)
    ensures Divides(e, m)
  {
    var q := m / d;
    assert m == d * q;
    assert q == e * (q / e);
    assert m == (d * (q / e)) * e;
    MultipleDivides(d * (q / e), e);
  }

  /** Each factor of a product divides it. */
  lemma FactorDivides(a: int, b: int)
    requires a > 0
    ensures Divides(a, a * b) && Divides(a, b * a)
  {
    MultipleDivides(b, a);
  }

  /** A positive divisor of a positive m is at most m. */
  lemma DivisorAtMost(d: int, m: int)
    requires d > 0 && m > 0 && Divides(d, m)
    ensures d <= m
  {
    assert m == d * (m / d);
    ProductBounds(d, m / d);
  }

  /** Dividing by a divisor d > 1 makes a positive m strictly smaller. */
  lemma QuotientSmaller(d: int, m: int)
    requires d > 1 && m > 0 && Divides(d, m)
    ensures 0 < m / d < m
  {
    var q := m / d;
    assert m == d * q;
    ProductBounds(d, q);
    ProductBounds(d - 1, q);
    assert d * q == q + (d - 1) * q;
  }
}
