/** The value type of the factoriser: a Gaussian integer re + im·i of ℤ[i], with its
    norm, its conjugate and the ring product used to multiply factors back together. */
module Gaussian {

  /** re + im·i; immutable and compared structurally. */
  datatype GaussianInteger = GaussianInteger(re: int, im: int) {

    /** The norm re² + im²: never negative, and zero only at zero. */
    function Norm(): (r: int)
      ensures r >= 0
      ensures r == 0 <==> re == 0 && im == 0
    {
      re * re + im * im
    }

    /** The complex conjugate re − im·i, which has the same norm. */
    function Conjugate(): (r: GaussianInteger)
      ensures r.Norm() == Norm()
    {
      GaussianInteger(re, -im)
    }
  }

  /** The unit 1, identity of the product. */
  const One := GaussianInteger(1, 0)

  /** The unit i, which the factoriser uses twice to carry a negative sign. */
  const I := GaussianInteger(0, 1)

  /** An ordinary integer seen as an element of ℤ[i]. */
  function FromInt(n: int): GaussianInteger
  {
    GaussianInteger(n, 0)
  }

  /** (a + bi)(c + di) = (ac − bd) + (ad + bc)i. */
  function Mul(x: GaussianInteger, y: GaussianInteger): GaussianInteger
  {
    GaussianInteger(x.re * y.re - x.im * y.im, x.re * y.im + x.im * y.re)
  }

  /** The units of ℤ[i] are exactly the elements of norm 1: 1, −1, i and −i. */
  predicate IsUnit(g: GaussianInteger)
  {
    g.Norm() == 1
  }

  /** The product of a list of factors, multiplied left to right. */
  function Product(factors: seq<GaussianInteger>): GaussianInteger
    decreases |factors|
  {
    if factors == [] then One
    else Mul(Product(factors[..|factors| - 1]), factors[|factors| - 1])
  }

  /** Conjugating twice gives back the original. */
  lemma ConjugateInvolution(g: GaussianInteger)
    ensures g.Conjugate().Conjugate() == g
  {
  }

  /** A Gaussian integer times its conjugate is its norm, a real integer. */
  lemma MulConjugate(g: GaussianInteger)
    ensures Mul(g, g.Conjugate()) == FromInt(g.Norm())
  {
    NegateRight(g.im, g.im);
    NegateRight(g.re, g.im);
    Commute(g.im, g.re);
  }

  lemma NegateRight(x: int, y: int)
    ensures x * -y == -(x * y)
  {
  }

  lemma Commute(x: int, y: int)
    ensures x * y == y * x
  {
  }

  /** The product is associative. */
  lemma MulAssociative(x: GaussianInteger, y: GaussianInteger, z: GaussianInteger)
    ensures Mul(Mul(x, y), z) == Mul(x, Mul(y, z))
  {
    var a, b, c, d, e, f := x.re, x.im, y.re, y.im, z.re, z.im;
    calc {
      Mul(Mul(x, y), z).re;
      (a * c - b * d) * e - (a * d + b * c) * f;
      a * (c * e - d * f) - b * (c * f + d * e);
      Mul(x, Mul(y, z)).re;
    }
    calc {
      Mul(Mul(x, y), z).im;
      (a * c - b * d) * f + (a * d + b * c) * e;
      a * (c * f + d * e) + b * (c * e - d * f);
      Mul(x, Mul(y, z)).im;
    }
  }

  /** 1 is the identity on either side. */
  lemma MulOne(x: GaussianInteger)
    ensures Mul(One, x) == x && Mul(x, One) == x
  {
  }

  /** Multiplying ordinary integers inside ℤ[i] is ordinary multiplication. */
  lemma MulFromInt(m: int, n: int)
    ensures Mul(FromInt(m), FromInt(n)) == FromInt(m * n)
  {
  }

  /** The norm is multiplicative: N(xy) = N(x)·N(y). */
  lemma NormMultiplicative(x: GaussianInteger, y: GaussianInteger)
    ensures Mul(x, y).Norm() == x.Norm() * y.Norm()
  {
    TwoSquaresIdentity(x.re, x.im, y.re, y.im);
  }

  /** The Brahmagupta–Fibonacci identity: (ac − bd)² + (ad + bc)² = (a² + b²)(c² + d²). */
  lemma TwoSquaresIdentity(a: int, b: int, c: int, d: int)
    ensures (a * c - b * d) * (a * c - b * d) + (a * d + b * c) * (a * d + b * c)
         == (a * a + b * b) * (c * c + d * d)
  {
    DifferenceSquared(a * c, b * d);
    SumSquared(a * d, b * c);
    SquareOfProduct(a, c);
    SquareOfProduct(b, d);
    SquareOfProduct(a, d);
    SquareOfProduct(b, c);
    CrossTerms(a, b, c, d);
    Distribute(a * a, b * b, c * c, d * d);
  }

  lemma DifferenceSquared(x: int, y: int)
    ensures (x - y) * (x - y) == x * x - 2 * (x * y) + y * y
  {
  }

  lemma SumSquared(x: int, y: int)
    ensures (x + y) * (x + y) == x * x + 2 * (x * y) + y * y
  {
  }

  lemma SquareOfProduct(x: int, y: int)
    ensures (x * y) * (x * y) == (x * x) * (y * y)
  {
  }

  lemma CrossTerms(a: int, b: int, c: int, d: int)
    ensures (a * c) * (b * d) == (a * d) * (b * c)
  {
  }

  lemma Distribute(u: int, v: int, w: int, z: int)
    ensures (u + v) * (w + z) == u * w + u * z + v * w + v * z
  {
  }

  /** The product of a concatenation is the product of the two parts. */
  lemma {:induction false} ProductAppend(s: seq<GaussianInteger>, t: seq<GaussianInteger>)
    ensures Product(s + t) == Mul(Product(s), Product(t))
    decreases |t|
  {
    if t == [] {
      assert s + t == s;
      MulOne(Product(s));
    } else {
      var t' := t[..|t| - 1];
      var last := t[|t| - 1];
      assert (s + t)[..|s + t| - 1] == s + t';
      ProductAppend(s, t');
      MulAssociative(Product(s), Product(t'), last);
    }
  }

  /** The product of a conjugate pair (a + bi)(a − bi) is a² + b². */
  lemma ProductConjugatePair(prefix: seq<GaussianInteger>, g: GaussianInteger)
    ensures Product(prefix + [g, g.Conjugate()]) == Mul(Product(prefix), FromInt(g.Norm()))
  {
    var pair := [g, g.Conjugate()];
    assert pair[..1] == [g] && [g][..0] == [];
    assert Product([g]) == Mul(One, g);
    MulOne(g);
    assert Product(pair) == Mul(g, g.Conjugate());
    MulConjugate(g);
    ProductAppend(prefix, pair);
  }
}
