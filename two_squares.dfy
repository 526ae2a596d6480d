/** Fermat's theorem on sums of two squares, in the direction the factoriser relies on:
    every prime p ≡ 1 (mod 4) is a² + b² with a, b > 0. Without it the descending search
    for a and b could come back empty and the factor list would lose the prime p.

    The proof is Zagier's: on the finite set of "windmills" (x, y, z) with x² + 4yz = p,
    one involution has exactly one fixed point, so the set has odd size; hence the
    involution (x, y, z) ↦ (x, z, y) has a fixed point too, and that gives
    p = x² + (2y)². */
module TwoSquares {
  import opened Arith
  import opened Primality

  datatype Windmill = Windmill(x: int, y: int, z: int)

  /** (x, y, z) solves x² + 4yz = p in positive integers. */
  predicate OnWindmill(p: int, t: Windmill)
  {
    t.x > 0 && t.y > 0 && t.z > 0 && t.x * t.x + 4 * t.y * t.z == p
  }

  /** All windmills of p, as a finite set. */
  ghost function Windmills(p: nat): set<Windmill>
  {
    set x: int, y: int, z: int | 0 < x <= p && 0 < y <= p && 0 < z <= p && x * x + 4 * y * z == p
      :: Windmill(x, y, z)
  }

  /** The elements of t that satisfy f(t) = t. */
  ghost function FixedPoints<T>(s: set<T>, f: T -> T): set<T>
  {
    set t | t in s && f(t) == t
  }

  /** Zagier's involution on windmills. */
  function Zagier(t: Windmill): Windmill
  {
    if t.x < t.y - t.z then Windmill(t.x + 2 * t.z, t.z, t.y - t.x - t.z)
    else if t.x < 2 * t.y then Windmill(2 * t.y - t.x, t.y, t.x - t.y + t.z)
    else Windmill(t.x - 2 * t.y, t.x - t.y + t.z, t.y)
  }

  /** The involution that exchanges y and z. */
  function Swap(t: Windmill): Windmill
  {
    Windmill(t.x, t.z, t.y)
  }

  /** The comprehension holds exactly the windmills. */
  lemma WindmillsMembers(p: nat, t: Windmill)
    ensures t in Windmills(p) <==> OnWindmill(p, t)
  {
    if OnWindmill(p, t) {
      ProductBounds(t.x, t.x);
      ProductBounds(t.y, t.z);
      ProductBounds(t.y, 4 * t.z);
      assert 4 * t.y * t.z == t.y * (4 * t.z);
      ProductBounds(t.z, 4 * t.y);
      assert 4 * t.y * t.z == t.z * (4 * t.y);
      assert t == Windmill(t.x, t.y, t.z);
    }
  }

  /** An involution pairs off the elements it moves, so a finite set and the set of
      fixed points of an involution on it have the same parity. */
  lemma {:induction false} InvolutionParity<T>(s: set<T>, f: T -> T)
    requires forall t :: t in s ==> f(t) in s && f(f(t)) == t
    ensures |s| % 2 == |FixedPoints(s, f)| % 2
    decreases |s|
  {
    if s != {} {
      var t :| t in s;
      if f(t) == t {
        var rest := s - {t};
        InvolutionParity(rest, f);
        assert FixedPoints(s, f) == FixedPoints(rest, f) + {t};
      } else {
        var rest := s - {t, f(t)};
        forall u | u in rest
          ensures f(u) in rest && f(f(u)) == u
        {
          assert f(f(u)) == u;
        }
        InvolutionParity(rest, f);
        assert FixedPoints(s, f) == FixedPoints(rest, f);
      }
    }
  }

  /** A prime is not a perfect square. */
  lemma PrimeNotSquare(p: int, s: int)
    requires Prime(p)
    ensures s * s != p
  {
    var a := Abs(s);
    assert a * a == s * s;
    if a * a == p {
      ProductBounds(a, a);
      ProductBounds(a, a - 1);
      FactorDivides(a, a);
    }
  }

  /** The two boundaries between the cases of Zagier's map are never reached on the
      windmills of a prime p ≡ 1 (mod 4). */
  lemma ZagierBoundaries(p: int, t: Windmill)
    requires Prime(p) && p % 4 == 1 && OnWindmill(p, t)
    ensures t.x != t.y - t.z && t.x != 2 * t.y
  {
    var y, z := t.y, t.z;
    // At x = y − z the prime would be the square (y + z)²; at x = 2y a multiple of 4.
    assert (y - z) * (y - z) + 4 * y * z == (y + z) * (y + z);
    assert (2 * y) * (2 * y) + 4 * y * z == 4 * (y * y + y * z);
    PrimeNotSquare(p, y + z);
  }

  /** Each case of Zagier's map keeps x² + 4yz. */
  lemma ZagierKeepsSum(x: int, y: int, z: int)
    ensures (x + 2 * z) * (x + 2 * z) + 4 * z * (y - x - z) == x * x + 4 * y * z
    ensures (2 * y - x) * (2 * y - x) + 4 * y * (x - y + z) == x * x + 4 * y * z
    ensures (x - 2 * y) * (x - 2 * y) + 4 * (x - y + z) * y == x * x + 4 * y * z
  {
  }

  /** On the windmills of a prime p ≡ 1 (mod 4), Zagier's map stays on the windmills
      and undoes itself. */
  lemma ZagierInvolution(p: int, t: Windmill)
    requires Prime(p) && p % 4 == 1 && OnWindmill(p, t)
    ensures OnWindmill(p, Zagier(t)) && Zagier(Zagier(t)) == t
  {
    ZagierBoundaries(p, t);
    ZagierKeepsSum(t.x, t.y, t.z);
  }

  /** On the windmills of a prime p ≡ 1 (mod 4), Zagier's map fixes exactly
      (1, 1, (p − 1) / 4). */
  lemma ZagierFixedPoint(p: int, t: Windmill)
    requires Prime(p) && p % 4 == 1 && OnWindmill(p, t)
    ensures Zagier(t) == t <==> t == Windmill(1, 1, (p - 1) / 4)
  {
    var x, y, z := t.x, t.y, t.z;
    if Zagier(t) == t {
      assert x < 2 * y && x == y;
      assert p == x * (x + 4 * z);
      FactorDivides(x, x + 4 * z);
      ProductBounds(x, x + 4 * z - 1);
      assert x * (x + 4 * z) == x + x * (x + 4 * z - 1);
    }
  }

  /** Zagier's map is an involution of the set of windmills of a prime p ≡ 1 (mod 4). */
  lemma ZagierOnWindmills(p: nat)
    requires Prime(p) && p % 4 == 1
    ensures forall t :: t in Windmills(p) ==> Zagier(t) in Windmills(p) && Zagier(Zagier(t)) == t
  {
    forall t | t in Windmills(p)
      ensures Zagier(t) in Windmills(p) && Zagier(Zagier(t)) == t
    {
      WindmillsMembers(p, t);
      ZagierInvolution(p, t);
      WindmillsMembers(p, Zagier(t));
    }
  }

  /** Zagier's map has a single fixed windmill. */
  lemma ZagierFixedWindmills(p: nat)
    requires Prime(p) && p % 4 == 1
    ensures FixedPoints(Windmills(p), Zagier) == {Windmill(1, 1, (p - 1) / 4)}
  {
    var only := Windmill(1, 1, (p - 1) / 4);
    forall t | t in Windmills(p)
      ensures Zagier(t) == t <==> t == only
    {
      WindmillsMembers(p, t);
      ZagierFixedPoint(p, t);
    }
    WindmillsMembers(p, only);
  }

  /** Exchanging y and z is an involution of the set of windmills of any p. */
  lemma SwapOnWindmills(p: nat)
    ensures forall t :: t in Windmills(p) ==> Swap(t) in Windmills(p) && Swap(Swap(t)) == t
  {
    forall t | t in Windmills(p)
      ensures Swap(t) in Windmills(p) && Swap(Swap(t)) == t
    {
      WindmillsMembers(p, t);
      assert 4 * t.z * t.y == 4 * t.y * t.z;
      WindmillsMembers(p, Swap(t));
    }
  }

  /** The windmills of a prime p ≡ 1 (mod 4) are odd in number. */
  lemma WindmillsOdd(p: nat)
    requires Prime(p) && p % 4 == 1
    ensures |Windmills(p)| % 2 == 1
  {
    ZagierOnWindmills(p);
    InvolutionParity(Windmills(p), Zagier);
    ZagierFixedWindmills(p);
  }

  /** Fermat: a prime p ≡ 1 (mod 4) is a sum of two positive squares. */
  lemma FermatTwoSquares(p: nat) returns (a: nat, b: nat)
    requires Prime(p) && p % 4 == 1
    ensures a > 0 && b > 0 && a * a + b * b == p
  {
    WindmillsOdd(p);
    SwapOnWindmills(p);
    InvolutionParity(Windmills(p), Swap);
    var fixed := FixedPoints(Windmills(p), Swap);
    assert |fixed| % 2 == 1;
    assert fixed != {};
    var t :| t in fixed;
    WindmillsMembers(p, t);
    a, b := t.x, 2 * t.y;
    SymmetricWindmill(p, t);
  }

  /** A windmill with y = z is the decomposition p = x² + (2y)². */
  lemma SymmetricWindmill(p: int, t: Windmill)
    requires OnWindmill(p, t) && t.y == t.z
    ensures t.x * t.x + (2 * t.y) * (2 * t.y) == p
  {
  }
}
