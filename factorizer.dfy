/** The factoriser's entry point, factorizeGaussianInteger: 0 and 1 are answered
    directly; any other integer has its Gaussian factors recorded, printed as display
    tokens and compressed into exponent notation. */
module Factorizer {
  import opened Arith
  import opened Gaussian
  import opened Primality
  import opened Factorization
  import opened Display
  import opened Compression
  import opened Wrappers

  /** The display tokens of a list of factors, in order. */
  function Tokens(factors: seq<GaussianInteger>): seq<string>
  {
    seq(|factors|, k requires 0 <= k < |factors| => ToString(factors[k]))
  }

  /** What the factoriser returns for n. */
  function Factorized(n: int): seq<string>
  {
    if n == 0 then ["0"]
    else if n == 1 then ["1"]
    else Compressed(Tokens(RawFactors(n)))
  }

  /** The source's factorizeGaussianInteger. */
  method FactorizeGaussianInteger(n: int) returns (result: seq<string>)
    ensures result == Factorized(n)
  {
    if n == 0 {
      return ["0"];
    }
    if n == 1 {
      return ["1"];
    }
    var factors := CollectFactors(n);
    var tokens := Tokens(factors);
    result := CompressFactors(tokens);
  }

  /** Because printing is injective, a token occurs in the printed list exactly as often
      as its element occurs in the factor list. */
  lemma {:induction false} TokensCount(factors: seq<GaussianInteger>, g: GaussianInteger)
    ensures multiset(Tokens(factors))[ToString(g)] == multiset(factors)[g]
  {
    if factors != [] {
      var init := factors[..|factors| - 1];
      var last := factors[|factors| - 1];
      assert factors == init + [last];
      assert Tokens(factors) == Tokens(init) + [ToString(last)];
      TokensCount(init, g);
      ToStringInjective(g, last);
    }
  }

  /** token is the display token of factors[k], with the number of occurrences of that
      factor as exponent, and the factor is the unit i or passes the Gaussian-primality
      test. */
  ghost predicate TokenOf(token: string, factors: seq<GaussianInteger>, k: int)
  {
    0 <= k < |factors| &&
    token == Power(ToString(factors[k]), multiset(factors)[factors[k]]) &&
    (factors[k] == I || IsGaussianPrime(factors[k]))
  }

  ghost predicate TokenOfFactor(token: string, factors: seq<GaussianInteger>)
  {
    exists k :: TokenOf(token, factors, k)
  }

  /** Headline property of the output: for n other than 0 and 1, every returned token is
      the display token of a recorded factor, with the number of times that factor was
      recorded as its exponent, and that factor is the sign unit i or passes the
      Gaussian-primality test. */
  lemma FactorizedTokens(n: int)
    requires n != 0 && n != 1
    ensures forall j :: 0 <= j < |Factorized(n)| ==> TokenOfFactor(Factorized(n)[j], RawFactors(n))
  {
    var raw := RawFactors(n);
    var d := Distinct(Tokens(raw));
    RawFactorsGaussianPrime(n);
    forall j | 0 <= j < |Factorized(n)|
      ensures TokenOfFactor(Factorized(n)[j], raw)
    {
      assert d[j] in Tokens(raw);
      var k :| 0 <= k < |raw| && Tokens(raw)[k] == d[j];
      TokensCount(raw, raw[k]);
      assert Factorized(n)[j] == Power(ToString(raw[k]), multiset(raw)[raw[k]]);
      assert TokenOf(Factorized(n)[j], raw, k);
    }
  }

  // ---------------------------------------------------------------------------
  // What the factoriser returns for a few inputs
  // ---------------------------------------------------------------------------

  /** Distinct, one appended token at a time. */
  lemma DistinctSnoc(s: seq<string>, x: string)
    ensures Distinct(s + [x]) == if x in s then Distinct(s) else Distinct(s) + [x]
  {
    assert (s + [x])[..|s|] == s;
  }

  /** A single token is returned as it is. */
  lemma CompressedSingle(a: string)
    ensures Compressed([a]) == [a]
  {
    DistinctSnoc([], a);
    assert [] + [a] == [a];
    assert multiset([a])[a] == 1;
    assert Compressed([a])[0] == Power(a, 1);
  }

  /** Two different tokens, once each, come back in order and without exponents. */
  lemma CompressedPair(a: string, b: string)
    requires a != b
    ensures Compressed([a, b]) == [a, b]
  {
    DistinctSnoc([], a);
    assert [] + [a] == [a];
    DistinctSnoc([a], b);
    assert [a] + [b] == [a, b];
    assert multiset([a, b]) == multiset{a, b};
    assert Compressed([a, b])[0] == Power(a, 1);
    assert Compressed([a, b])[1] == Power(b, 1);
  }

  /** The numeral of 2. */
  lemma NumeralTwo()
    ensures NatToString(2) == "2"
  {
    assert DigitChar(2) == '2';
  }

  /** The exponent 2 is written "^2". */
  lemma PowerTwo(a: string)
    ensures Power(a, 2) == a + "^2"
  {
    NumeralTwo();
    assert (a + "^") + "2" == a + "^2";
  }

  /** A token seen twice gets the exponent 2. */
  lemma CompressedTwice(a: string)
    ensures Compressed([a, a]) == [a + "^2"]
  {
    DistinctSnoc([], a);
    assert [] + [a] == [a];
    DistinctSnoc([a], a);
    assert [a] + [a] == [a, a];
    assert multiset([a, a])[a] == 2;
    PowerTwo(a);
    assert Compressed([a, a])[0] == Power(a, 2);
  }

  /** Two different tokens seen twice each, alternately, both get the exponent 2. */
  lemma CompressedPairTwice(a: string, b: string)
    requires a != b
    ensures Compressed([a, b, a, b]) == [a + "^2", b + "^2"]
  {
    var s := [a, b, a, b];
    DistinctPairTwice(a, b);
    PairTwiceCounts(a, b);
    PowerTwo(a);
    PowerTwo(b);
    assert Compressed(s)[0] == Power(a, 2);
    assert Compressed(s)[1] == Power(b, 2);
  }

  /** Each of a and b occurs twice in a, b, a, b. */
  lemma PairTwiceCounts(a: string, b: string)
    requires a != b
    ensures multiset([a, b, a, b])[a] == 2 && multiset([a, b, a, b])[b] == 2
  {
    assert multiset([a, b, a, b]) == multiset{a, a, b, b};
  }

  /** The distinct tokens of a, b, a, b. */
  lemma DistinctPairTwice(a: string, b: string)
    requires a != b
    ensures Distinct([a, b, a, b]) == [a, b]
  {
    DistinctSnoc([], a);
    assert [] + [a] == [a];
    DistinctSnoc([a], b);
    assert [a] + [b] == [a, b];
    DistinctSnoc([a, b], a);
    assert [a, b] + [a] == [a, b, a];
    DistinctSnoc([a, b, a], b);
    assert [a, b, a] + [b] == [a, b, a, b];
  }

  /** The tokens of a concatenation. */
  lemma TokensAppend(s: seq<GaussianInteger>, t: seq<GaussianInteger>)
    ensures Tokens(s + t) == Tokens(s) + Tokens(t)
  {
  }

  /** The tokens of one or two factors. */
  lemma TokensShort(x: GaussianInteger, y: GaussianInteger)
    ensures Tokens([x]) == [ToString(x)]
    ensures Tokens([x, y]) == [ToString(x), ToString(y)]
  {
  }

  /** Single-digit numerals. */
  lemma SmallNumerals()
    ensures IntToString(1) == "1" && IntToString(2) == "2" && IntToString(7) == "7"
  {
    assert DigitChar(1) == '1' && DigitChar(2) == '2' && DigitChar(7) == '7';
  }

  /** The display tokens of the factors that occur below. */
  lemma SmallTokens()
    ensures ToString(GaussianInteger(1, 1)) == "(1 + i)" && ToString(GaussianInteger(1, -1)) == "(1 - i)"
    ensures ToString(GaussianInteger(2, 1)) == "(2 + i)" && ToString(GaussianInteger(2, -1)) == "(2 - i)"
    ensures ToString(GaussianInteger(7, 0)) == "7" && ToString(I) == "i"
  {
    SmallNumerals();
    assert "(" + "1" + " + i)" == "(1 + i)" && "(" + "1" + " - i)" == "(1 - i)";
    assert "(" + "2" + " + i)" == "(2 + i)" && "(" + "2" + " - i)" == "(2 - i)";
  }

  /** The tokens of the pair 1 ± i that each factor 2 contributes. */
  lemma TwoSplit()
    ensures PrimeSplit(2) == [GaussianInteger(1, 1), GaussianInteger(1, -1)]
    ensures Tokens(PrimeSplit(2)) == ["(1 + i)", "(1 - i)"]
  {
    SmallTokens();
    TokensShort(GaussianInteger(1, 1), GaussianInteger(1, -1));
  }

  /** 5 ≡ 1 (mod 4): the search starts at ⌊√5⌋ = 2 and finds 5 = 2² + 1² at once. */
  lemma FiveSplit()
    ensures PrimeSplit(5) == [GaussianInteger(2, 1), GaussianInteger(2, -1)]
    ensures Tokens(PrimeSplit(5)) == ["(2 + i)", "(2 - i)"]
  {
    ISqrtUnique(5, 2);
    ISqrtUnique(1, 1);
    assert SquareSearch(5, 2) == Some((2, 1));
    SmallTokens();
    TokensShort(GaussianInteger(2, 1), GaussianInteger(2, -1));
  }

  /** 0 and 1 are answered directly. */
  lemma FactorizeZeroAndOne()
    ensures Factorized(0) == ["0"] && Factorized(1) == ["1"]
  {
  }

  /** −1 is the unit i twice: "i^2". */
  lemma FactorizeMinusOne()
    ensures Factorized(-1) == ["i^2"]
  {
    assert RawFactors(-1) == [I, I];
    SmallTokens();
    TokensShort(I, I);
    CompressedTwice("i");
    assert "i" + "^2" == "i^2";
  }

  /** 2 splits as (1 + i)(1 − i). */
  lemma FactorizeTwo()
    ensures Factorized(2) == ["(1 + i)", "(1 - i)"]
  {
    LeftoverStep(2, 2);
    TwoSplit();
    assert RawFactors(2) == PrimeSplit(2);
    CompressedPair("(1 + i)", "(1 - i)");
  }

  /** 4 = 2² gives both factors of 2 squared. */
  lemma FactorizeFour()
    ensures Factorized(4) == ["(1 + i)^2", "(1 - i)^2"]
  {
    SmallestFactorIs(4, 2);
    LeftoverStep(2, 2);
    assert PrimeFactors(4) == [2, 2];
    TwoSplit();
    assert RawFactors(4) == PrimeSplit(2) + PrimeSplit(2);
    TokensAppend(PrimeSplit(2), PrimeSplit(2));
    assert Tokens(RawFactors(4)) == ["(1 + i)", "(1 - i)", "(1 + i)", "(1 - i)"];
    CompressedPairTwice("(1 + i)", "(1 - i)");
    assert "(1 + i)" + "^2" == "(1 + i)^2" && "(1 - i)" + "^2" == "(1 - i)^2";
  }

  /** 5 gives (2 + i)(2 − i): the search finds the larger leg first. */
  lemma FactorizeFive()
    ensures Factorized(5) == ["(2 + i)", "(2 - i)"]
  {
    LeftoverStep(5, 3);
    FiveSplit();
    assert RawFactors(5) == PrimeSplit(5);
    CompressedPair("(2 + i)", "(2 - i)");
  }

  /** 7 ≡ 3 (mod 4) stays prime. */
  lemma FactorizeSeven()
    ensures Factorized(7) == ["7"]
  {
    LeftoverStep(7, 3);
    assert RawFactors(7) == [GaussianInteger(7, 0)];
    SmallTokens();
    TokensShort(GaussianInteger(7, 0), GaussianInteger(7, 0));
    CompressedSingle("7");
  }
}
