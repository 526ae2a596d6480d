# Gaussian-integer factoriser, modelled in Dafny

This project models `src/utils/gaussianIntegers.ts`. That file factorises an ordinary integer
into Gaussian primes, the primes of ℤ[i]. It prints each factor as a LaTeX-style display token,
and it compresses repeated tokens into exponent notation. The model covers every part of that
file:

- **`GaussianInteger`** (module `Gaussian`). A value type with `re` and `im` parts, its norm, its
  conjugate, and Gaussian multiplication. `Product` multiplies out a list of factors.
- **`toString`** (module `Display`). The exact case table: `0`, `i`, `-i`, `bi`, `r`, `(r + i)`,
  `(r - i)`, `(r ± |b|i)`. A parser for that format is the partner definition: printing then
  parsing gives back the value, so printing is injective.
- **`isPrime`, `isGaussianPrime`, `gcd`** (module `Primality`).
  - `IsPrime` is the 6k±1 trial-division loop. It is proved to agree with the plain definition of
    a prime, and with trial division up to the square root.
  - `IsGaussianPrime` is the three-way case split of the source.
  - `Gcd` is the Euclid loop. It uses JavaScript's truncating `%`, written out as `JsRem`. The
    result is proved to be the greatest common divisor in the divisibility order.
- **`compressFactors`** (module `Compression`).
  - `CountOccurrences` is the counting loop. It fills a JavaScript `Map`, modelled as the Map's
    key sequence in insertion order plus a `map` of counts.
  - `CompressFactors` renders the result. It is proved equal to `Compressed`, a reference
    definition: each distinct token once, in order of first occurrence, with its number of
    occurrences as exponent.
- **`factorizeGaussianInteger`** (modules `Factorization` and `Factorizer`).
  - `CollectFactors` has the source's loops: the sign units, the factors 2, odd trial division
    with the downward sum-of-two-squares search, and the leftover prime. It is proved equal to
    `RawFactors`, an independent reference definition. `RawFactors` takes the signs, then splits
    each rational prime of the ascending prime factorisation of |n|.
  - About `RawFactors` the model proves two things:
    - multiplying it out gives back n;
    - every factor other than the two sign units `i` is a Gaussian prime in the sense of
      `isGaussianPrime`.
  - `FactorizeGaussianInteger` adds the 0 and 1 cases, printing and compression.
- **Fermat's two-squares theorem** (module `TwoSquares`). It is proved via Zagier's one-sentence
  involution on windmills. Without it the model cannot show that the search for a sum of two
  squares always succeeds for a prime p ≡ 1 (mod 4). Without that, it cannot show the product
  property either.
- **`ISqrt`** (module `Arith`). An exact integer square root, standing in for
  `Math.floor(Math.sqrt(·))`.

Since 5 = 1² + 2², it could also be written `(1 + 2i)(1 - 2i)`. The code searches downward from
⌊√5⌋ = 2 and produces `(2 + i)`, `(2 - i)`; `Factorizer.FactorizeFive` states that answer.

## Model

| member | source | states |
|---|---|---|
| Gaussian.GaussianInteger.Norm | src/utils/gaussianIntegers.ts:6-8 | the norm is never negative, and it is zero exactly for 0 |
| Gaussian.ConjugateInvolution | src/utils/gaussianIntegers.ts:11-13 | conjugating twice gives back the original value |
| Gaussian.GaussianInteger.Conjugate | src/utils/gaussianIntegers.ts:11-13 | the conjugate has the same norm; ConjugateInvolution states that conjugating twice gives the original back |
| Gaussian.MulConjugate | src/utils/gaussianIntegers.ts:6-13 | g times its conjugate is the rational integer norm(g), which is why a pushed pair (a, b), (a, -b) multiplies to a² + b² |
| Gaussian.NormMultiplicative | src/utils/gaussianIntegers.ts:6-8 | the norm of a product is the product of the norms |
| Gaussian.ProductAppend | src/utils/gaussianIntegers.ts:97-153 | the product of a concatenated factor list is the product of the two products |
| Display.IntRoundTrip | src/utils/gaussianIntegers.ts:21-28 | the decimal rendering of an integer (template-literal interpolation) parses back to that integer, contains no space, and ends in a digit |
| Display.ToString | src/utils/gaussianIntegers.ts:16-29 | the case table of toString; every token is non-empty and starts with "(" exactly when both parts are nonzero; ParseToString and ToStringInjective give it its inverse |
| Display.ParseToString | src/utils/gaussianIntegers.ts:16-29 | parsing the display token of any Gaussian integer gives back that Gaussian integer, across every branch of the case table |
| Display.ParenthesisedRoundTrip | src/utils/gaussianIntegers.ts:26-28 | the parenthesised forms "(r + i)", "(r - i)" and "(r + bi)" or "(r - bi)" with the magnitude of b parse back to (r, b) |
| Display.ToStringInjective | src/utils/gaussianIntegers.ts:16-29 | two Gaussian integers print the same token if and only if they are equal |
| Primality.IsPrime | src/utils/gaussianIntegers.ts:43-51 | the 6k±1 trial-division loop returns true exactly when n is prime (n > 1 with no divisor strictly between 1 and n) |
| Primality.PrimeIffNoSmallDivisor | src/utils/gaussianIntegers.ts:47-50 | n > 1 is prime if and only if no d with 2 ≤ d and d·d ≤ n divides n |
| Primality.PrimeBySmallDivisors | src/utils/gaussianIntegers.ts:47-50 | no divisor below a k with k·k > n is enough for primality, which is why the loop stops at i·i > n |
| Primality.SkipNonCandidate | src/utils/gaussianIntegers.ts:46-48 | once 2 and 3 do not divide n, no d other than 6k±1 divides n, so skipping them loses nothing |
| Primality.IsGaussianPrime | src/utils/gaussianIntegers.ts:54-69 | the three-way case split of isGaussianPrime; an accepted value has norm above 1 and is not a unit, and GaussianPrimeConjugate and GaussianPrimeAssociate show the test is closed under conjugates and associates |
| Primality.GaussianPrimeConjugate | src/utils/gaussianIntegers.ts:54-69 | the three-way test accepts g if and only if it accepts the conjugate of g |
| Primality.GaussianPrimeAssociate | src/utils/gaussianIntegers.ts:54-69 | the three-way test accepts g if and only if it accepts i·g, so the real-axis and imaginary-axis cases agree |
| Primality.Gcd | src/utils/gaussianIntegers.ts:33-40 | the Euclid loop with truncating % returns a non-negative value that is 0 exactly when both inputs are 0, otherwise divides both inputs and is divided by every common divisor |
| Primality.JsRem | src/utils/gaussianIntegers.ts:36 | JavaScript's % is smaller in magnitude than the divisor and takes the dividend's sign |
| Primality.CommonDivisorStep | src/utils/gaussianIntegers.ts:34-37 | replacing (a, b) by (b, a - q·b) keeps exactly the same common divisors |
| Compression.Distinct | src/utils/gaussianIntegers.ts:81 | the Map's keys are exactly the tokens that occur |
| Compression.CountOccurrences | src/utils/gaussianIntegers.ts:73-78 | after the counting loop the keys are the distinct tokens in order of first insertion, and each count is the token's number of occurrences |
| Compression.CountedStep | src/utils/gaussianIntegers.ts:77 | one update of the count of a factor (0 when absent, plus 1) turns the Map of a prefix into the Map of the prefix extended by that factor |
| Compression.CompressFactors | src/utils/gaussianIntegers.ts:72-85 | the result is each distinct token once, in order of first occurrence, with its occurrence count as exponent |
| Compression.RenderedCounts | src/utils/gaussianIntegers.ts:81-84 | rendering a Map built from the factors gives the reference compression of those factors |
| Compression.RenderedIndex | src/utils/gaussianIntegers.ts:81-84 | the j-th rendered token is the j-th key with its count as exponent |
| Compression.DistinctMembers | src/utils/gaussianIntegers.ts:72-85 | no token is emitted twice |
| Compression.DistinctFirstSeen | src/utils/gaussianIntegers.ts:72-85 | tokens are emitted in the order of their first occurrence in the input |
| Compression.Power | src/utils/gaussianIntegers.ts:82-83 | a token with its exponent is the bare token exactly when the count is 1, and otherwise extends the token; CompressedExponents ties the count to the occurrences |
| Compression.CompressedExponents | src/utils/gaussianIntegers.ts:82-83 | every exponent is at least 1, and a token that occurs once is emitted bare, without "^1" |
| Compression.CountsAddUp | src/utils/gaussianIntegers.ts:72-85 | the exponents add up to the number of input tokens |
| Arith.ISqrtBounds | src/utils/gaussianIntegers.ts:120 | ISqrt(n) is ⌊√n⌋: its square is at most n and the square of its successor exceeds n |
| Arith.ISqrtOfSquare | src/utils/gaussianIntegers.ts:123-124 | the square-root test b·b = b2 succeeds on a perfect square b2 and returns its root |
| Factorization.PrimeFactorsCorrect | src/utils/gaussianIntegers.ts:107-153 | the rational prime factorisation that trial division walks through consists of primes whose product is the input |
| Factorization.PrimeFactorsAscending | src/utils/gaussianIntegers.ts:107-134 | those primes come in ascending order, as trial division meets them |
| Factorization.SearchLegs | src/utils/gaussianIntegers.ts:120-130 | the downward search loop reports a hit (a, b) exactly when the reference search finds one, and reports a miss when it finds none |
| Factorization.SquareSearchHit | src/utils/gaussianIntegers.ts:121-129 | a hit (a, b) of the search from a0 satisfies 1 ≤ a ≤ a0 and a² + b² = p, and no larger candidate leaves a perfect square |
| Factorization.SquareSearchComplete | src/utils/gaussianIntegers.ts:121-129 | if some e in 1..a0 leaves a perfect square p - e², the search from a0 finds a hit |
| Factorization.SquareSearchSucceeds | src/utils/gaussianIntegers.ts:118-130 | for a prime p ≡ 1 (mod 4) the search from ⌊√p⌋ never comes back empty |
| Factorization.SquareSearchFinds | src/utils/gaussianIntegers.ts:118-130 | for a prime p ≡ 1 (mod 4) the search returns (a, b) with a² + b² = p and a > b > 0, where a is the largest first leg of any representation of p as a sum of two squares |
| Factorization.LegsDistinct | src/utils/gaussianIntegers.ts:118-130 | an odd prime that is a sum of two squares a² + b² has a ≠ b, both positive |
| TwoSquares.FermatTwoSquares | src/utils/gaussianIntegers.ts:118-130 | every prime p ≡ 1 (mod 4) is a sum of two positive squares |
| Factorization.PrimeResidues | src/utils/gaussianIntegers.ts:107-153 | a prime is 2, or ≡ 1 (mod 4), or ≡ 3 (mod 4), so the case split of the loop leaves no prime unhandled |
| Factorization.PrimeSplitOdd | src/utils/gaussianIntegers.ts:116-130 | an odd prime p ≡ 3 (mod 4) is recorded as (p, 0); a prime p ≡ 1 (mod 4) is recorded as the pair (a, b), (a, -b) found by the search |
| Factorization.SplitOddPrime | src/utils/gaussianIntegers.ts:116-130 | the factors recorded for one odd prime are those of the reference split |
| Factorization.PrimeSplitProduct | src/utils/gaussianIntegers.ts:107-130 | the factors recorded for a prime q multiply out to q |
| Factorization.PrimeSplitGaussianPrime | src/utils/gaussianIntegers.ts:107-130 | every factor recorded for a prime passes the three-way Gaussian-primality test |
| Factorization.DivideStep | src/utils/gaussianIntegers.ts:115-132 | dividing out the smallest divisor p of remaining takes the first prime of its factorisation, and no divisor below p appears afterwards |
| Factorization.NextCandidate | src/utils/gaussianIntegers.ts:114 | when p does not divide remaining, moving to p + 2 skips no divisor |
| Factorization.LeftoverStep | src/utils/gaussianIntegers.ts:137 | once p·p exceeds remaining and no divisor below p is left, a remaining value above 1 is its own whole prime factorisation, so it is prime |
| Factorization.LeftoverFactor | src/utils/gaussianIntegers.ts:137-153 | the leftover value is odd, and recording its split completes the factor list |
| Factorization.RawFactorsProduct | src/utils/gaussianIntegers.ts:97-153 | for n ≠ 0 the reference factor list multiplies out to n, signs included |
| Factorization.RawFactorsGaussianPrime | src/utils/gaussianIntegers.ts:100-153 | a factor is the unit i exactly at the first two positions when n < 0, and every other factor passes the Gaussian-primality test |
| Factorization.CollectFactors | src/utils/gaussianIntegers.ts:97-153 | the loops (sign, factors 2, odd trial division with the two-squares search, leftover) record exactly the reference factor list |
| Factorizer.FactorizeGaussianInteger | src/utils/gaussianIntegers.ts:88-159 | the routine returns the reference answer: "0" for 0, "1" for 1, otherwise the compressed display tokens of the reference factor list |
| Factorizer.TokensCount | src/utils/gaussianIntegers.ts:155 | a display token occurs in the printed list exactly as often as its factor occurs in the factor list |
| Factorizer.FactorizedTokens | src/utils/gaussianIntegers.ts:155-158 | for n other than 0 and 1, every returned token is a recorded factor's display token with that factor's multiplicity as exponent, and that factor is i or a Gaussian prime |
| Factorizer.FactorizeZeroAndOne | src/utils/gaussianIntegers.ts:94-95 | 0 gives ["0"] and 1 gives ["1"] |
| Factorizer.FactorizeMinusOne | src/utils/gaussianIntegers.ts:100-104 | -1 gives ["i^2"]: the sign is two factors i, never a -1 unit |
| Factorizer.FactorizeTwo | src/utils/gaussianIntegers.ts:107-111 | 2 gives ["(1 + i)", "(1 - i)"] |
| Factorizer.FactorizeFour | src/utils/gaussianIntegers.ts:107-111 | 4 gives ["(1 + i)^2", "(1 - i)^2"] |
| Factorizer.FactorizeFive | src/utils/gaussianIntegers.ts:137-151 | 5 gives ["(2 + i)", "(2 - i)"], because the search starts at ⌊√5⌋ = 2 |
| Factorizer.FactorizeSeven | src/utils/gaussianIntegers.ts:137-139 | 7, a prime ≡ 3 (mod 4), gives ["7"] |

## Left out

- The `Number.isInteger` guard and its exception (`src/utils/gaussianIntegers.ts:90-92`) are not modelled: the input is a Dafny `int`, so the guard can never fire.
- `Math.sqrt` and `Math.floor` are modelled as the exact integer square root `ISqrt`. IEEE rounding is not modelled. The argument of the square root is never negative in either search.
- JavaScript's safe-integer limit (2⁵³) is not modelled: every number is an unbounded `int`, so the model says nothing about inputs where the source's floating-point arithmetic loses precision.
- The JavaScript `Map` is modelled as its key sequence in insertion order plus a `map` of counts. `Array.from(count.entries())` becomes the walk over that key sequence.
- The source runs the two-squares search twice, once in the trial-division loop and once for the leftover. Both copies are the same code, so the model has one method, `SplitOddPrime` (with `SearchLegs`), and calls it from both places.
- The source calls `gcd` nowhere. It is modelled only as the stand-alone `Gcd`.
- The user interface, layout, middleware and localisation files are not part of this model. They are presentation and framework glue around one call to `factorizeGaussianInteger`.
