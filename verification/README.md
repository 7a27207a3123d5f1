# gomathpro polynomial core in Dafny

This project models the `polynomial` package of gomathpro
(`internal/polynomial/polynomial.go`) and proves properties of the model. The package has four operations:

- `ParsePolynomial` reads a polynomial written in `x`, such as
  `"x^2 - 5x + 6"`, and returns its coefficient vector, constant term first.
- `FindRoots` returns the roots of a coefficient vector. Linear and quadratic
  vectors are solved in closed form; longer ones go to a Durand–Kerner iteration.
- `Factorize` returns the linear factors `(x - r)` of a linear or quadratic
  polynomial with real roots.
- `Interpolate` sets up the Vandermonde system through a list of points and
  solves it.

All arithmetic is on exact reals, not on `float64`.

The modules, one or two per concern:

- `Text` (`text.dfy`): character classes, space removal, and `strconv.ParseFloat`
  and `strconv.Atoi` on the strings that can reach them, with their range
  errors (float64 overflow from 2^1024 - 2^970, and ints above 2^63 - 1).
- `Terms` (`terms.dfy`): the term pattern `([+-]?\d*\.?\d*x\^?\d*|[-+]?\d*\.?\d+)`.
  - `ScanTerm` is the match at the start of a string, proved to be RE2's
    leftmost-first choice against the two alternatives written as languages.
  - `FindAll` is `FindAllString`.
  - `Tokenize` is a term-by-term reading that fails at the first position where
    no term starts.
- `Parser` (`parser.dfy`): `Parse`, the specification of `ParsePolynomial`.
  - `ParsePolynomial` itself is a method, with its two passes as loops: a
    largest-degree scan, then coefficient accumulation into an array.
  - The lemmas say which input gives which outcome.
- `ComplexNumbers`, `Evaluation` (`complex.dfy`, `evaluate.dfy`): complex
  arithmetic and `evaluatePolynomial`, proved equal to Horner's rule.
- `QuadraticAlgebra`, `Roots` (`algebra.dfy`, `roots.dfy`): the quadratic formula,
  Vieta's relations, and `FindRoots` with its dispatch on the vector length.
- `Factorization` (`factorize.dfy`): `Factorize`, with each factor given by its root.
- `Interpolation` (`interpolate.dfy`): `Interpolate` as a method that fills an
  `n x n` array and a vector in nested loops. The linear solver is a parameter.
- `ParserExamples`, `SingleTermExamples`, `RootsExamples`,
  `InterpolationExamples`: the expected values of the package's unit tests,
  proved from the model.

External pieces are parameters:

- `math.Sqrt` is a function `sqrt` that is exact on non-negative arguments (`IsSqrt`).
- The Durand–Kerner iteration is a function `iterate`.
- gonum's `SolveVec` is a function `solve` that returns a solution or nothing.

## Model

| member | source | states |
|---|---|---|
| Text.Atoi | internal/polynomial/polynomial.go:41-44 | Succeeds exactly on a non-empty digit string whose value fits in a 64-bit int, and then returns that value |
| Text.NaturalOfDecimalString | internal/polynomial/polynomial.go:41-44 | The digits of a number, printed most significant first, read back as that number |
| Text.AtoiRoundTrip | internal/polynomial/polynomial.go:41-44 | Atoi reads back every printed number up to 2^63 - 1 and rejects every printed number above it |
| Text.Magnitude | internal/polynomial/polynomial.go:73-76 | An unsigned decimal reads as a non-negative value, never from the empty string, and a digit string reads as its integer value |
| Text.DecimalValue | internal/polynomial/polynomial.go:73-76 | `w.f` with at least one digit reads as the number `wf` divided by 10 per digit of f (so "1.5" is 3/2, ".5" is 1/2, "2." is 2) |
| Text.DotAlone | internal/polynomial/polynomial.go:73-76 | A dot without digits is no number |
| Text.UnsignedIntegerConverts | internal/polynomial/polynomial.go:97-101 | A digit string parses to its integer value when that is below float64's overflow bound, and is a range error otherwise |
| Text.NegativeConverts | internal/polynomial/polynomial.go:70-76 | A leading '-' negates the magnitude that follows; a magnitude from the overflow bound up is a range error |
| Text.PositiveConverts | internal/polynomial/polynomial.go:68-76 | A leading '+' leaves the magnitude that follows unchanged; a magnitude from the overflow bound up is a range error |
| Text.NegativeIntegerConverts | internal/polynomial/polynomial.go:70-76 | "-" followed by digits parses to minus their value below the overflow bound, and is a range error from it up |
| Text.PositiveIntegerConverts | internal/polynomial/polynomial.go:68-76 | "+" followed by digits parses to their value below the overflow bound, and is a range error from it up |
| Text.RemoveSpacesKeeps | internal/polynomial/polynomial.go:17 | Removing spaces leaves no space, keeps every other character as often as it occurs, and leaves a space-free string unchanged |
| Text.RemoveSpacesAppend | internal/polynomial/polynomial.go:17 | Removing spaces distributes over concatenation |
| Terms.ScanTerm | internal/polynomial/polynomial.go:20 | A match at the start of a string is a non-empty prefix of it |
| Terms.MatchVariableLongest | internal/polynomial/polynomial.go:20 | The first alternative reads the longest prefix in its language, and fails only when no prefix is in it |
| Terms.MatchNumberLongest | internal/polynomial/polynomial.go:20 | The second alternative reads the longest prefix in its language, and fails only when no prefix is in it |
| Terms.ScanTermLeftmostFirst | internal/polynomial/polynomial.go:20 | The match is the longest `x` term if any prefix is one; otherwise it is the longest number; no match exactly when no prefix is in either language |
| Terms.ScanTermWellFormed | internal/polynomial/polynomial.go:20 | Every match has a sign of at most one character, a mantissa with at most one dot, and digits after `x` or `x^` |
| Terms.FindAllWellFormed | internal/polynomial/polynomial.go:21 | Every term FindAllString returns is well formed |
| Terms.ScanDigits | internal/polynomial/polynomial.go:20 | A string of digits is matched whole by the second alternative, as one constant term |
| Terms.FindAllEmpty | internal/polynomial/polynomial.go:21-25 | FindAllString finds nothing exactly when no position starts a match |
| Terms.FindAllTiles | internal/polynomial/polynomial.go:21-30 | The joined matches spell the whole string exactly when reading term after term never gets stuck |
| Terms.FindAllIsTokenize | internal/polynomial/polynomial.go:21-30 | When the string can be read term after term, FindAllString returns exactly those terms |
| Terms.TokenizeJoins | internal/polynomial/polynomial.go:27-30 | The terms read term after term join back to the string |
| Terms.FindAllFirst | internal/polynomial/polynomial.go:21 | A match at the start is the first term found, and the search resumes right after it |
| Terms.FindAllSkipFirst | internal/polynomial/polynomial.go:21 | A character where no match starts is skipped |
| Parser.FirstFailing | internal/polynomial/polynomial.go:35-44 | The reported term is one of the terms, and the conversion fails on it |
| Parser.ParsePolynomial | internal/polynomial/polynomial.go:15-106 | The method returns exactly what the specification Parse gives for the input, errors included |
| Parser.LargestDegree | internal/polynomial/polynomial.go:34-53 | The first pass reports the first term whose exponent Atoi rejects; otherwise it returns the largest degree (`x^k` gives k, bare `x` gives 1, constants give 0) |
| Parser.AddCoefficients | internal/polynomial/polynomial.go:56-103 | The second pass reports the first term whose coefficient does not parse; otherwise slot k of the zeroed vector ends up holding the sum of the degree-k coefficients |
| Parser.DegreeBelowMax | internal/polynomial/polynomial.go:45-56 | No term's degree exceeds the largest, so every slot the second pass writes is in bounds |
| Parser.NoTermsFound | internal/polynomial/polynomial.go:20-25 | No terms are found exactly when no position of the space-stripped input starts a match |
| Parser.ParseNoTerms | internal/polynomial/polynomial.go:20-25 | The "invalid polynomial format" error occurs exactly when no position of the stripped input starts a match |
| Parser.TermsTile | internal/polynomial/polynomial.go:27-30 | The terms found join to the stripped input exactly when it can be read term after term, and are then those terms |
| Parser.ParseUnmatched | internal/polynomial/polynomial.go:27-30 | The unmatched-text error occurs exactly when terms exist but the input cannot be read term after term |
| Parser.ParseSucceeds | internal/polynomial/polynomial.go:23-105 | Success exactly when the input reads term after term into at least one term and every exponent and every coefficient converts |
| Parser.ParseResult | internal/polynomial/polynomial.go:34-105 | On success: the terms spell the stripped input; every degree is below the vector's length and some term has the top degree; slot k is the sum of the degree-k coefficients; no degree past the end carries a coefficient |
| Parser.MaxDegreeAttained | internal/polynomial/polynomial.go:34-53 | The largest degree is the degree of some term |
| Parser.CoefficientSumAboveMax | internal/polynomial/polynomial.go:56 | The coefficients of any degree above the largest sum to zero |
| Parser.CoefficientSumAppend | internal/polynomial/polynomial.go:59-103 | The per-degree sums are additive over a split of the term list |
| Parser.CoefficientSumSwap | internal/polynomial/polynomial.go:59-103 | Swapping two runs of terms leaves every per-degree sum unchanged |
| Parser.MantissaConverts | internal/polynomial/polynomial.go:97 | Digits around at most one dot, ending in a digit, always have the syntax of a decimal |
| Parser.SignedMantissaConverts | internal/polynomial/polynomial.go:97 | Behind a sign, such a decimal parses to its signed value below the overflow bound, and is a range error from it up |
| Parser.SignedConverts | internal/polynomial/polynomial.go:68-76 | A sign in front of a magnitude: "-" negates it, "" and "+" keep it, below the overflow bound; from it up the parse is a range error |
| Parser.ConstantConverts | internal/polynomial/polynomial.go:95-101 | A constant term the pattern can match converts exactly when its magnitude is below the overflow bound |
| Parser.InvalidConstantOverflows | internal/polynomial/polynomial.go:97-100 | An invalid constant is reported only for a constant term, with that term's text, whose magnitude is beyond float64's range |
| Parser.HugeConstantRejected | internal/polynomial/polynomial.go:95-101 | An integer constant from the overflow bound up (309 digits or more) is reported as an invalid constant |
| Parser.ImplicitMagnitudes | internal/polynomial/polynomial.go:68-72 | The default magnitudes "1" and "-1" convert to 1 and -1 |
| Parser.ImplicitCoefficient | internal/polynomial/polynomial.go:64-94 | A term with nothing before its `x` has coefficient 1, or -1 after a minus sign |
| Parser.ExplicitCoefficient | internal/polynomial/polynomial.go:64-101 | A term with an integer magnitude has that magnitude, signed, as its coefficient, whatever its power; from the overflow bound up it has none |
| Parser.SignedIntegerConverts | internal/polynomial/polynomial.go:73-101 | A signed digit string converts to its signed value below the overflow bound, and is a range error from it up |
| Parser.MagnitudeRejectsX | internal/polynomial/polynomial.go:90-92 | A magnitude containing 'x' does not convert |
| Parser.ParseFloatRejectsX | internal/polynomial/polynomial.go:90-92 | No string containing 'x' converts |
| Parser.TrailingDigitsRejected | internal/polynomial/polynomial.go:82-92 | A bare `x` followed by digits (like `x2`) has an unparseable coefficient, because trimming the suffix keeps its `x` |
| Parser.SpacesIgnored | internal/polynomial/polynomial.go:17 | Inserting a space anywhere does not change the result |
| ParserExamples.ParseFive | internal/polynomial/polynomial_test.go:51 | "5" parses to [5] |
| ParserExamples.ParseMinusX | internal/polynomial/polynomial_test.go:55 | "-x" parses to [0, -1] |
| ParserExamples.ParseLinear | internal/polynomial/polynomial_test.go:57 | "2x+1" parses to [1, 2] |
| ParserExamples.ParseQuadratic | internal/polynomial/polynomial_test.go:61 | "x^2 - 5x + 6", with or without its spaces, parses to [6, -5, 1] |
| ParserExamples.ParseCubic | internal/polynomial/polynomial_test.go:63 | "x^3 - 6x^2 + 11x - 6", with or without its spaces, parses to [-6, 11, -6, 1] |
| ParserExamples.ParseEmpty | internal/polynomial/polynomial_test.go:65 | "" has no terms |
| ParserExamples.ParseLetters | internal/polynomial/polynomial_test.go:66 | "abc" has no terms |
| ParserExamples.ParseCaretOnly | internal/polynomial/polynomial_test.go:67 | "x^" fails with an invalid degree |
| ParserExamples.ParseCaretFirst | internal/polynomial/polynomial_test.go:68 | "^2" fails with unmatched text |
| ParserExamples.ParseTwiceX | internal/polynomial/polynomial.go:20-30 | "xx" reads as two `x` terms and parses to [0, 2] |
| ParserExamples.ParseXTwo | internal/polynomial/polynomial.go:82-92 | "x2" passes the first pass with degree 1, then fails with an invalid coefficient |
| SingleTermExamples.ParseMinusThree | internal/polynomial/polynomial_test.go:52 | "-3" parses to [-3] |
| SingleTermExamples.ParseX | internal/polynomial/polynomial_test.go:54 | "x" parses to [0, 1] |
| SingleTermExamples.ParseTwoX | internal/polynomial/polynomial_test.go:56 | "2x" parses to [0, 2] |
| SingleTermExamples.ParseSquare | internal/polynomial/polynomial_test.go:59 | "x^2" parses to [0, 0, 1] |
| SingleTermExamples.ParseScaledSquare | internal/polynomial/polynomial_test.go:60 | "-3x^2" parses to [0, 0, -3] |
| ComplexNumbers.Power | internal/polynomial/polynomial.go:210 | z^0 is 1, and a power of a real number is real |
| ComplexNumbers.PowerOfReal | internal/polynomial/polynomial.go:210 | The complex power of a real number is its real power |
| ComplexNumbers.PowerConjugate | internal/polynomial/polynomial.go:210 | The power of the conjugate is the conjugate of the power |
| Evaluation.EvaluatePolynomial | internal/polynomial/polynomial.go:207-213 | The loop computes the sum of c[i] z^i, which equals Horner's rule c0 + z(c1 + z(...)) |
| Evaluation.EvalIsHorner | internal/polynomial/polynomial.go:207-213 | The term-by-term sum and Horner's rule agree on every polynomial and point |
| Evaluation.EvalAtReal | internal/polynomial/polynomial.go:207-213 | At a real point the value is real and equals the real sum |
| Evaluation.EvalConjugate | internal/polynomial/polynomial.go:207-213 | With real coefficients, the value at the conjugate point is the conjugate of the value |
| QuadraticAlgebra.QuadraticFormula | internal/polynomial/polynomial.go:145-152 | (-b ± s)/2a solves a r^2 + b r + c = 0 when s^2 is the discriminant |
| QuadraticAlgebra.ComplexQuadraticFormula | internal/polynomial/polynomial.go:138-144 | -b/2a ± i s/2a makes both parts of the quadratic vanish when s^2 is minus the discriminant |
| QuadraticAlgebra.Vieta | internal/polynomial/polynomial.go:146-148 | The two formula roots sum to -b/a and multiply to c/a |
| QuadraticAlgebra.Factored | internal/polynomial/polynomial.go:249-261 | Roots with Vieta's relations factor the quadratic as a (x - r1)(x - r2) |
| Roots.DurandKerner | internal/polynomial/polynomial.go:162-166 | A vector of degree below 1 has no roots |
| Roots.FindRootsFails | internal/polynomial/polynomial.go:109-158 | FindRoots fails exactly on an empty vector, a zero x coefficient in a line, or a zero x^2 coefficient in a quadratic, and with no other error |
| Roots.ConstantHasNoRoots | internal/polynomial/polynomial.go:155-166 | A single coefficient gives no roots and no error |
| Roots.LinearRoot | internal/polynomial/polynomial.go:115-125 | A line gives one real root, which solves it, and no other real number does |
| Roots.RealPairSolves | internal/polynomial/polynomial.go:145-152 | With a non-negative discriminant both real roots solve the quadratic |
| Roots.ComplexPairSolves | internal/polynomial/polynomial.go:138-144 | With a negative discriminant both complex roots solve the quadratic |
| Roots.QuadraticRootsSolve | internal/polynomial/polynomial.go:127-153 | Both roots of a quadratic solve it, whatever the sign of the discriminant |
| Roots.QuadraticRootsShape | internal/polynomial/polynomial.go:136-153 | A negative discriminant gives a conjugate pair with a nonzero imaginary part; otherwise two real roots, the +sqrt one first, with sum -c1/c2 and product c0/c2 |
| Roots.FindRootsSolves | internal/polynomial/polynomial.go:109-153 | Every closed-form root solves the polynomial, and there are degree-many of them |
| Roots.ConjugateRoot | internal/polynomial/polynomial.go:138-144 | With real coefficients, the conjugate of a root is a root |
| RootsExamples.FindRootsLine | internal/polynomial/polynomial_test.go:96-99 | 2x - 4 has the root 2 |
| RootsExamples.FindRootsFallingLine | internal/polynomial/polynomial_test.go:103-106 | -3x + 6 has the root 2 |
| RootsExamples.FindRootsQuadratic | internal/polynomial/polynomial_test.go:110-113 | x^2 - 5x + 6 has the roots 3 and 2, in that order |
| RootsExamples.FindRootsImaginary | internal/polynomial/polynomial_test.go:117-120 | x^2 + 1 has the roots i and -i |
| RootsExamples.FindRootsEmpty | internal/polynomial/polynomial_test.go:131-134 | No coefficients is an error |
| Factorization.FactorizeFails | internal/polynomial/polynomial.go:216-265 | Each error and exactly the inputs that cause it; more than three coefficients is an error whatever they are |
| Factorization.FactorizeSorted | internal/polynomial/polynomial.go:253-261 | There is one factor per degree, with roots in non-decreasing order |
| Factorization.FactorizeMatchesFindRoots | internal/polynomial/polynomial.go:226-261 | The roots are FindRoots' roots, all real, taken as a multiset |
| Factorization.FactorizeIffRealRoots | internal/polynomial/polynomial.go:245-248 | A quadratic factorizes exactly when FindRoots' roots are all real |
| Factorization.LineFactored | internal/polynomial/polynomial.go:233-235 | A line is c1 (x - r) for its root r |
| Factorization.QuadraticFactored | internal/polynomial/polynomial.go:249-261 | A quadratic whose roots satisfy Vieta's relations is c2 (x - r1)(x - r2), in either order |
| Factorization.QuadraticFactorShape | internal/polynomial/polynomial.go:237-261 | A factorized quadratic has a nonzero leading coefficient and a non-negative discriminant, and its roots are the two formula roots in some order |
| Factorization.QuadraticFactorRoots | internal/polynomial/polynomial.go:249-261 | The returned roots satisfy Vieta's relations |
| Factorization.QuadraticFactorsMultiplyBack | internal/polynomial/polynomial.go:237-261 | The two factors multiply back to the quadratic at every x |
| Factorization.LineFactorsMultiplyBack | internal/polynomial/polynomial.go:226-235 | The single factor multiplies back to the line at every x |
| Factorization.FactorsMultiplyBack | internal/polynomial/polynomial.go:226-261 | The factors multiply back to the polynomial at every x |
| Factorization.QuadraticFactorRootIsRoot | internal/polynomial/polynomial.go:249-261 | Each returned root of a quadratic is a root of it |
| Factorization.LineFactorRootIsRoot | internal/polynomial/polynomial.go:233-235 | The returned root of a line is a root of it |
| Factorization.FactorRootIsRoot | internal/polynomial/polynomial.go:226-261 | Each returned root is a root of the polynomial |
| Factorization.FactorRootsAreRoots | internal/polynomial/polynomial.go:226-261 | Every returned root is a root of the polynomial |
| RootsExamples.FactorizeLine | internal/polynomial/polynomial_test.go:197-199 | 2x - 4 factors as (x - 2) |
| RootsExamples.FactorizeUnitLine | internal/polynomial/polynomial_test.go:202-204 | x + 1 factors as (x - -1) |
| RootsExamples.FactorizeQuadratic | internal/polynomial/polynomial_test.go:207-209 | x^2 - 5x + 6 factors as (x - 2)(x - 3), smaller root first |
| RootsExamples.FactorizeImaginary | internal/polynomial/polynomial_test.go:212-214 | x^2 + 1 has complex roots and does not factorize |
| RootsExamples.FactorizeCubic | internal/polynomial/polynomial_test.go:217-219 | A cubic is refused as too high a degree |
| Interpolation.PowerRow | internal/polynomial/polynomial.go:282-284 | Row i of the matrix holds x_i^j in column j |
| Interpolation.Vandermonde | internal/polynomial/polynomial.go:279-284 | The matrix has a row of powers per point |
| Interpolation.Ordinates | internal/polynomial/polynomial.go:279-286 | The right-hand side holds the y of every point |
| Interpolation.RowsOfVandermonde | internal/polynomial/polynomial.go:279-289 | The array the nested loops fill is the Vandermonde matrix |
| Interpolation.Interpolate | internal/polynomial/polynomial.go:269-300 | The method returns "no points" for an empty list, the solver's failure as an error, and otherwise the solution, copied entry by entry |
| Interpolation.InterpolateFails | internal/polynomial/polynomial.go:270-292 | Interpolate fails exactly when there are no points or the solver gives up |
| Interpolation.DotIsEval | internal/polynomial/polynomial.go:282-284 | A row of powers times the coefficients is the polynomial's value at that x |
| Interpolation.PassesThroughPoints | internal/polynomial/polynomial.go:274-299 | With a sound solver, the result has one coefficient per point and the polynomial passes through every point |
| InterpolationExamples.InterpolateLine | internal/polynomial/polynomial_test.go:240-255 | Through (0, 1) and (1, 3) the coefficients are [1, 2] |
| InterpolationExamples.InterpolateParabola | internal/polynomial/polynomial_test.go:257-273 | Through (0, 0), (1, 1) and (2, 4) the coefficients are [0, 0, 1] |
| InterpolationExamples.InterpolateNothing | internal/polynomial/polynomial_test.go:275-281 | No points is an error |

## Left out

- Floating point: every value is an exact real. Rounding is not modelled anywhere: not in `strconv.ParseFloat`, not in `c1*c1 - 4*c2*c0`, not in the divisions, and not in `math.Pow`. `strconv.ParseFloat`'s range error is modelled: a magnitude from 2^1024 - 2^970 up is rejected. Overflow to infinity in the later arithmetic is not modelled.
- `math.Sqrt` is the parameter `sqrt`. The proofs assume only that it is exact on non-negative arguments; NaN for negative arguments is not modelled, and the source never takes the root of a negative number.
- `cmplx.Pow(x, i)` in `evaluatePolynomial` is repeated multiplication, and `math.Pow(x, j)` in `Interpolate` is repeated real multiplication. Both exponents are non-negative integers.
- The Durand–Kerner iteration (`internal/polynomial/polynomial.go:168-203`) is the parameter `iterate`, and nothing is proved about the roots it returns. Only its guard for degree below 1 is modelled. The reason is that the iteration's convergence is a floating-point matter.
- gonum's `SolveVec` is the parameter `solve`.
  - `Interpolation.Interpolate` requires the solver to return one entry per unknown (`KeepsSize`). That is gonum's contract for a solution vector; without it the copy loop could read past the end.
  - Which matrices are singular is not modelled: a failed solve is any `None`.
  - `PassesThroughPoints` assumes a sound solver.
- `fmt.Sprintf("(x - %.2f)", r)` formatting: `Factorization.Factorize` returns the roots r, not the strings. Error values are constructors of an error datatype, not message strings.
- `Text.ParseFloat` models `strconv.ParseFloat` only on the strings the term pattern can produce: signs, digits, '.' and 'x'. It does not model hexadecimal floats, exponents, "inf", "nan" or underscores, because they cannot occur here.
- Two branches are unreachable and have no counterpart in the model:
  - The `len(parts) != 2` error (`internal/polynomial/polynomial.go:37-40`) cannot fire, because a matched term has at most one '^'.
  - The `term == ""` skip (`internal/polynomial/polynomial.go:60-62`) cannot fire, because every match is non-empty.
- The allocation `make([]float64, maxDegree+1)` (`internal/polynomial/polynomial.go:56`) is unbounded in the model. In Go, a huge exponent that fits in an int makes the program panic ("makeslice: len out of range", above the largest allocation the platform allows) or run out of memory. A degree of exactly 2^63 - 1 makes `maxDegree+1` wrap to a negative length, which panics too. The model simply returns a vector of the mathematical length.
- The CLI (`cmd/`, `main.go`), the expression evaluator (`internal/evaluator/`) and the test harnesses are not part of this model. The test files serve only as the source of the expected values proved in the example modules.
