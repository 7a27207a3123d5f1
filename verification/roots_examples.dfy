/**
 * FindRoots and Factorize on the coefficient vectors of their unit tests,
 * with any square root function that is exact.
 */
module RootsExamples {
  import opened Results
  import opened ComplexNumbers
  import opened QuadraticAlgebra
  import opened Roots
  import opened Factorization

  /** An exact square root of a perfect square returns its root. */
  lemma SqrtOf(sqrt: real -> real, v: real)
    requires IsSqrt(sqrt) && v >= 0.0
    ensures sqrt(v * v) == v
  {
    RootOfSquare(sqrt(v * v), v);
  }

  /** 2x - 4 has the root 2. */
  lemma FindRootsLine(sqrt: real -> real, iterate: seq<real> -> seq<Complex>)
    ensures FindRoots([-4.0, 2.0], sqrt, iterate) == Ok([FromReal(2.0)])
  {
  }

  /** -3x + 6 has the root 2. */
  lemma FindRootsFallingLine(sqrt: real -> real, iterate: seq<real> -> seq<Complex>)
    ensures FindRoots([6.0, -3.0], sqrt, iterate) == Ok([FromReal(2.0)])
  {
  }

  /** x^2 - 5x + 6 has the roots 3 and 2, the +sqrt root first. */
  lemma FindRootsQuadratic(sqrt: real -> real, iterate: seq<real> -> seq<Complex>)
    requires IsSqrt(sqrt)
    ensures FindRoots([6.0, -5.0, 1.0], sqrt, iterate) == Ok([FromReal(3.0), FromReal(2.0)])
  {
    assert Discriminant(1.0, -5.0, 6.0) == 1.0 * 1.0;
    SqrtOf(sqrt, 1.0);
  }

  /** x^2 + 1 has the roots i and -i. */
  lemma FindRootsImaginary(sqrt: real -> real, iterate: seq<real> -> seq<Complex>)
    requires IsSqrt(sqrt)
    ensures FindRoots([1.0, 0.0, 1.0], sqrt, iterate) == Ok([Complex(0.0, 1.0), Complex(0.0, -1.0)])
  {
    assert -Discriminant(1.0, 0.0, 1.0) == 2.0 * 2.0;
    SqrtOf(sqrt, 2.0);
  }

  lemma FindRootsEmpty(sqrt: real -> real, iterate: seq<real> -> seq<Complex>)
    ensures FindRoots([], sqrt, iterate) == Err(NoCoefficients)
  {
  }

  /** 2x - 4 factors as (x - 2). */
  lemma FactorizeLine(sqrt: real -> real)
    ensures Factorize([-4.0, 2.0], sqrt) == Ok([2.0])
  {
  }

  /** x + 1 factors as (x + 1), the root -1. */
  lemma FactorizeUnitLine(sqrt: real -> real)
    ensures Factorize([1.0, 1.0], sqrt) == Ok([-1.0])
  {
  }

  /** x^2 - 5x + 6 factors as (x - 2)(x - 3), smaller root first. */
  lemma FactorizeQuadratic(sqrt: real -> real)
    requires IsSqrt(sqrt)
    ensures Factorize([6.0, -5.0, 1.0], sqrt) == Ok([2.0, 3.0])
  {
    assert Discriminant(1.0, -5.0, 6.0) == 1.0 * 1.0;
    SqrtOf(sqrt, 1.0);
  }

  /** x^2 + 1 has no real factors. */
  lemma FactorizeImaginary(sqrt: real -> real)
    ensures Factorize([1.0, 0.0, 1.0], sqrt) == Err(ComplexRoots)
  {
  }

  /** A cubic is refused before its coefficients are looked at. */
  lemma FactorizeCubic(sqrt: real -> real)
    ensures Factorize([-6.0, 11.0, -6.0, 1.0], sqrt) == Err(DegreeTooHigh)
  {
  }
}
