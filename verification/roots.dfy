/**
 * FindRoots (internal/polynomial/polynomial.go): the roots of a polynomial
 * given by its coefficients, constant term first.  Linear and quadratic
 * polynomials are solved in closed form; anything else goes to the
 * Durand-Kerner iteration, which is a parameter of this model.
 */
module Roots {
  import opened Results
  import opened ComplexNumbers
  import opened Evaluation
  import opened QuadraticAlgebra

  /** The errors of FindRoots and Factorize, one per message they can return. */
  datatype Failure =
    | NoCoefficients     // "no coefficients provided"
    | InvalidLinear      // the coefficient of x is zero
    | InvalidQuadratic   // the coefficient of x^2 is zero
    | DegreeTooHigh      // Factorize: more than three coefficients
    | ComplexRoots       // Factorize: negative discriminant
    | UnsupportedDegree  // Factorize: a single coefficient

  /** `math.Sqrt` on non-negative arguments, taken as exact. */
  ghost predicate IsSqrt(sqrt: real -> real) {
    forall d: real {:trigger sqrt(d)} :: d >= 0.0 ==> sqrt(d) >= 0.0 && sqrt(d) * sqrt(d) == d
  }

  /**
   * findRootsDurandKerner: no roots for a polynomial of degree below 1;
   * otherwise whatever the iteration, a parameter here, converges to.
   */
  function DurandKerner(c: seq<real>, iterate: seq<real> -> seq<Complex>): (roots: seq<Complex>)
    ensures |c| < 2 ==> roots == []
  {
    if |c| - 1 < 1 then [] else iterate(c)
  }

  /** The two roots of c0 + c1 x + c2 x^2, in the order FindRoots returns them. */
  function QuadraticRoots(c0: real, c1: real, c2: real, sqrt: real -> real): seq<Complex>
    requires c2 != 0.0
  {
    var d := Discriminant(c2, c1, c0);
    if d < 0.0 then
      var re := -c1 / (2.0 * c2);
      var im := sqrt(-d) / (2.0 * c2);
      [Complex(re, im), Complex(re, -im)]
    else
      var s := sqrt(d);
      [FromReal((-c1 + s) / (2.0 * c2)), FromReal((-c1 - s) / (2.0 * c2))]
  }

  function FindRoots(c: seq<real>, sqrt: real -> real, iterate: seq<real> -> seq<Complex>): Result<seq<Complex>, Failure> {
    if |c| == 0 then Err(NoCoefficients)
    else if |c| == 2 then
      if c[1] == 0.0 then Err(InvalidLinear) else Ok([FromReal(-c[0] / c[1])])
    else if |c| == 3 then
      if c[2] == 0.0 then Err(InvalidQuadratic) else Ok(QuadraticRoots(c[0], c[1], c[2], sqrt))
    else Ok(DurandKerner(c, iterate))
  }

  // ---------------------------------------------------------------------
  // Properties.

  /** FindRoots fails exactly on an empty vector and on a zero leading coefficient of degree 1 or 2. */
  lemma FindRootsFails(c: seq<real>, sqrt: real -> real, iterate: seq<real> -> seq<Complex>)
    ensures FindRoots(c, sqrt, iterate) == Err(NoCoefficients) <==> |c| == 0
    ensures FindRoots(c, sqrt, iterate) == Err(InvalidLinear) <==> |c| == 2 && c[1] == 0.0
    ensures FindRoots(c, sqrt, iterate) == Err(InvalidQuadratic) <==> |c| == 3 && c[2] == 0.0
    ensures FindRoots(c, sqrt, iterate).Err? ==> FindRoots(c, sqrt, iterate).error in {NoCoefficients, InvalidLinear, InvalidQuadratic}
  {
  }

  /** A constant has no roots, and FindRoots does not report an error for it. */
  lemma ConstantHasNoRoots(c: seq<real>, sqrt: real -> real, iterate: seq<real> -> seq<Complex>)
    requires |c| == 1
    ensures FindRoots(c, sqrt, iterate) == Ok([])
  {
  }

  /**
   * A linear polynomial with c1 != 0 has the one real root -c0/c1; it is a
   * root, and no other real number is.
   */
  lemma LinearRoot(c: seq<real>, sqrt: real -> real, iterate: seq<real> -> seq<Complex>)
    requires |c| == 2 && c[1] != 0.0
    ensures var r := FindRoots(c, sqrt, iterate);
      r.Ok? && |r.value| == 1 && r.value[0].im == 0.0 && Eval(c, r.value[0]) == Zero
    ensures forall x: real :: Eval(c, FromReal(x)) == Zero <==> FromReal(x) == FindRoots(c, sqrt, iterate).value[0]
  {
    var r := -c[0] / c[1];
    assert c == [c[0], c[1]];
    EvalLinear(c[0], c[1], FromReal(r));
    forall x: real
      ensures Eval(c, FromReal(x)) == Zero <==> x == r
    {
      EvalLinear(c[0], c[1], FromReal(x));
      if c[0] + c[1] * x == 0.0 {
        assert c[1] * (x - r) == 0.0;
        ZeroProduct(c[1], x - r);
      }
    }
  }

  /** The value of c0 + c1 z + c2 z^2 in real and imaginary parts. */
  lemma QuadraticParts(c0: real, c1: real, c2: real, z: Complex)
    ensures Eval([c0, c1, c2], z).re == c0 + c1 * z.re + c2 * (z.re * z.re - z.im * z.im)
    ensures Eval([c0, c1, c2], z).im == c1 * z.im + c2 * (z.re * z.im + z.im * z.re)
  {
    EvalQuadratic(c0, c1, c2, z);
    var m := Mul(z, z);
    MulReal(c2, m);
  }

  /** A point whose parts cancel both parts of the quadratic is a root. */
  lemma PartsVanish(c0: real, c1: real, c2: real, z: Complex)
    requires c0 + c1 * z.re + c2 * (z.re * z.re - z.im * z.im) == 0.0
    requires c1 * z.im + c2 * (z.re * z.im + z.im * z.re) == 0.0
    ensures Eval([c0, c1, c2], z) == Zero
  {
    QuadraticParts(c0, c1, c2, z);
  }

  /** A real root of the quadratic, as a real number, is a root as a complex one. */
  lemma RealRootSolves(c0: real, c1: real, c2: real, r: real)
    requires Quadratic(c2, c1, c0, r) == 0.0
    ensures Eval([c0, c1, c2], FromReal(r)) == Zero
  {
    PartsVanish(c0, c1, c2, FromReal(r));
  }

  /** -b/2a +- i s/2a, with s^2 the negated discriminant, is a root. */
  lemma ComplexRootSolves(c0: real, c1: real, c2: real, s: real, z: Complex)
    requires c2 != 0.0 && s * s == -Discriminant(c2, c1, c0)
    requires z.re == -c1 / (2.0 * c2) && (z.im == s / (2.0 * c2) || z.im == -(s / (2.0 * c2)))
    ensures Eval([c0, c1, c2], z) == Zero
  {
    ComplexQuadraticFormula(c2, c1, c0, s, z.re, z.im);
    PartsVanish(c0, c1, c2, z);
  }

  lemma ComplexPairSolves(c0: real, c1: real, c2: real, sqrt: real -> real)
    requires c2 != 0.0 && IsSqrt(sqrt) && Discriminant(c2, c1, c0) < 0.0
    ensures var rs := QuadraticRoots(c0, c1, c2, sqrt);
      |rs| == 2 && Eval([c0, c1, c2], rs[0]) == Zero && Eval([c0, c1, c2], rs[1]) == Zero
  {
    var rs := QuadraticRoots(c0, c1, c2, sqrt);
    var s := sqrt(-Discriminant(c2, c1, c0));
    ComplexRootSolves(c0, c1, c2, s, rs[0]);
    ComplexRootSolves(c0, c1, c2, s, rs[1]);
  }

  lemma RealPairSolves(c0: real, c1: real, c2: real, sqrt: real -> real)
    requires c2 != 0.0 && IsSqrt(sqrt) && Discriminant(c2, c1, c0) >= 0.0
    ensures var rs := QuadraticRoots(c0, c1, c2, sqrt);
      |rs| == 2 && Eval([c0, c1, c2], rs[0]) == Zero && Eval([c0, c1, c2], rs[1]) == Zero
  {
    var rs := QuadraticRoots(c0, c1, c2, sqrt);
    var s := sqrt(Discriminant(c2, c1, c0));
    QuadraticFormula(c2, c1, c0, s, rs[0].re);
    RealRootSolves(c0, c1, c2, rs[0].re);
    QuadraticFormula(c2, c1, c0, s, rs[1].re);
    RealRootSolves(c0, c1, c2, rs[1].re);
  }

  /** Both roots of a quadratic satisfy it, for either sign of the discriminant. */
  lemma QuadraticRootsSolve(c0: real, c1: real, c2: real, sqrt: real -> real)
    requires c2 != 0.0 && IsSqrt(sqrt)
    ensures var rs := QuadraticRoots(c0, c1, c2, sqrt);
      |rs| == 2 && Eval([c0, c1, c2], rs[0]) == Zero && Eval([c0, c1, c2], rs[1]) == Zero
  {
    if Discriminant(c2, c1, c0) < 0.0 {
      ComplexPairSolves(c0, c1, c2, sqrt);
    } else {
      RealPairSolves(c0, c1, c2, sqrt);
    }
  }

  /**
   * The shape of the quadratic roots: a conjugate pair with nonzero imaginary
   * part when the discriminant is negative, otherwise two real roots, the
   * one with +sqrt first, with sum -c1/c2 and product c0/c2.
   */
  lemma QuadraticRootsShape(c0: real, c1: real, c2: real, sqrt: real -> real)
    requires c2 != 0.0 && IsSqrt(sqrt)
    ensures var rs, d := QuadraticRoots(c0, c1, c2, sqrt), Discriminant(c2, c1, c0);
      && (d < 0.0 ==> rs[1] == Conjugate(rs[0]) && rs[0].im != 0.0)
      && (d >= 0.0 ==> rs[0].im == 0.0 && rs[1].im == 0.0
                       && rs[0].re == (-c1 + sqrt(d)) / (2.0 * c2) && rs[1].re == (-c1 - sqrt(d)) / (2.0 * c2)
                       && c2 * (rs[0].re + rs[1].re) == -c1 && c2 * (rs[0].re * rs[1].re) == c0)
  {
    var d := Discriminant(c2, c1, c0);
    if d < 0.0 {
      var s := sqrt(-d);
      assert s * s == -d;
      assert s / (2.0 * c2) != 0.0;
    } else {
      var s := sqrt(d);
      Vieta(c2, c1, c0, s, (-c1 + s) / (2.0 * c2), (-c1 - s) / (2.0 * c2));
    }
  }

  /** Every root FindRoots computes in closed form satisfies the polynomial. */
  lemma FindRootsSolves(c: seq<real>, sqrt: real -> real, iterate: seq<real> -> seq<Complex>)
    requires IsSqrt(sqrt) && (|c| == 2 || |c| == 3)
    requires FindRoots(c, sqrt, iterate).Ok?
    ensures var rs := FindRoots(c, sqrt, iterate).value;
      |rs| == |c| - 1 && forall i :: 0 <= i < |rs| ==> Eval(c, rs[i]) == Zero
  {
    if |c| == 2 {
      LinearRoot(c, sqrt, iterate);
    } else {
      assert c == [c[0], c[1], c[2]];
      QuadraticRootsSolve(c[0], c[1], c[2], sqrt);
    }
  }

  /**
   * Real coefficients: whenever z is a root, so is its conjugate, so the
   * complex roots of the quadratic branch come as the pair it returns.
   */
  lemma ConjugateRoot(c: seq<real>, z: Complex)
    requires Eval(c, z) == Zero
    ensures Eval(c, Conjugate(z)) == Zero
  {
    EvalConjugate(c, z);
  }
}
