/**
 * evaluatePolynomial (internal/polynomial/polynomial.go): the value of a
 * polynomial with real coefficients, constant term first, at a complex point.
 */
module Evaluation {
  import opened ComplexNumbers

  /** The sum of c[i] * z^i, term by term in index order as the Go loop adds them. */
  function Eval(c: seq<real>, z: Complex): Complex {
    if c == [] then Zero
    else Add(Eval(c[..|c| - 1], z), Mul(FromReal(c[|c| - 1]), Power(z, |c| - 1)))
  }

  /** The same sum over the reals. */
  function EvalReal(c: seq<real>, x: real): real {
    if c == [] then 0.0
    else EvalReal(c[..|c| - 1], x) + c[|c| - 1] * RealPower(x, |c| - 1)
  }

  /** Horner's rule: c[0] + z * (c[1] + z * (...)), an independent way to read the same polynomial. */
  function Horner(c: seq<real>, z: Complex): Complex {
    if c == [] then Zero else Add(FromReal(c[0]), Mul(z, Horner(c[1..], z)))
  }

  /**
   * The loop of evaluatePolynomial: one term per coefficient, each a fresh
   * power of `x`.
   */
  method EvaluatePolynomial(coefficients: seq<real>, x: Complex) returns (result: Complex)
    ensures result == Eval(coefficients, x)
    ensures result == Horner(coefficients, x)
  {
    result := Zero;
    for i := 0 to |coefficients|
      invariant result == Eval(coefficients[..i], x)
    {
      assert coefficients[..i + 1][..i] == coefficients[..i];
      result := Add(result, Mul(FromReal(coefficients[i]), Power(x, i)));
    }
    assert coefficients[..|coefficients|] == coefficients;
    EvalIsHorner(coefficients, x);
  }

  // ---------------------------------------------------------------------
  // What the sum means.

  /** Appending a coefficient adds its term at the next power (Horner's form). */
  lemma {:induction false} HornerAppend(c: seq<real>, a: real, z: Complex)
    ensures Horner(c + [a], z) == Add(Horner(c, z), Mul(FromReal(a), Power(z, |c|)))
  {
    if c == [] {
      assert [] + [a] == [a];
      assert [a][1..] == [];
    } else {
      var t := c[1..];
      assert (c + [a])[1..] == t + [a];
      HornerAppend(t, a, z);
      var p := Power(z, |t|);
      MulDistributes(z, Horner(t, z), Mul(FromReal(a), p));
      MulAssociates(z, FromReal(a), p);
      MulCommutes(z, FromReal(a));
      MulAssociates(FromReal(a), z, p);
      PowerFront(z, |t|);
    }
  }

  /** The Go sum and Horner's rule agree on every polynomial and point. */
  lemma {:induction false} EvalIsHorner(c: seq<real>, z: Complex)
    ensures Eval(c, z) == Horner(c, z)
  {
    if c != [] {
      var n := |c| - 1;
      EvalIsHorner(c[..n], z);
      HornerAppend(c[..n], c[n], z);
      assert c[..n] + [c[n]] == c;
    }
  }

  /** At a real point the value is real and is the real sum. */
  lemma {:induction false} EvalAtReal(c: seq<real>, x: real)
    ensures Eval(c, FromReal(x)) == FromReal(EvalReal(c, x))
  {
    if c != [] {
      var n := |c| - 1;
      EvalAtReal(c[..n], x);
      PowerOfReal(x, n);
    }
  }

  /** Real coefficients: the value at the conjugate point is the conjugate value. */
  lemma {:induction false} EvalConjugate(c: seq<real>, z: Complex)
    ensures Eval(c, Conjugate(z)) == Conjugate(Eval(c, z))
  {
    if c != [] {
      var n := |c| - 1;
      EvalConjugate(c[..n], z);
      PowerConjugate(z, n);
      MulConjugate(FromReal(c[n]), Power(z, n));
    }
  }

  /** A constant polynomial */
  lemma EvalConstant(c0: real, z: Complex)
    ensures Eval([c0], z) == FromReal(c0)
  {
    assert [c0][..0] == [];
    MulReal(c0, One);
  }

  /** c0 + c1 z, as complex operations */
  lemma EvalLinearForm(c0: real, c1: real, z: Complex)
    ensures Eval([c0, c1], z) == Add(FromReal(c0), Mul(FromReal(c1), z))
  {
    assert [c0, c1][..1] == [c0];
    EvalConstant(c0, z);
    PowerOne(z);
  }

  lemma AddScaled(c0: real, c1: real, z: Complex)
    ensures Add(FromReal(c0), Mul(FromReal(c1), z)) == Complex(c0 + c1 * z.re, c1 * z.im)
  {
    MulReal(c1, z);
  }

  /** c0 + c1 z, in real and imaginary parts */
  lemma EvalLinear(c0: real, c1: real, z: Complex)
    ensures Eval([c0, c1], z) == Complex(c0 + c1 * z.re, c1 * z.im)
  {
    EvalLinearForm(c0, c1, z);
    AddScaled(c0, c1, z);
  }

  lemma PowerOne(z: Complex)
    ensures Power(z, 1) == z
  {
    assert Power(z, 1) == Mul(One, z);
  }

  lemma PowerTwo(z: Complex)
    ensures Power(z, 2) == Mul(z, z)
  {
    PowerOne(z);
  }

  /** c0 + c1 z + c2 z^2: the quadratic term on top of the linear part. */
  lemma EvalQuadratic(c0: real, c1: real, c2: real, z: Complex)
    ensures Eval([c0, c1, c2], z) == Add(Complex(c0 + c1 * z.re, c1 * z.im), Mul(FromReal(c2), Mul(z, z)))
  {
    assert [c0, c1, c2][..2] == [c0, c1];
    EvalLinear(c0, c1, z);
    PowerTwo(z);
  }

  /** c0 + c1 x over the reals */
  lemma EvalRealLinear(c0: real, c1: real, x: real)
    ensures EvalReal([c0, c1], x) == c0 + c1 * x
  {
    assert [c0, c1][..1] == [c0];
    assert [c0][..0] == [];
    assert EvalReal([c0], x) == c0;
    assert RealPower(x, 1) == x;
  }

  /** c0 + c1 x + c2 x^2 over the reals */
  lemma EvalRealQuadratic(c0: real, c1: real, c2: real, x: real)
    ensures EvalReal([c0, c1, c2], x) == c0 + c1 * x + c2 * (x * x)
  {
    assert [c0, c1, c2][..2] == [c0, c1];
    EvalRealLinear(c0, c1, x);
    assert RealPower(x, 2) == x * x by {
      assert RealPower(x, 1) == x;
    }
  }
}
