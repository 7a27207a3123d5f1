/**
 * Complex numbers over exact reals: the part of Go's complex128 and
 * `math/cmplx` that the root finder and the evaluator use.
 */
module ComplexNumbers {

  datatype Complex = Complex(re: real, im: real)

  const Zero := Complex(0.0, 0.0)
  const One := Complex(1.0, 0.0)

  /** `complex(r, 0)` */
  function FromReal(r: real): Complex {
    Complex(r, 0.0)
  }

  function Add(a: Complex, b: Complex): (r: Complex)
    ensures r.re == a.re + b.re && r.im == a.im + b.im
  {
    Complex(a.re + b.re, a.im + b.im)
  }

  function Mul(a: Complex, b: Complex): (r: Complex)
    ensures r.re == a.re * b.re - a.im * b.im && r.im == a.re * b.im + a.im * b.re
  {
    Complex(a.re * b.re - a.im * b.im, a.re * b.im + a.im * b.re)
  }

  function Conjugate(a: Complex): Complex {
    Complex(a.re, -a.im)
  }

  /**
   * `cmplx.Pow(x, complex(float64(n), 0))` for a natural exponent, taken as
   * repeated multiplication; Go's Pow also gives 1 for a zero base and
   * exponent 0.
   */
  function Power(z: Complex, n: nat): (r: Complex)
    ensures n == 0 ==> r == One
    ensures z.im == 0.0 ==> r.im == 0.0
  {
    if n == 0 then One else Mul(Power(z, n - 1), z)
  }

  /** Real powers, `math.Pow(x, float64(n))` for a natural exponent. */
  function RealPower(x: real, n: nat): (r: real)
    ensures n == 0 ==> r == 1.0
  {
    if n == 0 then 1.0 else RealPower(x, n - 1) * x
  }

  // ---------------------------------------------------------------------
  // The ring laws the proofs use.

  lemma MulCommutes(a: Complex, b: Complex)
    ensures Mul(a, b) == Mul(b, a)
  {
  }

  lemma MulAssociates(a: Complex, b: Complex, c: Complex)
    ensures Mul(Mul(a, b), c) == Mul(a, Mul(b, c))
  {
    var l, r := Mul(Mul(a, b), c), Mul(a, Mul(b, c));
    assert l.re == r.re by {
      calc {
        l.re;
        (a.re * b.re - a.im * b.im) * c.re - (a.re * b.im + a.im * b.re) * c.im;
        a.re * (b.re * c.re - b.im * c.im) - a.im * (b.re * c.im + b.im * c.re);
        r.re;
      }
    }
    assert l.im == r.im by {
      calc {
        l.im;
        (a.re * b.re - a.im * b.im) * c.im + (a.re * b.im + a.im * b.re) * c.re;
        a.re * (b.re * c.im + b.im * c.re) + a.im * (b.re * c.re - b.im * c.im);
        r.im;
      }
    }
  }

  lemma MulDistributes(a: Complex, b: Complex, c: Complex)
    ensures Mul(a, Add(b, c)) == Add(Mul(a, b), Mul(a, c))
  {
  }

  /** Multiplying by a real scales both parts. */
  lemma MulReal(r: real, b: Complex)
    ensures Mul(FromReal(r), b) == Complex(r * b.re, r * b.im)
  {
  }

  /** Powers of a real number stay real and agree with RealPower. */
  lemma {:induction false} PowerOfReal(x: real, n: nat)
    ensures Power(FromReal(x), n) == FromReal(RealPower(x, n))
  {
    if n > 0 {
      PowerOfReal(x, n - 1);
    }
  }

  /** z^(n+1) == z * z^n: the power can be peeled off at either end. */
  lemma {:induction false} PowerFront(z: Complex, n: nat)
    ensures Power(z, n + 1) == Mul(z, Power(z, n))
  {
    if n > 0 {
      PowerFront(z, n - 1);
      MulAssociates(z, Power(z, n - 1), z);
    }
    MulCommutes(Power(z, n), z);
  }

  lemma MulConjugate(a: Complex, b: Complex)
    ensures Mul(Conjugate(a), Conjugate(b)) == Conjugate(Mul(a, b))
  {
  }

  /** Conjugation commutes with powers. */
  lemma {:induction false} PowerConjugate(z: Complex, n: nat)
    ensures Power(Conjugate(z), n) == Conjugate(Power(z, n))
  {
    if n > 0 {
      PowerConjugate(z, n - 1);
      MulConjugate(Power(z, n - 1), z);
    }
  }
}
