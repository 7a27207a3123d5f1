/**
 * Factorize (internal/polynomial/polynomial.go): the linear factors (x - r)
 * of a linear or quadratic polynomial with real roots, each factor given by
 * its root r, smaller root first.
 */
module Factorization {
  import opened Results
  import opened ComplexNumbers
  import opened Evaluation
  import opened QuadraticAlgebra
  import opened Roots

  function Factorize(c: seq<real>, sqrt: real -> real): Result<seq<real>, Failure> {
    if |c| == 0 then Err(NoCoefficients)
    else if |c| > 3 then Err(DegreeTooHigh)
    else if |c| == 2 then
      if c[1] == 0.0 then Err(InvalidLinear) else Ok([-c[0] / c[1]])
    else if |c| == 3 then
      if c[2] == 0.0 then Err(InvalidQuadratic)
      else
        var d := Discriminant(c[2], c[1], c[0]);
        if d < 0.0 then Err(ComplexRoots)
        else
          var s := sqrt(d);
          var r1 := (-c[1] + s) / (2.0 * c[2]);
          var r2 := (-c[1] - s) / (2.0 * c[2]);
          if r1 > r2 then Ok([r2, r1]) else Ok([r1, r2])
    else Err(UnsupportedDegree)
  }

  // ---------------------------------------------------------------------
  // Properties.

  /**
   * The error ladder: each error and the exact inputs that produce it.  More
   * than three coefficients is an error whatever the coefficients are.
   */
  lemma FactorizeFails(c: seq<real>, sqrt: real -> real)
    ensures Factorize(c, sqrt) == Err(NoCoefficients) <==> |c| == 0
    ensures Factorize(c, sqrt) == Err(DegreeTooHigh) <==> |c| > 3
    ensures Factorize(c, sqrt) == Err(UnsupportedDegree) <==> |c| == 1
    ensures Factorize(c, sqrt) == Err(InvalidLinear) <==> |c| == 2 && c[1] == 0.0
    ensures Factorize(c, sqrt) == Err(InvalidQuadratic) <==> |c| == 3 && c[2] == 0.0
    ensures Factorize(c, sqrt) == Err(ComplexRoots) <==>
      |c| == 3 && c[2] != 0.0 && Discriminant(c[2], c[1], c[0]) < 0.0
  {
  }

  /** One factor per degree, in non-decreasing order of roots. */
  lemma FactorizeSorted(c: seq<real>, sqrt: real -> real)
    requires Factorize(c, sqrt).Ok?
    ensures var rs := Factorize(c, sqrt).value;
      |rs| == |c| - 1 && forall i, j :: 0 <= i < j < |rs| ==> rs[i] <= rs[j]
  {
  }

  /**
   * Factorize returns the real roots FindRoots returns, as a multiset, and
   * succeeds on a quadratic exactly when FindRoots' roots are real.
   */
  lemma FactorizeMatchesFindRoots(c: seq<real>, sqrt: real -> real, iterate: seq<real> -> seq<Complex>)
    requires Factorize(c, sqrt).Ok?
    ensures var rs, zs := Factorize(c, sqrt).value, FindRoots(c, sqrt, iterate);
      && zs.Ok? && |zs.value| == |rs|
      && (forall i :: 0 <= i < |zs.value| ==> zs.value[i].im == 0.0)
      && multiset(rs) == multiset(seq(|zs.value|, i requires 0 <= i < |zs.value| => zs.value[i].re))
  {
    var rs, zs := Factorize(c, sqrt).value, FindRoots(c, sqrt, iterate).value;
    var res := seq(|zs|, i requires 0 <= i < |zs| => zs[i].re);
    if |c| == 2 {
      assert res == rs;
    } else {
      assert res == [zs[0].re, zs[1].re];
      if rs[0] != zs[0].re {
        assert rs == [res[1], res[0]];
      } else {
        assert rs == res;
      }
    }
  }

  /** Factorize and FindRoots agree on which quadratics have real roots. */
  lemma FactorizeIffRealRoots(c: seq<real>, sqrt: real -> real, iterate: seq<real> -> seq<Complex>)
    requires |c| == 3 && c[2] != 0.0 && IsSqrt(sqrt)
    ensures Factorize(c, sqrt).Ok? <==>
      forall i :: 0 <= i < |FindRoots(c, sqrt, iterate).value| ==> FindRoots(c, sqrt, iterate).value[i].im == 0.0
  {
    var rs := QuadraticRoots(c[0], c[1], c[2], sqrt);
    assert FindRoots(c, sqrt, iterate) == Ok(rs);
    QuadraticRootsShape(c[0], c[1], c[2], sqrt);
    if Discriminant(c[2], c[1], c[0]) < 0.0 {
      assert rs[0].im != 0.0;
    }
  }

  /** A line with c1 != 0 is c1 (x - r) for its root r = -c0/c1. */
  lemma LineFactored(c0: real, c1: real, x: real)
    requires c1 != 0.0
    ensures EvalReal([c0, c1], x) == c1 * (x - -c0 / c1)
  {
    EvalRealLinear(c0, c1, x);
  }

  /** A quadratic whose roots satisfy Vieta's relations is c2 (x - r1)(x - r2). */
  lemma QuadraticFactored(c0: real, c1: real, c2: real, r1: real, r2: real, x: real)
    requires c2 * (r1 + r2) == -c1 && c2 * (r1 * r2) == c0
    ensures EvalReal([c0, c1, c2], x) == c2 * ((x - r1) * (x - r2))
    ensures EvalReal([c0, c1, c2], x) == c2 * ((x - r2) * (x - r1))
  {
    EvalRealQuadratic(c0, c1, c2, x);
    Factored(c2, c1, c0, r1, r2, x);
    assert (x - r1) * (x - r2) == (x - r2) * (x - r1);
  }

  /** What Factorize returns for a quadratic: the two roots of the formula, smaller first. */
  lemma QuadraticFactorShape(c: seq<real>, sqrt: real -> real, rs: seq<real>)
    requires |c| == 3 && Factorize(c, sqrt) == Ok(rs)
    ensures c[2] != 0.0 && Discriminant(c[2], c[1], c[0]) >= 0.0
    ensures var s := sqrt(Discriminant(c[2], c[1], c[0]));
      var r1, r2 := (-c[1] + s) / (2.0 * c[2]), (-c[1] - s) / (2.0 * c[2]);
      rs == [r1, r2] || rs == [r2, r1]
  {
  }

  /** The two roots of the formula, in either order, satisfy Vieta's relations. */
  lemma PairVieta(a: real, b: real, c: real, s: real, rs: seq<real>)
    requires a != 0.0 && s * s == Discriminant(a, b, c)
    requires var r1, r2 := (-b + s) / (2.0 * a), (-b - s) / (2.0 * a);
      rs == [r1, r2] || rs == [r2, r1]
    ensures |rs| == 2 && a * (rs[0] + rs[1]) == -b && a * (rs[0] * rs[1]) == c
  {
    var r1, r2 := (-b + s) / (2.0 * a), (-b - s) / (2.0 * a);
    Vieta(a, b, c, s, r1, r2);
    assert r2 + r1 == r1 + r2 && r2 * r1 == r1 * r2;
  }

  /** The roots Factorize returns for a quadratic satisfy Vieta's relations. */
  lemma QuadraticFactorRoots(c: seq<real>, sqrt: real -> real, rs: seq<real>)
    requires IsSqrt(sqrt) && |c| == 3 && Factorize(c, sqrt) == Ok(rs)
    ensures |rs| == 2 && c[2] * (rs[0] + rs[1]) == -c[1] && c[2] * (rs[0] * rs[1]) == c[0]
  {
    QuadraticFactorShape(c, sqrt, rs);
    var d := Discriminant(c[2], c[1], c[0]);
    assert sqrt(d) * sqrt(d) == d;
    PairVieta(c[2], c[1], c[0], sqrt(d), rs);
  }

  /** Roots with Vieta's relations factor the quadratic. */
  lemma VietaFactored(c: seq<real>, rs: seq<real>, x: real)
    requires |c| == 3 && |rs| == 2 && c[2] * (rs[0] + rs[1]) == -c[1] && c[2] * (rs[0] * rs[1]) == c[0]
    ensures EvalReal(c, x) == c[2] * ((x - rs[0]) * (x - rs[1]))
  {
    assert c == [c[0], c[1], c[2]];
    QuadraticFactored(c[0], c[1], c[2], rs[0], rs[1], x);
  }

  /** The two factors of a quadratic multiply back to it. */
  lemma QuadraticFactorsMultiplyBack(c: seq<real>, sqrt: real -> real, rs: seq<real>, x: real)
    requires IsSqrt(sqrt) && |c| == 3 && Factorize(c, sqrt) == Ok(rs)
    ensures |rs| == 2 && EvalReal(c, x) == c[2] * ((x - rs[0]) * (x - rs[1]))
  {
    QuadraticFactorRoots(c, sqrt, rs);
    VietaFactored(c, rs, x);
  }

  /**
   * The factors multiply back to the polynomial: c1 (x - r) for a line and
   * c2 (x - r1)(x - r2) for a quadratic, at every real x.
   */
  lemma FactorsMultiplyBack(c: seq<real>, sqrt: real -> real, rs: seq<real>, x: real)
    requires IsSqrt(sqrt) && Factorize(c, sqrt) == Ok(rs)
    ensures |c| == 2 ==> |rs| == 1 && EvalReal(c, x) == c[1] * (x - rs[0])
    ensures |c| == 3 ==> |rs| == 2 && EvalReal(c, x) == c[2] * ((x - rs[0]) * (x - rs[1]))
  {
    if |c| == 2 {
      LineFactorsMultiplyBack(c, sqrt, rs, x);
    } else if |c| == 3 {
      QuadraticFactorsMultiplyBack(c, sqrt, rs, x);
    }
  }

  /** The factor of a line multiplies back to it. */
  lemma LineFactorsMultiplyBack(c: seq<real>, sqrt: real -> real, rs: seq<real>, x: real)
    requires |c| == 2 && Factorize(c, sqrt) == Ok(rs)
    ensures |rs| == 1 && EvalReal(c, x) == c[1] * (x - rs[0])
  {
    assert c == [c[0], c[1]] && rs == [-c[0] / c[1]];
    LineFactored(c[0], c[1], x);
  }

  /** A product with a zero factor. */
  lemma ZeroFactor(k: real, u: real, v: real)
    requires u == 0.0 || v == 0.0
    ensures k * (u * v) == 0.0
  {
  }

  /** One of the two roots, put into the factored form, gives zero. */
  lemma RootOfFactored(e: real, k: real, rs: seq<real>, i: nat)
    requires |rs| == 2 && i < 2 && e == k * ((rs[i] - rs[0]) * (rs[i] - rs[1]))
    ensures e == 0.0
  {
    ZeroFactor(k, rs[i] - rs[0], rs[i] - rs[1]);
  }

  /** Either root with Vieta's relations is a root of the quadratic. */
  lemma VietaRoot(c: seq<real>, rs: seq<real>, i: nat)
    requires |c| == 3 && |rs| == 2 && c[2] * (rs[0] + rs[1]) == -c[1] && c[2] * (rs[0] * rs[1]) == c[0]
    requires i < 2
    ensures EvalReal(c, rs[i]) == 0.0
  {
    VietaFactored(c, rs, rs[i]);
    RootOfFactored(EvalReal(c, rs[i]), c[2], rs, i);
  }

  lemma QuadraticFactorRootIsRoot(c: seq<real>, sqrt: real -> real, rs: seq<real>, i: nat)
    requires IsSqrt(sqrt) && |c| == 3 && Factorize(c, sqrt) == Ok(rs) && i < |rs|
    ensures EvalReal(c, rs[i]) == 0.0
  {
    QuadraticFactorRoots(c, sqrt, rs);
    VietaRoot(c, rs, i);
  }

  lemma LineFactorRootIsRoot(c: seq<real>, sqrt: real -> real, rs: seq<real>)
    requires |c| == 2 && Factorize(c, sqrt) == Ok(rs)
    ensures EvalReal(c, rs[0]) == 0.0
  {
    assert c == [c[0], c[1]] && rs == [-c[0] / c[1]];
    LineFactored(c[0], c[1], rs[0]);
  }

  lemma FactorRootIsRoot(c: seq<real>, sqrt: real -> real, rs: seq<real>, i: nat)
    requires IsSqrt(sqrt) && Factorize(c, sqrt) == Ok(rs) && i < |rs|
    ensures EvalReal(c, rs[i]) == 0.0
  {
    if |c| == 3 {
      QuadraticFactorRootIsRoot(c, sqrt, rs, i);
    } else {
      LineFactorRootIsRoot(c, sqrt, rs);
    }
  }

  /** Every factor's root is a root of the polynomial. */
  lemma FactorRootsAreRoots(c: seq<real>, sqrt: real -> real)
    requires IsSqrt(sqrt) && Factorize(c, sqrt).Ok?
    ensures forall i :: 0 <= i < |Factorize(c, sqrt).value| ==> EvalReal(c, Factorize(c, sqrt).value[i]) == 0.0
  {
    var rs := Factorize(c, sqrt).value;
    forall i | 0 <= i < |rs|
      ensures EvalReal(c, rs[i]) == 0.0
    {
      FactorRootIsRoot(c, sqrt, rs, i);
    }
  }
}
