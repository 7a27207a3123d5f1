/**
 * The real-number identities behind the quadratic formula, each proved on its
 * own so that the proofs about the root finder stay small.
 */
module QuadraticAlgebra {

  function Discriminant(a: real, b: real, c: real): real {
    b * b - 4.0 * a * c
  }

  /** a r^2 + b r + c */
  function Quadratic(a: real, b: real, c: real, r: real): real {
    a * r * r + b * r + c
  }

  /** A nonzero multiple of zero is zero only if the other factor is zero. */
  lemma ZeroProduct(k: real, v: real)
    requires k != 0.0 && k * v == 0.0
    ensures v == 0.0
  {
  }

  /** (-b ± s) / 2a solves a r^2 + b r + c = 0 when s^2 is the discriminant. */
  lemma QuadraticFormula(a: real, b: real, c: real, s: real, r: real)
    requires a != 0.0 && s * s == Discriminant(a, b, c)
    requires r == (-b + s) / (2.0 * a) || r == (-b - s) / (2.0 * a)
    ensures Quadratic(a, b, c, r) == 0.0
  {
    var u := 2.0 * a * r;
    assert u == -b + s || u == -b - s;
    assert u * u + 2.0 * b * u + 4.0 * a * c == 0.0 by {
      if u == -b + s {
        assert u * u + 2.0 * b * u == s * s - b * b;
      } else {
        assert u * u + 2.0 * b * u == s * s - b * b;
      }
    }
    assert 4.0 * a * Quadratic(a, b, c, r) == u * u + 2.0 * b * u + 4.0 * a * c;
    ZeroProduct(4.0 * a, Quadratic(a, b, c, r));
  }

  /**
   * x = -b/2a, y = s/2a with s^2 = -discriminant: the real and imaginary parts
   * of a (x + iy)^2 + b (x + iy) + c are both zero.
   */
  lemma ComplexQuadraticFormula(a: real, b: real, c: real, s: real, x: real, y: real)
    requires a != 0.0 && s * s == -Discriminant(a, b, c)
    requires x == -b / (2.0 * a) && (y == s / (2.0 * a) || y == -(s / (2.0 * a)))
    ensures c + b * x + a * (x * x - y * y) == 0.0
    ensures b * y + a * (x * y + y * x) == 0.0
  {
    var u, v := 2.0 * a * x, 2.0 * a * y;
    assert u == -b;
    assert v * v == s * s;
    assert 4.0 * a * (c + b * x + a * (x * x - y * y)) == 4.0 * a * c + 2.0 * b * u + u * u - v * v;
    ZeroProduct(4.0 * a, c + b * x + a * (x * x - y * y));
    assert 2.0 * (b * y + a * (x * y + y * x)) == b * 2.0 * y + 2.0 * u * y;
    ZeroProduct(2.0, b * y + a * (x * y + y * x));
  }

  /** Vieta: the two roots of the formula sum to -b/a and multiply to c/a. */
  lemma Vieta(a: real, b: real, c: real, s: real, r1: real, r2: real)
    requires a != 0.0 && s * s == Discriminant(a, b, c)
    requires r1 == (-b + s) / (2.0 * a) && r2 == (-b - s) / (2.0 * a)
    ensures a * (r1 + r2) == -b
    ensures a * (r1 * r2) == c
  {
    var u1, u2 := 2.0 * a * r1, 2.0 * a * r2;
    assert u1 == -b + s && u2 == -b - s;
    assert u1 * u2 == b * b - s * s;
    assert 4.0 * a * (a * (r1 * r2)) == u1 * u2;
    ZeroProduct(4.0 * a, a * (r1 * r2) - c);
  }

  /** With Vieta's relations the quadratic is a (x - r1)(x - r2). */
  lemma Factored(a: real, b: real, c: real, r1: real, r2: real, x: real)
    requires a * (r1 + r2) == -b && a * (r1 * r2) == c
    ensures Quadratic(a, b, c, x) == a * ((x - r1) * (x - r2))
  {
    assert (x - r1) * (x - r2) == x * x - (r1 + r2) * x + r1 * r2;
  }

  /** The non-negative square root of a square is the base. */
  lemma RootOfSquare(s: real, v: real)
    requires s >= 0.0 && v >= 0.0 && s * s == v * v
    ensures s == v
  {
    assert (s - v) * (s + v) == 0.0;
    if s + v != 0.0 {
      ZeroProduct(s + v, s - v);
    }
  }
}
