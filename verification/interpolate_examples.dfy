/**
 * Interpolate on the points of its unit tests, with any solver that only
 * returns solutions of the system it is given.
 */
module InterpolationExamples {
  import opened Results
  import opened Evaluation
  import opened Interpolation

  /** The points (0, 1) and (1, 3) lie on y = 2x + 1 and on no other line. */
  lemma InterpolateLine(solve: Solver)
    requires Sound(solve)
    requires InterpolateResult([Point(0.0, 1.0), Point(1.0, 3.0)], solve).Ok?
    ensures InterpolateResult([Point(0.0, 1.0), Point(1.0, 3.0)], solve).value == [1.0, 2.0]
  {
    var points := [Point(0.0, 1.0), Point(1.0, 3.0)];
    var c := InterpolateResult(points, solve).value;
    PassesThroughPoints(points, solve);
    assert c == [c[0], c[1]];
    assert EvalReal(c, points[0].x) == points[0].y && EvalReal(c, points[1].x) == points[1].y;
    EvalRealLinear(c[0], c[1], 0.0);
    EvalRealLinear(c[0], c[1], 1.0);
  }

  /** The points (0, 0), (1, 1) and (2, 4) lie on y = x^2 and on no other parabola. */
  lemma InterpolateParabola(solve: Solver)
    requires Sound(solve)
    requires InterpolateResult([Point(0.0, 0.0), Point(1.0, 1.0), Point(2.0, 4.0)], solve).Ok?
    ensures InterpolateResult([Point(0.0, 0.0), Point(1.0, 1.0), Point(2.0, 4.0)], solve).value == [0.0, 0.0, 1.0]
  {
    var points := [Point(0.0, 0.0), Point(1.0, 1.0), Point(2.0, 4.0)];
    var c := InterpolateResult(points, solve).value;
    PassesThroughPoints(points, solve);
    assert c == [c[0], c[1], c[2]];
    assert EvalReal(c, points[0].x) == points[0].y && EvalReal(c, points[1].x) == points[1].y;
    assert EvalReal(c, points[2].x) == points[2].y;
    EvalRealQuadratic(c[0], c[1], c[2], 0.0);
    EvalRealQuadratic(c[0], c[1], c[2], 1.0);
    EvalRealQuadratic(c[0], c[1], c[2], 2.0);
  }

  /** No points is an error whatever the solver. */
  lemma InterpolateNothing(solve: Solver)
    ensures InterpolateResult([], solve) == Err(NoPoints)
  {
  }
}
