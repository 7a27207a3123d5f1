/**
 * Interpolate (internal/polynomial/polynomial.go): the coefficients of the
 * polynomial through n points, found by solving the n x n Vandermonde
 * system.  The linear solve (gonum's SolveVec) is a parameter.
 */
module Interpolation {
  import opened Results
  import opened ComplexNumbers
  import opened Evaluation

  datatype Point = Point(x: real, y: real)

  datatype InterpolationError =
    | NoPoints     // "no points provided"
    | SolveFailed  // "failed to solve interpolation": the solver reported an error

  /** A linear solver: the solution of m c = b, or None when it gives up. */
  type Solver = (seq<seq<real>>, seq<real>) -> Option<seq<real>>

  /** One row of the Vandermonde matrix: 1, x, x^2, ..., x^(n-1). */
  function PowerRow(x: real, n: nat): (row: seq<real>)
    ensures |row| == n && forall j :: 0 <= j < n ==> row[j] == RealPower(x, j)
  {
    seq(n, j requires 0 <= j => RealPower(x, j))
  }

  /** The matrix of the system: row i holds the powers of points[i].x. */
  function Vandermonde(points: seq<Point>): (m: seq<seq<real>>)
    ensures |m| == |points| && forall i :: 0 <= i < |m| ==> m[i] == PowerRow(points[i].x, |points|)
  {
    seq(|points|, i requires 0 <= i < |points| => PowerRow(points[i].x, |points|))
  }

  /** The right-hand side: the y of every point. */
  function Ordinates(points: seq<Point>): (b: seq<real>)
    ensures |b| == |points| && forall i :: 0 <= i < |b| ==> b[i] == points[i].y
  {
    seq(|points|, i requires 0 <= i < |points| => points[i].y)
  }

  function Dot(row: seq<real>, c: seq<real>): real
    requires |row| == |c|
  {
    if row == [] then 0.0 else Dot(row[..|row| - 1], c[..|c| - 1]) + row[|row| - 1] * c[|c| - 1]
  }

  /** `c` solves m c = b. */
  ghost predicate Solves(m: seq<seq<real>>, b: seq<real>, c: seq<real>) {
    && |c| == |b| == |m|
    && forall i :: 0 <= i < |m| ==> |m[i]| == |c| && Dot(m[i], c) == b[i]
  }

  /** gonum's contract: a solution has one entry per unknown. */
  ghost predicate KeepsSize(solve: Solver) {
    forall m: seq<seq<real>>, b: seq<real> :: solve(m, b).Some? ==> |solve(m, b).value| == |b|
  }

  /** A solver that only ever returns solutions. */
  ghost predicate Sound(solve: Solver) {
    forall m: seq<seq<real>>, b: seq<real> :: solve(m, b).Some? ==> Solves(m, b, solve(m, b).value)
  }

  /** What Interpolate returns. */
  function InterpolateResult(points: seq<Point>, solve: Solver): Result<seq<real>, InterpolationError> {
    if points == [] then Err(NoPoints)
    else match solve(Vandermonde(points), Ordinates(points))
      case None => Err(SolveFailed)
      case Some(c) => Ok(c)
  }

  /** The rows of a two-dimensional array, as sequences. */
  function Rows(v: array2<real>): (m: seq<seq<real>>)
    reads v
    ensures |m| == v.Length0 && forall i :: 0 <= i < |m| ==> |m[i]| == v.Length1 && forall j :: 0 <= j < v.Length1 ==> m[i][j] == v[i, j]
  {
    seq(v.Length0, i requires 0 <= i < v.Length0 reads v => seq(v.Length1, j requires 0 <= j < v.Length1 reads v => v[i, j]))
  }

  /** An array filled with the powers of the points' abscissae holds the Vandermonde matrix. */
  lemma RowsOfVandermonde(v: array2<real>, points: seq<Point>)
    requires v.Length0 == v.Length1 == |points|
    requires forall r, j :: 0 <= r < |points| && 0 <= j < |points| ==> v[r, j] == RealPower(points[r].x, j)
    ensures Rows(v) == Vandermonde(points)
  {
    var m, w := Rows(v), Vandermonde(points);
    forall i | 0 <= i < |points|
      ensures m[i] == w[i]
    {
    }
  }

  /**
   * Interpolate: fill the matrix and the right-hand side row by row, solve,
   * and copy the solution out.
   */
  method Interpolate(points: seq<Point>, solve: Solver) returns (res: Result<seq<real>, InterpolationError>)
    requires KeepsSize(solve)
    ensures res == InterpolateResult(points, solve)
  {
    if |points| == 0 {
      return Err(NoPoints);
    }
    var n := |points|;
    var v := new real[n, n];
    var b := new real[n];
    for i := 0 to n
      invariant forall r, j :: 0 <= r < i && 0 <= j < n ==> v[r, j] == RealPower(points[r].x, j)
      invariant b[..i] == Ordinates(points)[..i]
    {
      var x := points[i].x;
      var y := points[i].y;
      for j := 0 to n
        invariant forall r, k :: 0 <= r < i && 0 <= k < n ==> v[r, k] == RealPower(points[r].x, k)
        invariant forall k :: 0 <= k < j ==> v[i, k] == RealPower(x, k)
        invariant b[..i] == Ordinates(points)[..i]
      {
        v[i, j] := RealPower(x, j);
      }
      b[i] := y;
    }
    RowsOfVandermonde(v, points);
    assert b[..] == Ordinates(points) by {
      assert b[..] == b[..n];
    }
    var solution := solve(Rows(v), b[..]);
    if solution.None? {
      return Err(SolveFailed);
    }
    var x := solution.value;
    var coefficients := new real[n];
    for i := 0 to n
      invariant coefficients[..i] == x[..i]
    {
      coefficients[i] := x[i];
    }
    assert coefficients[..] == x;
    res := Ok(coefficients[..]);
  }

  // ---------------------------------------------------------------------
  // Properties.

  /** A row of powers against a coefficient vector is the polynomial's value. */
  lemma {:induction false} DotIsEval(x: real, c: seq<real>)
    ensures Dot(PowerRow(x, |c|), c) == EvalReal(c, x)
  {
    if c != [] {
      var n := |c| - 1;
      assert PowerRow(x, |c|)[..n] == PowerRow(x, n);
      DotIsEval(x, c[..n]);
    }
  }

  /** Interpolate fails exactly when there are no points or the solver gives up. */
  lemma InterpolateFails(points: seq<Point>, solve: Solver)
    ensures InterpolateResult(points, solve) == Err(NoPoints) <==> points == []
    ensures InterpolateResult(points, solve) == Err(SolveFailed) <==>
      points != [] && solve(Vandermonde(points), Ordinates(points)).None?
  {
  }

  /**
   * With a sound solver, the interpolating polynomial has one coefficient per
   * point and passes through every point.
   */
  lemma PassesThroughPoints(points: seq<Point>, solve: Solver)
    requires Sound(solve) && InterpolateResult(points, solve).Ok?
    ensures var c := InterpolateResult(points, solve).value;
      |c| == |points| && forall i :: 0 <= i < |points| ==> EvalReal(c, points[i].x) == points[i].y
  {
    var c := InterpolateResult(points, solve).value;
    var m, b := Vandermonde(points), Ordinates(points);
    assert Solves(m, b, c);
    forall i | 0 <= i < |points|
      ensures EvalReal(c, points[i].x) == points[i].y
    {
      assert Dot(m[i], c) == b[i];
      DotIsEval(points[i].x, c);
    }
  }
}
