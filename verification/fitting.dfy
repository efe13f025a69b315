/**
 * What surrounds the least-squares fit: which points enter it, how the two
 * solution vectors are laid out as the stored parameters, and the residual
 * that is reported afterwards. The solver itself is a foreign numeric routine
 * and is a parameter (`Solver`) of the model.
 */
module Fitting {
  import opened Wrappers
  import opened Affine
  import opened ControlPoints

  /** A solution vector of one least-squares problem over the design rows [1, col, row]. */
  type Vec3 = (real, real, real)

  /** Least squares on the complete points: p_x = [C, A, B] for x and p_y = [F, D, E] for y. */
  type Solver = seq<ControlPoint> -> (Vec3, Vec3)

  /** The fit needs at least this many complete points. */
  const MinFitPoints: nat := 3

  /** The complete points, in list order: the only points that enter the fit. */
  function CompletePoints(cps: seq<ControlPoint>): (r: seq<ControlPoint>)
    ensures |r| <= |cps|
    ensures AllComplete(r)
    ensures forall c :: c in r <==> c in cps && c.IsComplete()
  {
    if cps == [] then []
    else (if cps[0].IsComplete() then [cps[0]] else []) + CompletePoints(cps[1..])
  }

  /** Every point of a list has both world coordinates. */
  predicate AllComplete(cs: seq<ControlPoint>) {
    forall i :: 0 <= i < |cs| ==> cs[i].IsComplete()
  }

  /** Filtering an already filtered list changes nothing. */
  lemma {:induction false} CompletePointsIdempotent(cps: seq<ControlPoint>)
    ensures CompletePoints(CompletePoints(cps)) == CompletePoints(cps)
  {
    if cps != [] {
      CompletePointsIdempotent(cps[1..]);
      var head := if cps[0].IsComplete() then [cps[0]] else [];
      CompletePointsAppend(head, CompletePoints(cps[1..]));
      assert CompletePoints(head) == head;
    }
  }

  /** The filter distributes over concatenation. */
  lemma {:induction false} CompletePointsAppend(a: seq<ControlPoint>, b: seq<ControlPoint>)
    ensures CompletePoints(a + b) == CompletePoints(a) + CompletePoints(b)
  {
    if a == [] {
      assert a + b == b;
    } else {
      assert (a + b)[1..] == a[1..] + b;
      CompletePointsAppend(a[1..], b);
    }
  }

  /** The stored vector [A, B, C, D, E, F] built from p_x = [C, A, B] and p_y = [F, D, E]. */
  function Assemble(px: Vec3, py: Vec3): (t: Transform)
    ensures (t.c, t.a, t.b) == px && (t.f, t.d, t.e) == py
  {
    Transform(px.1, px.2, px.0, py.1, py.2, py.0)
  }

  /** A design row [1, col, row] times a solution vector. */
  function DesignDot(p: Pixel, v: Vec3): real {
    v.0 + p.col * v.1 + p.row * v.2
  }

  /**
   * Evaluating the assembled transform at a pixel is the same as multiplying that
   * pixel's design row by each solution vector: the layout puts every coefficient
   * where the forward formula reads it.
   */
  lemma AssembleEvaluatesDesignRows(px: Vec3, py: Vec3, p: Pixel)
    ensures PixelToWorld(Some(Assemble(px, py)), p) == Some(World(DesignDot(p, px), DesignDot(p, py)))
  {
    var t := Assemble(px, py);
    assert PixelToWorld(Some(t), p).value == World(DesignDot(p, px), DesignDot(p, py));
  }

  /**
   * The product of two reals. Squares are written Times(r, r) so that facts
   * about them are facts about one term.
   */
  function Times(a: real, b: real): real {
    a * b
  }

  /** Two factors of the same strict sign give a positive product. */
  lemma TimesPositive(a: real, b: real)
    requires (a > 0.0 && b > 0.0) || (a < 0.0 && b < 0.0)
    ensures Times(a, b) > 0.0
  {
    if a < 0.0 {
      assert a * b == (-a) * (-b);
    }
  }

  /** A square is never negative and vanishes only at zero. */
  lemma SquareSign(r: real)
    ensures Times(r, r) >= 0.0
    ensures Times(r, r) == 0.0 <==> r == 0.0
  {
    if r != 0.0 {
      TimesPositive(r, r);
    }
  }

  /** Squared length of an offset (dx, dy): the square of hypot(dx, dy). */
  function SquaredLength(dx: real, dy: real): (r: real)
    ensures r >= 0.0
    ensures r == 0.0 <==> dx == 0.0 && dy == 0.0
  {
    SquareSign(dx);
    SquareSign(dy);
    Times(dx, dx) + Times(dy, dy)
  }

  /** The re-projection of a complete point minus its world coordinates. */
  function Offset(t: Transform, c: ControlPoint): World
    requires c.IsComplete()
  {
    World(t.c + t.a * c.col + t.b * c.row - c.x.value, t.f + t.d * c.col + t.e * c.row - c.y.value)
  }

  /** Squared distance between a complete point's world position and its re-projection. */
  function SquaredResidual(t: Transform, c: ControlPoint): (r: real)
    requires c.IsComplete()
    ensures r >= 0.0
    ensures r == 0.0 <==> Offset(t, c) == World(0.0, 0.0)
  {
    var o := Offset(t, c);
    SquaredLength(o.x, o.y)
  }

  /** The transform sends the point's pixel exactly onto its world coordinates. */
  predicate ReprojectsExactly(t: Transform, c: ControlPoint)
    requires c.IsComplete()
  {
    PixelToWorld(Some(t), Pixel(c.col, c.row)) == Some(World(c.x.value, c.y.value))
  }

  /** A single squared residual is zero exactly when the point is reprojected onto itself. */
  lemma SquaredResidualZeroIffExact(t: Transform, c: ControlPoint)
    requires c.IsComplete()
    ensures SquaredResidual(t, c) == 0.0 <==> ReprojectsExactly(t, c)
  {
    var px, py := t.c + t.a * c.col + t.b * c.row, t.f + t.d * c.col + t.e * c.row;
    var x, y := c.x.value, c.y.value;
    assert PixelToWorld(Some(t), Pixel(c.col, c.row)).value == World(px, py);
    assert Offset(t, c) == World(px - x, py - y);
    assert ReprojectsExactly(t, c) <==> px == x && py == y;
  }

  /** Sum of the squared residuals of the points. */
  function ResidualSum(t: Transform, cs: seq<ControlPoint>): (r: real)
    requires AllComplete(cs)
    ensures r >= 0.0
  {
    if cs == [] then 0.0 else SquaredResidual(t, cs[0]) + ResidualSum(t, cs[1..])
  }

  /** Every point of the list is reprojected onto itself. */
  predicate AllExact(t: Transform, cs: seq<ControlPoint>)
    requires AllComplete(cs)
  {
    cs == [] || (ReprojectsExactly(t, cs[0]) && AllExact(t, cs[1..]))
  }

  /** The summed residual vanishes exactly when every point is reprojected onto itself. */
  lemma {:induction false} ResidualSumZeroIffExact(t: Transform, cs: seq<ControlPoint>)
    requires AllComplete(cs)
    ensures ResidualSum(t, cs) == 0.0 <==> AllExact(t, cs)
  {
    if cs != [] {
      var rest := cs[1..];
      ResidualSumZeroIffExact(t, rest);
      SquaredResidualZeroIffExact(t, cs[0]);
      assert ResidualSum(t, cs) == SquaredResidual(t, cs[0]) + ResidualSum(t, rest);
    }
  }

  /** The residual sum splits over concatenation. */
  lemma {:induction false} ResidualSumAppend(t: Transform, a: seq<ControlPoint>, b: seq<ControlPoint>)
    requires AllComplete(a) && AllComplete(b)
    ensures AllComplete(a + b)
    ensures ResidualSum(t, a + b) == ResidualSum(t, a) + ResidualSum(t, b)
  {
    if a == [] {
      assert a + b == b;
    } else {
      assert (a + b)[1..] == a[1..] + b;
      ResidualSumAppend(t, a[1..], b);
    }
  }

  /** Completeness is a property of the elements, so it carries over to any reordering. */
  lemma AllCompleteOfPermutation(a: seq<ControlPoint>, b: seq<ControlPoint>)
    requires AllComplete(a) && multiset(a) == multiset(b)
    ensures AllComplete(b)
  {
    forall i | 0 <= i < |b| ensures b[i].IsComplete() {
      assert b[i] in multiset(b);
      var k :| 0 <= k < |a| && a[k] == b[i];
    }
  }

  /** Removing the element at index j removes one copy of it from the multiset. */
  lemma MultisetRemoveAt(b: seq<ControlPoint>, j: nat)
    requires j < |b|
    ensures multiset(b[..j] + b[j + 1..]) == multiset(b) - multiset{b[j]}
  {
    assert b == b[..j] + [b[j]] + b[j + 1..];
  }

  /** Taking one point out of the list takes its squared residual out of the sum. */
  lemma ResidualSumRemoveAt(t: Transform, b: seq<ControlPoint>, j: nat)
    requires AllComplete(b) && j < |b|
    ensures AllComplete(b[..j] + b[j + 1..])
    ensures ResidualSum(t, b) == SquaredResidual(t, b[j]) + ResidualSum(t, b[..j] + b[j + 1..])
  {
    var tail := b[j..];
    assert b == b[..j] + tail;
    assert tail[1..] == b[j + 1..];
    assert AllComplete(b[..j]) && AllComplete(tail) && AllComplete(b[j + 1..]);
    ResidualSumAppend(t, b[..j], tail);
    ResidualSumAppend(t, b[..j], b[j + 1..]);
  }

  /** The residual sum does not depend on the order of the points. */
  lemma {:induction false} ResidualSumPermutation(t: Transform, a: seq<ControlPoint>, b: seq<ControlPoint>)
    requires AllComplete(a) && multiset(a) == multiset(b)
    ensures AllComplete(b)
    ensures ResidualSum(t, a) == ResidualSum(t, b)
    decreases |a|
  {
    AllCompleteOfPermutation(a, b);
    if a == [] {
      assert |b| == |multiset(b)| == 0;
    } else {
      assert a[0] in multiset(b);
      var j :| 0 <= j < |b| && b[j] == a[0];
      var rest := b[..j] + b[j + 1..];
      MultisetRemoveAt(b, j);
      assert a == [a[0]] + a[1..];
      assert multiset(a[1..]) == multiset(rest);
      ResidualSumPermutation(t, a[1..], rest);
      ResidualSumRemoveAt(t, b, j);
    }
  }

  /** Why the fit was refused. */
  datatype FitError = TooFewCompletePoints

  /**
   * The fit gate and the parameter layout: with fewer than three complete points
   * there is no transform; otherwise the solver sees exactly the complete points,
   * in list order, and its two vectors are laid out as [A, B, C, D, E, F].
   */
  function Fit(cps: seq<ControlPoint>, solve: Solver): (r: Result<Transform, FitError>)
    ensures r.Failure? <==> |CompletePoints(cps)| < MinFitPoints
  {
    var complete := CompletePoints(cps);
    if |complete| < MinFitPoints then Failure(TooFewCompletePoints)
    else Success(Assemble(solve(complete).0, solve(complete).1))
  }

  /** Incomplete points have no influence: fitting the filtered list gives the same outcome. */
  lemma FitSeesOnlyCompletePoints(cps: seq<ControlPoint>, solve: Solver)
    ensures Fit(CompletePoints(cps), solve) == Fit(cps, solve)
  {
    CompletePointsIdempotent(cps);
  }

  /**
   * A fitted transform evaluates every pixel exactly as the solver's two vectors
   * do on that pixel's design row [1, col, row].
   */
  lemma FitEvaluatesSolution(cps: seq<ControlPoint>, solve: Solver, p: Pixel)
    requires Fit(cps, solve).Success?
    ensures PixelToWorld(Some(Fit(cps, solve).value), p) ==
      Some(World(DesignDot(p, solve(CompletePoints(cps)).0), DesignDot(p, solve(CompletePoints(cps)).1)))
  {
    var v := solve(CompletePoints(cps));
    AssembleEvaluatesDesignRows(v.0, v.1, p);
  }

  /** Mean of the squared residual distances: the square of the reported RMSE. */
  function MeanSquaredResidual(t: Transform, cs: seq<ControlPoint>): (m: real)
    requires AllComplete(cs) && |cs| > 0
    ensures m >= 0.0
    ensures m == 0.0 <==> ResidualSum(t, cs) == 0.0
  {
    var n := |cs| as real;
    QuotientSign(ResidualSum(t, cs), n);
    ResidualSum(t, cs) / n
  }

  /** A non-negative numerator over a positive denominator. */
  lemma QuotientSign(s: real, n: real)
    requires s >= 0.0 && n > 0.0
    ensures s / n >= 0.0
    ensures s / n == 0.0 <==> s == 0.0
  {
    var q := s / n;
    assert q * n == s;
    if q < 0.0 {
      TimesPositive(-q, n);
    }
  }
}
