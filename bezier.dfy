/**
  Model of the Bezier control-point fit of an airfoil profile
  (parametrization/bezier.py, class bezier_airfoil).

  The numeric least-squares solve lives in a helper module that is not part of
  this model; it enters as the function-typed parameter `lsq`, which receives
  the sample points and the degree and returns the rows of control points.
  Everything around it is modelled exactly: the argument checks and their
  order, the pairing of X and Y into points, and the pinning of the first and
  last rows to the first and last samples.
*/
module Bezier {
  import opened Wrappers

  /** A sample point or a control point: one (x, y) row. */
  datatype Point = Point(x: real, y: real)

  /** The ValueErrors raised by get_bezier_parameters, and the IndexError that
      `parameters[0] = ...` raises when the helper returns no rows. */
  datatype FitError =
    | DegreeBelowOne
    | LengthMismatch
    | TooFewPoints(required: int, got: nat)
    | EmptyFitResult

  /** The least-squares helper: sample points and degree to rows of control points. */
  type LeastSquares = (seq<Point>, int) -> seq<Point>

  /** Assumed of the helper: it returns one row per column of the Bernstein
      matrix, degree + 1 of them. bezier.py does not check it. */
  predicate FitHasDegreeRows(lsq: LeastSquares, points: seq<Point>, degree: int)
  {
    |lsq(points, degree)| == degree + 1
  }

  /** Python's zip: pairs X[i] with Y[i], stopping at the shorter sequence. */
  function Zip(xs: seq<real>, ys: seq<real>): (ps: seq<Point>)
    ensures |ps| == if |xs| <= |ys| then |xs| else |ys|
    ensures forall i :: 0 <= i < |ps| ==> ps[i] == Point(xs[i], ys[i])
  {
    if xs == [] || ys == [] then []
    else [Point(xs[0], ys[0])] + Zip(xs[1..], ys[1..])
  }

  /** The x column of a list of points. */
  function Abscissae(ps: seq<Point>): seq<real>
  {
    if ps == [] then [] else [ps[0].x] + Abscissae(ps[1..])
  }

  /** The y column of a list of points. */
  function Ordinates(ps: seq<Point>): seq<real>
  {
    if ps == [] then [] else [ps[0].y] + Ordinates(ps[1..])
  }

  /** Unzipping undoes zipping: the two columns of the zipped points are the
      two input columns again. */
  lemma {:induction false} ColumnsOfZip(xs: seq<real>, ys: seq<real>)
    requires |xs| == |ys|
    ensures Abscissae(Zip(xs, ys)) == xs
    ensures Ordinates(Zip(xs, ys)) == ys
  {
    if xs != [] {
      ColumnsOfZip(xs[1..], ys[1..]);
      assert xs == [xs[0]] + xs[1..];
      assert ys == [ys[0]] + ys[1..];
    }
  }

  /** For equal-length columns the points handed to the helper are the pairs
      (X[i], Y[i]) in order, one per sample, and pairing loses nothing: the
      two columns of the zipped points are X and Y again. */
  lemma {:induction false} ZipColumns(xs: seq<real>, ys: seq<real>)
    requires |xs| == |ys|
    ensures |Zip(xs, ys)| == |xs|
    ensures forall i :: 0 <= i < |xs| ==> Zip(xs, ys)[i] == Point(xs[i], ys[i])
    ensures Abscissae(Zip(xs, ys)) == xs
    ensures Ordinates(Zip(xs, ys)) == ys
  {
    ColumnsOfZip(xs, ys);
  }

  /** The three argument checks of get_bezier_parameters, in the order the
      source makes them; None when all pass. */
  function CheckArguments(degree: int, xs: seq<real>, ys: seq<real>): (e: Option<FitError>)
    ensures e == None <==> 1 <= degree && |xs| == |ys| && degree + 1 <= |xs|
    ensures e != None ==> e.value != EmptyFitResult
  {
    if degree < 1 then Some(DegreeBelowOne)
    else if |xs| != |ys| then Some(LengthMismatch)
    else if |xs| < degree + 1 then Some(TooFewPoints(degree + 1, |xs|))
    else None
  }

  /** Overwrites row 0 with `first`, then the last row with `last`, as the
      two item assignments of the source do; fails like the source when there
      is no row 0. */
  function PinEndpoints(rows: seq<Point>, first: Point, last: Point): (r: Result<seq<Point>, FitError>)
    ensures r.Err? <==> rows == []
    ensures r.Err? ==> r.error == EmptyFitResult
    ensures r.Ok? ==> |r.value| == |rows|
    ensures r.Ok? ==> r.value[|rows| - 1] == last
    ensures r.Ok? && |rows| >= 2 ==> r.value[0] == first
    ensures r.Ok? ==> forall i :: 0 < i < |rows| - 1 ==> r.value[i] == rows[i]
  {
    if rows == [] then Err(EmptyFitResult)
    else
      var pinned := rows[0 := first];
      Ok(pinned[|pinned| - 1 := last])
  }

  /** What get_bezier_parameters returns (or raises) for the given degree and
      coordinates, with `lsq` standing for the least-squares helper. */
  function Fit(degree: int, xs: seq<real>, ys: seq<real>, lsq: LeastSquares): (r: Result<seq<Point>, FitError>)
    ensures r.Ok? ==> 1 <= degree && |xs| == |ys| && degree + 1 <= |xs|
    ensures r.Ok? ==> |r.value| == |lsq(Zip(xs, ys), degree)| > 0
    ensures r.Ok? ==> r.value[|r.value| - 1] == Point(xs[|xs| - 1], ys[|ys| - 1])
    ensures r.Ok? && |r.value| >= 2 ==> r.value[0] == Point(xs[0], ys[0])
    ensures r.Ok? ==> forall i :: 0 < i < |r.value| - 1 ==> r.value[i] == lsq(Zip(xs, ys), degree)[i]
  {
    match CheckArguments(degree, xs, ys)
    case Some(e) => Err(e)
    case None =>
      PinEndpoints(lsq(Zip(xs, ys), degree), Point(xs[0], ys[0]), Point(xs[|xs| - 1], ys[|ys| - 1]))
  }

  /** A degree below one is refused before X and Y are looked at. */
  lemma DegreeCheckedFirst(degree: int, xs: seq<real>, ys: seq<real>, lsq: LeastSquares)
    requires degree < 1
    ensures Fit(degree, xs, ys, lsq) == Err(DegreeBelowOne)
  {
  }

  /** With a valid degree, X and Y of different lengths are refused, however short. */
  lemma MismatchedLengthsRefused(degree: int, xs: seq<real>, ys: seq<real>, lsq: LeastSquares)
    requires 1 <= degree && |xs| != |ys|
    ensures Fit(degree, xs, ys, lsq) == Err(LengthMismatch)
  {
  }

  /** With a valid degree and equal lengths, fewer than degree + 1 samples are
      refused, and the error reports the required and the actual count. */
  lemma TooFewPointsRefused(degree: int, xs: seq<real>, ys: seq<real>, lsq: LeastSquares)
    requires 1 <= degree && |xs| == |ys| && |xs| < degree + 1
    ensures Fit(degree, xs, ys, lsq) == Err(TooFewPoints(degree + 1, |xs|))
  {
  }

  /** The sample-count boundary: degree samples fail, degree + 1 samples pass
      every check. */
  lemma SampleCountBoundary(degree: int, xs: seq<real>, ys: seq<real>, lsq: LeastSquares)
    requires 1 <= degree && |xs| == |ys|
    ensures |xs| == degree ==> Fit(degree, xs, ys, lsq) == Err(TooFewPoints(degree + 1, degree))
    ensures |xs| == degree + 1 && FitHasDegreeRows(lsq, Zip(xs, ys), degree) ==> Fit(degree, xs, ys, lsq).Ok?
  {
  }

  /** With a helper that returns at least one row whenever it is called, a
      call fails exactly when one of the three checks fails. */
  lemma SucceedsIffChecksPass(degree: int, xs: seq<real>, ys: seq<real>, lsq: LeastSquares)
    requires CheckArguments(degree, xs, ys) == None ==> |lsq(Zip(xs, ys), degree)| > 0
    ensures Fit(degree, xs, ys, lsq).Ok? <==> 1 <= degree && |xs| == |ys| && degree + 1 <= |xs|
  {
  }

  /** On success, with the helper's degree + 1 rows, the result has degree + 1
      control points, the first and last are exactly the first and last
      samples, and every interior one is the helper's row. */
  lemma EndpointsPinned(degree: int, xs: seq<real>, ys: seq<real>, lsq: LeastSquares)
    requires FitHasDegreeRows(lsq, Zip(xs, ys), degree)
    requires Fit(degree, xs, ys, lsq).Ok?
    ensures var ps := Fit(degree, xs, ys, lsq).value;
      && |ps| == degree + 1
      && ps[0] == Point(xs[0], ys[0])
      && ps[degree] == Point(xs[|xs| - 1], ys[|ys| - 1])
      && forall i :: 0 < i < degree ==> ps[i] == lsq(Zip(xs, ys), degree)[i]
  {
  }

  /** A degree-1 fit of two samples returns the two samples themselves,
      whatever the helper computed. */
  lemma {:induction false} LinearFitOfTwoSamplesIsExact(xs: seq<real>, ys: seq<real>, lsq: LeastSquares)
    requires |xs| == 2 && |ys| == 2
    requires FitHasDegreeRows(lsq, Zip(xs, ys), 1)
    ensures Fit(1, xs, ys, lsq) == Ok(Zip(xs, ys))
  {
    assert CheckArguments(1, xs, ys) == None;
    assert Fit(1, xs, ys, lsq).Ok?;
    var ps := Fit(1, xs, ys, lsq).value;
    assert |ps| == 2 == |Zip(xs, ys)|;
    assert ps[0] == Zip(xs, ys)[0] && ps[1] == Zip(xs, ys)[1];
    assert ps == Zip(xs, ys);
  }

  /** The four-point profile (0,0), (1,2), (2,2), (3,0) fitted with degree 3
      gives four control points starting at (0,0) and ending at (3,0). */
  lemma CubicFitOfFourPoints(lsq: LeastSquares)
    requires FitHasDegreeRows(lsq, Zip([0.0, 1.0, 2.0, 3.0], [0.0, 2.0, 2.0, 0.0]), 3)
    ensures var r := Fit(3, [0.0, 1.0, 2.0, 3.0], [0.0, 2.0, 2.0, 0.0], lsq);
      && r.Ok? && |r.value| == 4
      && r.value[0] == Point(0.0, 0.0) && r.value[3] == Point(3.0, 0.0)
  {
  }

  /** The airfoil object: its coordinate columns and the degree of the last
      fit request, which Python leaves unset until the first call. */
  class BezierAirfoil {
    var X: seq<real>
    var Y: seq<real>
    var degree: Option<int>

    /** The object as it stands once its coordinate file has been read. */
    constructor FromCoordinates(xs: seq<real>, ys: seq<real>)
      ensures X == xs && Y == ys && degree == None
    {
      X := xs;
      Y := ys;
      degree := None;
    }

    /** Replaces the X column; nothing else changes. */
    method SetX(xvalue: seq<real>)
      modifies this`X
      ensures X == xvalue
      ensures Y == old(Y) && degree == old(degree)
    {
      X := xvalue;
    }

    /** Replaces the Y column; nothing else changes. */
    method SetY(yvalue: seq<real>)
      modifies this`Y
      ensures Y == yvalue
      ensures X == old(X) && degree == old(degree)
    {
      Y := yvalue;
    }

    /** Records the requested degree, even when the call then fails; checks the
        arguments; hands the paired samples to the helper and pins the
        endpoints of its rows. */
    method GetBezierParameters(degree: int, lsq: LeastSquares) returns (r: Result<seq<Point>, FitError>)
      modifies this`degree
      ensures this.degree == Some(degree)
      ensures X == old(X) && Y == old(Y)
      ensures r == Fit(degree, X, Y, lsq)
    {
      this.degree := Some(degree);
      if degree < 1 {
        return Err(DegreeBelowOne);
      }
      if |X| != |Y| {
        return Err(LengthMismatch);
      }
      if |X| < degree + 1 {
        return Err(TooFewPoints(degree + 1, |X|));
      }
      var points := Zip(X, Y);
      var parameters := lsq(points, degree);
      if parameters == [] {
        return Err(EmptyFitResult);
      }
      parameters := parameters[0 := Point(X[0], Y[0])];
      parameters := parameters[|parameters| - 1 := Point(X[|X| - 1], Y[|Y| - 1])];
      r := Ok(parameters);
    }
  }
}
