# Bezier control-point fit of an airfoil profile, in Dafny

This project models the core of `parametrization/bezier.py`: the class
`bezier_airfoil`, which holds an airfoil profile as two coordinate columns `X`
and `Y` and fits a Bezier curve of a requested degree to it. The fit
(`get_bezier_parameters`) records the degree on the object, refuses bad
arguments with three distinct errors checked in a fixed order, pairs the
samples into points, hands them to a least-squares helper and then overwrites
the first and last rows of the helper's result with the first and last
samples.

Layout:

- `wrappers.dfy`, module `Wrappers`: `Option` and `Result`.
- `bezier.dfy`, module `Bezier`: the point and error datatypes, the pure
  specification functions (`CheckArguments`, `Zip`, `PinEndpoints`, `Fit`),
  lemmas about them, and the class `BezierAirfoil` whose fields `X`, `Y` and
  `degree` the methods `SetX`, `SetY` and `GetBezierParameters` update in
  place. `GetBezierParameters` is written step by step like the source and is
  proved equal to `Fit` on the object's coordinates.

The least-squares helper (`aux.least_square_fit` applied to the Bernstein
matrix `aux.bmatrix(np.linspace(0, 1, n), degree)`) is floating-point code in
a module that is not part of this model. It enters as a parameter
`lsq: (seq<Point>, int) -> seq<Point>`: since the matrix depends only on the
number of points and the degree, the points and the degree carry all it reads.
That it returns degree + 1 rows is stated as the hypothesis
`FitHasDegreeRows` on the lemmas that need it, never as a precondition of the
operation, because nothing in `bezier.py` checks it.

Coordinates are `real`. The pinning copies sample values and does no
arithmetic, so the exact equalities proved here hold for the source's
floating-point values too.

The Python errors are a datatype `FitError`: `DegreeBelowOne`,
`LengthMismatch`, `TooFewPoints(required, got)` (the message reports
degree + 1 and `len(X)`), and `EmptyFitResult` for the `IndexError` that
`parameters[0] = ...` raises if the helper returns no rows at all (which a
helper returning degree + 1 rows never does).

Two behaviours of the source worth knowing, both captured by the model:

- `self.degree` is assigned before any check, so a failing call still changes
  it (`GetBezierParameters` ensures `this.degree == Some(degree)`
  unconditionally). Until the first call the attribute does not exist, which
  the model writes as `None`.
- The first row is written before the last. If the helper returned a single
  row, the last write would win and row 0 would hold the last sample; the
  first-endpoint promise therefore needs at least two rows, which the
  degree + 1 hypothesis gives since the degree is at least 1.

## Model

| member | source | states |
|---|---|---|
| `Bezier.CheckArguments` | parametrization/bezier.py:36-45 | the checks pass exactly when degree >= 1, len(X) == len(Y) and len(X) >= degree + 1; a failing check never yields the index error |
| `Bezier.Zip` | parametrization/bezier.py:49 | the paired points number min(len(X), len(Y)) and point i is (X[i], Y[i]) |
| `Bezier.ColumnsOfZip` | parametrization/bezier.py:49 | zipping equal-length columns can be undone: the x and y columns of the pairs are X and Y again, by induction on the columns |
| `Bezier.ZipColumns` | parametrization/bezier.py:49 | for equal-length columns the points handed to the helper are exactly (X[i], Y[i]) for i in 0..n-1, in order, n of them, and pairing loses nothing: the x and y columns of the pairs are X and Y again |
| `Bezier.PinEndpoints` | parametrization/bezier.py:51-54 | fails exactly on an empty fit result; otherwise keeps the row count, puts the last sample in the last row, the first sample in row 0 when there are at least two rows, and leaves every interior row as it was |
| `Bezier.Fit` | parametrization/bezier.py:34-56 | a success implies the three checks passed; the result has as many rows as the helper returned, the last row is the last sample, row 0 is the first sample when there are two or more rows, interior rows are the helper's rows for the paired samples |
| `Bezier.DegreeCheckedFirst` | parametrization/bezier.py:34-37 | degree < 1 gives the degree error whatever X and Y are, so this check comes before the length checks |
| `Bezier.MismatchedLengthsRefused` | parametrization/bezier.py:39-40 | with degree >= 1 and len(X) != len(Y) the call gives the same-length error |
| `Bezier.TooFewPointsRefused` | parametrization/bezier.py:42-45 | with degree >= 1, equal lengths and len(X) < degree + 1 the call gives the insufficient-points error carrying degree + 1 and len(X) |
| `Bezier.SampleCountBoundary` | parametrization/bezier.py:42-45 | len(X) == degree fails with the insufficient-points error; len(X) == degree + 1 succeeds when the helper returns degree + 1 rows |
| `Bezier.SucceedsIffChecksPass` | parametrization/bezier.py:36-54 | with a helper that returns at least one row whenever the checks pass, the call succeeds if and only if all three checks pass |
| `Bezier.EndpointsPinned` | parametrization/bezier.py:51-54 | on success with degree + 1 helper rows: degree + 1 control points, the first equal to (X[0], Y[0]), the last equal to (X[n-1], Y[n-1]), every interior one equal to the helper's row |
| `Bezier.LinearFitOfTwoSamplesIsExact` | parametrization/bezier.py:51-54 | a degree-1 fit of two samples returns the samples themselves, whatever the helper computed |
| `Bezier.CubicFitOfFourPoints` | parametrization/bezier.py:25-56 | the profile (0,0), (1,2), (2,2), (3,0) at degree 3 gives four control points starting at (0,0) and ending at (3,0) |
| `Bezier.BezierAirfoil.FromCoordinates` | parametrization/bezier.py:16-17 | the object starts with the given X and Y columns and no degree recorded |
| `Bezier.BezierAirfoil.SetX` | parametrization/bezier.py:19-20 | X becomes the new value; Y and degree are unchanged |
| `Bezier.BezierAirfoil.SetY` | parametrization/bezier.py:22-23 | Y becomes the new value; X and degree are unchanged |
| `Bezier.BezierAirfoil.GetBezierParameters` | parametrization/bezier.py:25-56 | records the requested degree even when the call fails, leaves X and Y alone, and returns exactly `Fit` of the degree and the object's columns |

## Left out

- `bezier_airfoil.__init__` (parametrization/bezier.py:11-17): reading the `.dat` file with pandas and taking the profile name from its first line. `FromCoordinates` starts from the columns that parsing yields; the `dat` and `original_name` attributes are not modelled.
- `np.linspace`, `aux.bmatrix` and `aux.least_square_fit` (parametrization/bezier.py:47-48, 51): floating-point numerics in a module that is not part of this model; the helper is the parameter `lsq`. Whether the least-squares rows are optimal, whether a minimal sample count reproduces the samples exactly, and whether sampling a Bezier curve and fitting it back recovers its control points are properties of that helper and are not proved.
- Curve evaluation (`aux.generate_bezier_curve`) is in the same helper module and is not modelled.
- The default argument `degree=3`: callers of `GetBezierParameters` pass the degree explicitly.
- The dynamic typing of `set_X` and `set_Y`, which accept any value: the model takes sequences of reals.
- `_example` and the matplotlib plotting (parametrization/bezier.py:63-82), the unused class-level `all` list (line 9) and the empty `__str__` (lines 58-60): display and bookkeeping with nothing to prove.
- `src/xfoil_runner/xfoil.py`: writing an input file, running the external XFOIL program as a subprocess, loading and plotting its polar file; process and file I/O and floating-point division.
