# Gaussian beam profiler: projections, default bounds and derived sizes

This project models the deterministic part of the beam profiler in
`beam_profile_example/gaussian_beam_profiler.py`. The profiler measures a
laser beam from a camera frame. It max-projects the frame onto its x and y
axes. It derives default box bounds for the four Gaussian parameters
(background, peak intensity, centre, 1/e² radius) from the frame. It fits the
two axis signals independently with one least-squares solver, using the same
bounds for both. It appends the full width at half maximum to each fitted
vector. Finally it converts the two fitted radii from pixels to millimetre
diameters with the sensor's pixel pitch.

Three modules, one per stage:

- `Projection` (`projection.dfy`): a frame is a rectangular `seq<seq<nat>>`.
  The x signal is `ColumnMaxima` and the y signal is `RowMaxima`. The frame's
  extremes are `ImageMax` and `ImageMin`, taken over every pixel. Transposing a
  frame exchanges the roles of the axes.
- `GaussianFit` (`fit.dfy`): `DefaultBounds`, the FWHM append `WithFwhm`, one
  axis fit `FitAxis`, and `FitGaussian`. The solver is a function parameter
  `solve: (coordinates, signal, bounds) -> Option<Params>`. `None` means it did
  not converge. Passing the solver as a parameter lets the model state which
  signal and which bounds each fit receives.
- `BeamDiameter` (`diameter.dfy`): `DiameterMm` and `BeamDiameterMm`, with
  their inverse and linearity.

Reals stand for the floating-point parameters. The factor sqrt(2 ln 2) is the
constant `FwhmPerRadius`, written as the double 1.1774100225154747 that the
source computes. The proofs use only the fact that it is positive.

Behaviour of the code that the model keeps:

- fit_gaussian imposes no minimum signal length. With finite bounds, as the
  defaults always are, curve_fit uses its bounded method, which does not
  require at least four data points. So the model has no such error.
- get_beam_diameter_mm returns only the two diameters. The x/y ratio is only
  printed, so a zero y diameter is not an error.
- Bounds whose lower entry is not strictly below the upper entry are rejected
  by the solver before any fit. The model gives `Err(InvalidBounds)` in that
  case. The default background range is `[0, 10 * min(image)]`, so a frame
  containing a zero pixel always gets this error with default bounds
  (`DefaultBoundsStrictIff`). The default policy is kept as written.

## Model

| member | source | states |
|---|---|---|
| `Projection.ColumnMaxima` | beam_profile_example/gaussian_beam_profiler.py:13 | the x signal has one entry per column (W of them); entry i is no smaller than every pixel of column i and equals one of them |
| `Projection.RowMaxima` | beam_profile_example/gaussian_beam_profiler.py:14 | the y signal has one entry per row (H of them); entry j is no smaller than every pixel of row j and equals one of them |
| `Projection.ImageMax` | beam_profile_example/gaussian_beam_profiler.py:18 | np.max(image) is no smaller than any pixel and is the value of some pixel |
| `Projection.ImageMin` | beam_profile_example/gaussian_beam_profiler.py:17-18 | np.min(image) is no larger than any pixel, is the value of some pixel, and is at most np.max(image) |
| `Projection.MaxOfFlattenIsImageMax` | beam_profile_example/gaussian_beam_profiler.py:18 | the maximum over the flattened frame is the largest pixel of the 2D frame |
| `Projection.MinOfFlattenIsImageMin` | beam_profile_example/gaussian_beam_profiler.py:17 | the minimum over the flattened frame is the smallest pixel of the 2D frame |
| `Projection.ColumnMaximaPeak` | beam_profile_example/gaussian_beam_profiler.py:13-18 | the largest entry of the x signal equals np.max(image) |
| `Projection.RowMaximaPeak` | beam_profile_example/gaussian_beam_profiler.py:14-18 | the largest entry of the y signal equals np.max(image) |
| `Projection.ProjectionMaximaAgree` | beam_profile_example/gaussian_beam_profiler.py:13-18 | the largest entry of the x signal, the largest entry of the y signal and np.max(image) are one value |
| `Projection.TransposeSwapsProjections` | beam_profile_example/gaussian_beam_profiler.py:10-14 | for the transposed frame, the shape is swapped, max(W, H) is unchanged, and the x and y signals are exchanged |
| `Projection.TransposeKeepsExtremes` | beam_profile_example/gaussian_beam_profiler.py:17-18 | transposing changes neither np.max(image) nor np.min(image) |
| `Projection.SmallFrameColumnMaxima` | beam_profile_example/gaussian_beam_profiler.py:13 | the frame [[1,5,2],[9,3,4],[6,7,8]] has x signal [9,7,8] |
| `Projection.SmallFrameRowMaxima` | beam_profile_example/gaussian_beam_profiler.py:14 | the same frame has y signal [5,9,8] |
| `GaussianFit.DefaultBounds` | beam_profile_example/gaussian_beam_profiler.py:15-22 | every default lower bound is at most its upper bound; centre and radius share the range [0, max(W, H)], which is not specific to either axis; the background range starts at 0 |
| `GaussianFit.DefaultBoundsStrictIff` | beam_profile_example/gaussian_beam_profiler.py:17-25 | the default bounds are strictly ordered, so the solver accepts them, exactly when min(image) > 0; when min(image) = 0 the background range collapses to [0, 0] |
| `GaussianFit.DefaultBoundsFromExtremes` | beam_profile_example/gaussian_beam_profiler.py:17-22 | the default bounds depend on the frame only through min(image), max(image) and max(W, H) |
| `GaussianFit.DefaultBoundsTranspose` | beam_profile_example/gaussian_beam_profiler.py:19-22 | the transposed frame gets exactly the same default bounds |
| `GaussianFit.EffectiveBounds` | beam_profile_example/gaussian_beam_profiler.py:15-22 | supplied bounds are used unchanged; only when none are supplied are the defaults used |
| `GaussianFit.WithFwhm` | beam_profile_example/gaussian_beam_profiler.py:26-27 | the result has 5 entries; the first four are the fitted parameters unchanged; the fifth is sqrt(2 ln 2) times the fourth |
| `GaussianFit.WithFwhmRoundTrip` | beam_profile_example/gaussian_beam_profiler.py:26-27 | the fitted parameters read back from the 5-vector, and the FWHM converts back to the radius |
| `GaussianFit.FwhmLinear` | beam_profile_example/gaussian_beam_profiler.py:26-27 | scaling the radius by a scales the FWHM by a |
| `GaussianFit.FwhmSignAndOrder` | beam_profile_example/gaussian_beam_profiler.py:26-27 | the FWHM is positive exactly when the radius is, and orders the same way as the radius |
| `GaussianFit.FitAxis` | beam_profile_example/gaussian_beam_profiler.py:24-27 | one fit succeeds exactly when the bounds are strictly ordered and the solver converges; otherwise it reports invalid bounds or non-convergence on its axis; on success it returns a 5-vector whose first four entries are the solver's parameters |
| `GaussianFit.FitGaussian` | beam_profile_example/gaussian_beam_profiler.py:10-27 | an empty frame is the only cause of EmptyImage; on success both results are 5-vectors with FWHM; the x fit gets range(W) and the x signal, the y fit gets range(H) and the y signal, and both get the one effective bounds tuple; success exactly when those bounds are strictly ordered and both solves converge; bounds that are not strictly ordered give InvalidBounds; otherwise a failed x solve gives NoConvergence(X), and a failed y solve after a successful x solve gives NoConvergence(Y), because the x fit runs first |
| `GaussianFit.SuppliedBoundsUseOnlyProjections` | beam_profile_example/gaussian_beam_profiler.py:15-25 | with bounds supplied, two frames with the same x and y signals get the same outcome, so no pixel minimum or maximum is consulted |
| `GaussianFit.FitGaussianTranspose` | beam_profile_example/gaussian_beam_profiler.py:10-27 | fitting the transposed frame succeeds exactly when fitting the frame does, and returns the two vectors exchanged |
| `BeamDiameter.DiameterMm` | beam_profile_example/gaussian_beam_profiler.py:53 | the diameter in millimetres times 1000 equals twice the radius in pixels times the micrometres per pixel |
| `BeamDiameter.BeamDiameterMm` | beam_profile_example/gaussian_beam_profiler.py:51-58 | each returned diameter is 2 * entry 3 of its vector * um_per_px / 1000; each is non-negative for a non-negative radius and pitch |
| `BeamDiameter.DiameterRoundTrip` | beam_profile_example/gaussian_beam_profiler.py:53-54 | for a non-zero pixel pitch the radius in pixels is recovered from the diameter |
| `BeamDiameter.DiameterLinear` | beam_profile_example/gaussian_beam_profiler.py:53-54 | the diameter is linear in the radius and in um_per_px |
| `BeamDiameter.DiameterMonotone` | beam_profile_example/gaussian_beam_profiler.py:53-54 | for a positive pitch, a larger radius gives a larger diameter and conversely |
| `BeamDiameter.DiameterExample` | beam_profile_example/gaussian_beam_profiler.py:69 | a 100-pixel radius at 3.45 um per pixel is a 0.69 mm diameter |
| `BeamDiameter.FwhmDiameterRelation` | beam_profile_example/gaussian_beam_profiler.py:26-54 | for a fitted 5-vector, the FWHM converted to millimetres is sqrt(2 ln 2) / 2 times the 1/e² diameter |
| `BeamDiameter.DiameterOfFit` | beam_profile_example/gaussian_beam_profiler.py:66-69 | when the fit succeeds, the reported diameters convert the radii the solver found for the x and the y signal |
| `BeamDiameter.DiameterTranspose` | beam_profile_example/gaussian_beam_profiler.py:51-58 | exchanging the frame's axes exchanges the two diameters |

## Left out

- `curve_fit` itself (lines 3, 24-25): scipy's bounded nonlinear least-squares solver is foreign code over floats. It is the parameter `solve`. Its convergence and the quality of its fit are not modelled.
- GaussianFit.FitGaussian: does not state that the fitted parameters lie within the bounds. That is a promise of the solver, which is not modelled.
- `gaussian_beam` (lines 7-8): the model function exists only for the solver and the plot, and needs `exp`.
- Floating point: reals replace doubles, so rounding in `FwhmPerRadius * w0` and in the millimetre conversion is not modelled. numpy's fixed-width pixel types are not modelled either: `10 * np.min(image)` on a `uint16` frame could wrap, and here pixels are unbounded naturals.
- Frames with zero rows and some columns: the model derives the width from the first row, so a frame with no rows has width 0. Every frame with zero rows or zero columns gives `EmptyImage`, as numpy's reductions at lines 13-14 fail on it.
- Bounds in any form other than two 4-tuples (for example scalar bounds that the solver broadcasts): the `Bounds` type admits only the 4-tuple form used at lines 21-22.
- Infinite bound entries: `Bounds` holds finite reals only, so supplied bounds that are all ±inf cannot be expressed. curve_fit would then switch to its unbounded method, which rejects signals shorter than four points.
- Solver input errors other than misordered bounds, such as non-finite starting residuals when the radius range is centred on 0 (with no initial guess at lines 24-25, curve_fit starts from the midpoint of the bounds), are reported as `NoConvergence`, because `solve` can only answer `None`. In the code these are raised as ValueError instead.
- Printing (lines 28-31, 55-57), including the x/y diameter ratio, which is only printed; plotting and `savefig` (lines 32-48); TIFF loading in the `__main__` block (lines 60-69).
- `beam_profile_example/gaussian_beam_profiler_example.py`: camera setup, the acquisition loop with its sleep and Ctrl-C handling, and TIFF writing are device and file I/O.
