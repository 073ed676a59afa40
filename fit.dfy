/** The deterministic logic of fit_gaussian around its least-squares solver:
    the default parameter bounds derived from the frame, the two axis fits
    that share one bounds tuple, and the FWHM appended to each fitted
    parameter vector.

    The solver itself (scipy's curve_fit) is not modelled: it is a parameter
    of FitGaussian, a function from (coordinates, signal, bounds) to fitted
    parameters, or to nothing when it does not converge.
 */
module GaussianFit {
  import opened Projection

  datatype Option<T> = None | Some(value: T)

  /** The parameters of the model bg + I0 * exp(-2 ((r - r0) / w0)^2):
      background, peak intensity, centre and 1/e^2 radius, in that order. */
  datatype Params = Params(bg: real, peak: real, center: real, radius: real)

  /** One lower and one upper bound per parameter, the 2-tuple of 4-tuples curve_fit takes. */
  datatype Bounds = Bounds(lower: Params, upper: Params)

  /** The fitted parameters as the solver returns them: a vector of four. */
  function Vector(p: Params): seq<real> {
    [p.bg, p.peak, p.center, p.radius]
  }

  /** Every lower bound is at most its upper bound. */
  predicate Ordered(b: Bounds) {
    && b.lower.bg <= b.upper.bg
    && b.lower.peak <= b.upper.peak
    && b.lower.center <= b.upper.center
    && b.lower.radius <= b.upper.radius
  }

  /** Every lower bound is strictly below its upper bound: the only bounds the
      solver accepts (it rejects the rest before fitting). */
  predicate StrictlyOrdered(b: Bounds) {
    && b.lower.bg < b.upper.bg
    && b.lower.peak < b.upper.peak
    && b.lower.center < b.upper.center
    && b.lower.radius < b.upper.radius
  }

  // ---------------------------------------------------------------------------
  // Default bounds
  // ---------------------------------------------------------------------------

  /** The loose bounds used when the caller gives none: background in
      [0, 10 min], peak in [min, 2 max], centre and radius both in
      [0, max(W, H)], where min and max range over every pixel of the frame. */
  function DefaultBounds(img: Image): (b: Bounds)
    requires Rectangular(img) && NonEmpty(img)
    ensures Ordered(b)
    ensures b.lower.center == b.lower.radius == 0.0
    ensures b.upper.center == b.upper.radius == MaxDim(img) as real
    ensures b.lower.bg == 0.0 && b.upper.bg >= 0.0
  {
    var lo := ImageMin(img) as real;
    var hi := ImageMax(img) as real;
    var extent := MaxDim(img) as real;
    Bounds(Params(0.0, lo, 0.0, 0.0), Params(10.0 * lo, 2.0 * hi, extent, extent))
  }

  /** The default bounds are accepted by the solver exactly when the darkest
      pixel of the frame is brighter than zero; otherwise the background range
      collapses to [0, 0]. */
  lemma DefaultBoundsStrictIff(img: Image)
    requires Rectangular(img) && NonEmpty(img)
    ensures StrictlyOrdered(DefaultBounds(img)) <==> ImageMin(img) > 0
    ensures ImageMin(img) == 0 ==> DefaultBounds(img).lower.bg == DefaultBounds(img).upper.bg == 0.0
  {
  }

  /** The default bounds see the frame only through its darkest pixel, its
      brightest pixel and its larger dimension. */
  lemma DefaultBoundsFromExtremes(img1: Image, img2: Image)
    requires Rectangular(img1) && NonEmpty(img1) && Rectangular(img2) && NonEmpty(img2)
    requires ImageMin(img1) == ImageMin(img2) && ImageMax(img1) == ImageMax(img2)
    requires MaxDim(img1) == MaxDim(img2)
    ensures DefaultBounds(img1) == DefaultBounds(img2)
  {
  }

  /** The default bounds do not depend on which axis is which: the transposed
      frame gets the very same bounds. */
  lemma DefaultBoundsTranspose(img: Image)
    requires Rectangular(img) && NonEmpty(img)
    ensures NonEmpty(Transpose(img))
    ensures DefaultBounds(Transpose(img)) == DefaultBounds(img)
  {
    TransposeKeepsExtremes(img);
    TransposeSwapsProjections(img);
    DefaultBoundsFromExtremes(Transpose(img), img);
  }

  /** The bounds that reach the solver: the caller's, unchanged, when given;
      the defaults otherwise. */
  function EffectiveBounds(img: Image, bounds: Option<Bounds>): (b: Bounds)
    requires Rectangular(img) && NonEmpty(img)
    ensures bounds.Some? ==> b == bounds.value
    ensures bounds.None? ==> b == DefaultBounds(img)
  {
    match bounds
    case Some(given) => given
    case None => DefaultBounds(img)
  }

  // ---------------------------------------------------------------------------
  // FWHM
  // ---------------------------------------------------------------------------

  /** sqrt(2 ln 2), the factor from a 1/e^2 radius to a full width at half
      maximum, written as the double the source computes. Only its positivity
      is used below. */
  const FwhmPerRadius: real := 1.1774100225154747

  /** The five-entry result for one axis: the fitted four followed by the FWHM. */
  predicate IsFitVector(v: seq<real>) {
    |v| == 5 && v[4] == FwhmPerRadius * v[3]
  }

  /** np.append(p, sqrt(2 ln 2) * p[3]). */
  function WithFwhm(p: Params): (v: seq<real>)
    ensures IsFitVector(v)
    ensures v[..4] == Vector(p)
  {
    Vector(p) + [FwhmPerRadius * p.radius]
  }

  /** The four model parameters of a result vector (its first four entries). */
  function ParamsOf(v: seq<real>): Params
    requires |v| >= 4
  {
    Params(v[0], v[1], v[2], v[3])
  }

  /** The radius recovered from a FWHM: the inverse of the conversion. */
  function RadiusFromFwhm(fwhm: real): real {
    fwhm / FwhmPerRadius
  }

  /** Appending the FWHM loses nothing: the fitted parameters read back
      unchanged, and the FWHM converts back to the radius. */
  lemma WithFwhmRoundTrip(p: Params)
    ensures ParamsOf(WithFwhm(p)) == p
    ensures RadiusFromFwhm(WithFwhm(p)[4]) == p.radius
  {
  }

  /** The FWHM is linear in the radius. */
  lemma FwhmLinear(p: Params, q: Params, a: real)
    requires q.radius == a * p.radius
    ensures WithFwhm(q)[4] == a * WithFwhm(p)[4]
  {
  }

  /** The FWHM is positive exactly when the radius is, and grows with it. */
  lemma FwhmSignAndOrder(p: Params, q: Params)
    ensures WithFwhm(p)[4] > 0.0 <==> p.radius > 0.0
    ensures p.radius < q.radius <==> WithFwhm(p)[4] < WithFwhm(q)[4]
  {
  }

  // ---------------------------------------------------------------------------
  // The two axis fits
  // ---------------------------------------------------------------------------

  /** The least-squares solver: fitted parameters for a signal sampled at the
      given coordinates within the given bounds, or None when it does not converge. */
  type Solver = (seq<nat>, seq<nat>, Bounds) -> Option<Params>

  datatype Axis = X | Y

  datatype FitError =
    | EmptyImage             // a zero-size frame cannot be max-projected
    | InvalidBounds          // some lower bound is not below its upper bound
    | NoConvergence(axis: Axis)

  datatype Result<T> = Ok(value: T) | Err(error: FitError)

  /** The pixel coordinates 0, 1, ..., n - 1 of one axis (range(n)). */
  function Coordinates(n: nat): (c: seq<nat>)
    ensures |c| == n
    ensures forall k :: 0 <= k < n ==> c[k] == k
  {
    seq(n, k => k)
  }

  /** One curve_fit call followed by the FWHM append. */
  function FitAxis(axis: Axis, coords: seq<nat>, signal: seq<nat>, b: Bounds, solve: Solver): (r: Result<seq<real>>)
    ensures r.Ok? <==> StrictlyOrdered(b) && solve(coords, signal, b).Some?
    ensures !StrictlyOrdered(b) ==> r == Err(InvalidBounds)
    ensures StrictlyOrdered(b) && solve(coords, signal, b).None? ==> r == Err(NoConvergence(axis))
    ensures r.Ok? ==> IsFitVector(r.value) && Some(ParamsOf(r.value)) == solve(coords, signal, b)
  {
    if !StrictlyOrdered(b) then Err(InvalidBounds)
    else
      match solve(coords, signal, b)
      case None => Err(NoConvergence(axis))
      case Some(p) =>
        WithFwhmRoundTrip(p);
        Ok(WithFwhm(p))
  }

  /** The x outcome, then the y outcome: the first failure is the one reported. */
  function BothAxes(xr: Result<seq<real>>, yr: Result<seq<real>>): Result<(seq<real>, seq<real>)> {
    if xr.Err? then Err(xr.error)
    else if yr.Err? then Err(yr.error)
    else Ok((xr.value, yr.value))
  }

  /** fit_gaussian without printing and plotting: project the frame, settle
      the bounds once, fit the x signal and then the y signal with those same
      bounds, and return both five-entry vectors. */
  function FitGaussian(img: Image, bounds: Option<Bounds>, solve: Solver): (r: Result<(seq<real>, seq<real>)>)
    requires Rectangular(img)
    ensures r == Err(EmptyImage) <==> !NonEmpty(img)
    ensures r.Ok? ==> IsFitVector(r.value.0) && IsFitVector(r.value.1)
    ensures NonEmpty(img) ==>
      var b := EffectiveBounds(img, bounds);
      && (r.Ok? <==>
            && StrictlyOrdered(b)
            && solve(Coordinates(Width(img)), ColumnMaxima(img), b).Some?
            && solve(Coordinates(Height(img)), RowMaxima(img), b).Some?)
      && (!StrictlyOrdered(b) ==> r == Err(InvalidBounds))
      && (StrictlyOrdered(b) && solve(Coordinates(Width(img)), ColumnMaxima(img), b).None? ==>
            r == Err(NoConvergence(X)))
      && (StrictlyOrdered(b)
          && solve(Coordinates(Width(img)), ColumnMaxima(img), b).Some?
          && solve(Coordinates(Height(img)), RowMaxima(img), b).None? ==>
            r == Err(NoConvergence(Y)))
      && (r.Ok? ==>
            && Some(ParamsOf(r.value.0)) == solve(Coordinates(Width(img)), ColumnMaxima(img), b)
            && Some(ParamsOf(r.value.1)) == solve(Coordinates(Height(img)), RowMaxima(img), b))
  {
    if !NonEmpty(img) then Err(EmptyImage)
    else
      var b := EffectiveBounds(img, bounds);
      BothAxes(FitAxis(X, Coordinates(Width(img)), ColumnMaxima(img), b, solve),
               FitAxis(Y, Coordinates(Height(img)), RowMaxima(img), b, solve))
  }

  /** With bounds supplied, the outcome depends on the frame only through its
      two max-projections: no pixel minimum or maximum is consulted. */
  lemma SuppliedBoundsUseOnlyProjections(img1: Image, img2: Image, b: Bounds, solve: Solver)
    requires Rectangular(img1) && NonEmpty(img1) && Rectangular(img2) && NonEmpty(img2)
    requires ColumnMaxima(img1) == ColumnMaxima(img2) && RowMaxima(img1) == RowMaxima(img2)
    ensures FitGaussian(img1, Some(b), solve) == FitGaussian(img2, Some(b), solve)
  {
  }

  /** Two frames whose x and y signals are each other's, fitted within the same
      bounds, get each other's results. */
  lemma FitGaussianSwap(img1: Image, img2: Image, bounds: Option<Bounds>, solve: Solver)
    requires Rectangular(img1) && NonEmpty(img1) && Rectangular(img2) && NonEmpty(img2)
    requires EffectiveBounds(img1, bounds) == EffectiveBounds(img2, bounds)
    requires Width(img1) == Height(img2) && Height(img1) == Width(img2)
    requires ColumnMaxima(img1) == RowMaxima(img2) && RowMaxima(img1) == ColumnMaxima(img2)
    ensures FitGaussian(img1, bounds, solve).Ok? <==> FitGaussian(img2, bounds, solve).Ok?
    ensures FitGaussian(img2, bounds, solve).Ok? ==>
      FitGaussian(img1, bounds, solve).value ==
        (FitGaussian(img2, bounds, solve).value.1, FitGaussian(img2, bounds, solve).value.0)
  {
    var b := EffectiveBounds(img1, bounds);
    var cw, ch := Coordinates(Width(img1)), Coordinates(Height(img1));
    var xs, ys := ColumnMaxima(img1), RowMaxima(img1);
    assert FitGaussian(img1, bounds, solve) == BothAxes(FitAxis(X, cw, xs, b, solve), FitAxis(Y, ch, ys, b, solve));
    assert FitGaussian(img2, bounds, solve) == BothAxes(FitAxis(X, ch, ys, b, solve), FitAxis(Y, cw, xs, b, solve));
    FitAxisAxisBlind(cw, xs, b, solve);
    FitAxisAxisBlind(ch, ys, b, solve);
  }

  /** The axis label only names the failure: success and the fitted vector do
      not depend on it. */
  lemma FitAxisAxisBlind(coords: seq<nat>, signal: seq<nat>, b: Bounds, solve: Solver)
    ensures FitAxis(X, coords, signal, b, solve).Ok? == FitAxis(Y, coords, signal, b, solve).Ok?
    ensures FitAxis(X, coords, signal, b, solve).Ok? ==>
      FitAxis(X, coords, signal, b, solve).value == FitAxis(Y, coords, signal, b, solve).value
  {
  }

  /** Exchanging the axes of the frame exchanges the two results: the x and y
      fits are the same computation on different signals with shared bounds. */
  lemma FitGaussianTranspose(img: Image, bounds: Option<Bounds>, solve: Solver)
    requires Rectangular(img) && NonEmpty(img)
    ensures NonEmpty(Transpose(img))
    ensures FitGaussian(Transpose(img), bounds, solve).Ok? <==> FitGaussian(img, bounds, solve).Ok?
    ensures FitGaussian(img, bounds, solve).Ok? ==>
      FitGaussian(Transpose(img), bounds, solve).value ==
        (FitGaussian(img, bounds, solve).value.1, FitGaussian(img, bounds, solve).value.0)
  {
    TransposeSwapsProjections(img);
    DefaultBoundsTranspose(img);
    FitGaussianSwap(Transpose(img), img, bounds, solve);
  }
}
