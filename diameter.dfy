/** get_beam_diameter_mm: the fitted 1/e^2 radii, in pixels, converted to
    1/e^2 diameters in millimetres with the sensor's pixel pitch in
    micrometres per pixel. */
module BeamDiameter {
  import opened Projection
  import opened GaussianFit

  /** Millimetres per micrometre: the 1e-3 of the conversion. */
  const MmPerUm: real := 0.001

  /** The 1/e^2 diameter in millimetres of a beam whose 1/e^2 radius is
      radiusPx pixels on a sensor of umPerPx micrometres per pixel. */
  function DiameterMm(radiusPx: real, umPerPx: real): (d: real)
    ensures 1000.0 * d == (2.0 * radiusPx) * umPerPx
  {
    MmPerUm * 2.0 * radiusPx * umPerPx
  }

  /** Both diameters from the (x, y) pair of fitted parameter vectors; entry 3
      of each vector is its 1/e^2 radius. The x/y ratio is only reported, not returned. */
  function BeamDiameterMm(xy: (seq<real>, seq<real>), umPerPx: real): (d: (real, real))
    requires |xy.0| > 3 && |xy.1| > 3
    ensures 1000.0 * d.0 == (2.0 * xy.0[3]) * umPerPx
    ensures 1000.0 * d.1 == (2.0 * xy.1[3]) * umPerPx
    ensures xy.0[3] >= 0.0 && umPerPx >= 0.0 ==> d.0 >= 0.0
    ensures xy.1[3] >= 0.0 && umPerPx >= 0.0 ==> d.1 >= 0.0
  {
    (DiameterMm(xy.0[3], umPerPx), DiameterMm(xy.1[3], umPerPx))
  }

  /** The radius in pixels that a diameter in millimetres came from. */
  function RadiusPx(diameterMm: real, umPerPx: real): real
    requires umPerPx != 0.0
  {
    diameterMm / (2.0 * umPerPx * MmPerUm)
  }

  /** The conversion loses nothing for a non-zero pixel pitch: the radius
      reads back from the diameter. */
  lemma DiameterRoundTrip(radiusPx: real, umPerPx: real)
    requires umPerPx != 0.0
    ensures RadiusPx(DiameterMm(radiusPx, umPerPx), umPerPx) == radiusPx
  {
  }

  /** The diameter is linear in the radius and in the pixel pitch. */
  lemma DiameterLinear(radiusPx: real, umPerPx: real, a: real)
    ensures DiameterMm(a * radiusPx, umPerPx) == a * DiameterMm(radiusPx, umPerPx)
    ensures DiameterMm(radiusPx, a * umPerPx) == a * DiameterMm(radiusPx, umPerPx)
  {
  }

  /** A larger radius gives a larger diameter, for any positive pixel pitch. */
  lemma DiameterMonotone(r1: real, r2: real, umPerPx: real)
    requires umPerPx > 0.0
    ensures r1 < r2 <==> DiameterMm(r1, umPerPx) < DiameterMm(r2, umPerPx)
  {
  }

  /** A radius of 100 pixels on a 3.45 um pixel is a 0.69 mm diameter. */
  lemma DiameterExample()
    ensures DiameterMm(100.0, 3.45) == 0.69
  {
  }

  /** For a fitted vector, the FWHM converted the same way is sqrt(2 ln 2) / 2
      times the 1/e^2 diameter. */
  lemma FwhmDiameterRelation(v: seq<real>, umPerPx: real)
    requires IsFitVector(v)
    ensures MmPerUm * v[4] * umPerPx == (FwhmPerRadius / 2.0) * DiameterMm(v[3], umPerPx)
  {
  }

  /** End to end: when fit_gaussian succeeds, the reported diameters are the
      conversions of the radii the solver found for the x and the y signal. */
  lemma DiameterOfFit(img: Image, bounds: Option<Bounds>, solve: Solver, umPerPx: real)
    requires Rectangular(img)
    ensures FitGaussian(img, bounds, solve).Ok? ==> NonEmpty(img)
    ensures FitGaussian(img, bounds, solve).Ok? && NonEmpty(img) ==>
      var b := EffectiveBounds(img, bounds);
      var px := solve(Coordinates(Width(img)), ColumnMaxima(img), b).value;
      var py := solve(Coordinates(Height(img)), RowMaxima(img), b).value;
      BeamDiameterMm(FitGaussian(img, bounds, solve).value, umPerPx) ==
        (DiameterMm(px.radius, umPerPx), DiameterMm(py.radius, umPerPx))
  {
  }

  /** Exchanging the axes of the frame exchanges the two diameters. */
  lemma DiameterTranspose(img: Image, bounds: Option<Bounds>, solve: Solver, umPerPx: real)
    requires Rectangular(img) && NonEmpty(img)
    ensures NonEmpty(Transpose(img))
    ensures FitGaussian(Transpose(img), bounds, solve).Ok? <==> FitGaussian(img, bounds, solve).Ok?
    ensures FitGaussian(img, bounds, solve).Ok? ==>
      var d := BeamDiameterMm(FitGaussian(img, bounds, solve).value, umPerPx);
      BeamDiameterMm(FitGaussian(Transpose(img), bounds, solve).value, umPerPx) == (d.1, d.0)
  {
    FitGaussianTranspose(img, bounds, solve);
  }
}
