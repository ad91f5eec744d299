/** The parameter sweep: for every centre wavelength and full width, band
    average the observed spectra with a boxcar (and a Gaussian) response in
    reflectance space and in radiance space, and record the median relative
    difference. Cells whose response does not fit the band grid stay NaN. */
module Sweep {
  import opened Numbers
  import opened Arrays
  import opened BandAveraging
  import opened Statistics
  import opened Responses

  /** The observations the sweep reads: per observation an Ed, an Lw and an
      R_rs spectrum on one shared wavelength grid. */
  datatype Observations = Observations(wavelengths: seq<real>, ed: seq<seq<real>>, lw: seq<seq<real>>, rrs: seq<seq<real>>)

  /** Every row has one value per wavelength. */
  predicate Rows(wl: seq<real>, rows: seq<seq<real>>)
  {
    forall k :: 0 <= k < |rows| ==> |rows[k]| == |wl|
  }

  /** What `bandaverage_multi` needs not to raise: a non-empty increasing
      grid and at least one observation, with the three tables aligned. */
  predicate WellShaped(obs: Observations)
  {
    |obs.wavelengths| >= 1 && Increasing(obs.wavelengths) &&
    |obs.ed| >= 1 && |obs.lw| == |obs.ed| && |obs.rrs| == |obs.ed| &&
    Rows(obs.wavelengths, obs.ed) && Rows(obs.wavelengths, obs.lw) && Rows(obs.wavelengths, obs.rrs)
  }

  /** The band average of every row, one spectrum at a time. */
  function Averages(resp: Response, wl: seq<real>, rows: seq<seq<real>>): (r: seq<Number>)
    requires Paired(resp) && |wl| >= 1 && Increasing(wl) && Rows(wl, rows)
    ensures |r| == |rows|
    ensures forall k :: 0 <= k < |rows| ==> BandAverage(resp, Spectrum(wl, rows[k])) == Ok(r[k])
  {
    seq(|rows|, k requires 0 <= k < |rows| => BandAverage(resp, Spectrum(wl, rows[k])).value)
  }

  /** `(rad - refl) / rad` for one observation, with `rad = lw / ed` the
      radiance-space result: the relative gap `1 - refl * ed / lw`, that is
      `gap * lw == lw - refl * ed`. */
  function Gap(refl: Number, lw: Number, ed: Number): (r: Number)
    ensures r.Num? <==> refl.Num? && lw.Num? && ed.Num? && ed.val != 0.0 && lw.val != 0.0
    ensures r.Num? ==> r.val * lw.val == lw.val - refl.val * ed.val
  {
    var rad := Div(lw, ed);
    var g := Div(Sub(rad, refl), rad);
    if g.Num? then
      assert g.val * rad.val == rad.val - refl.val;
      assert rad.val * ed.val == lw.val;
      assert g.val * lw.val == (g.val * rad.val) * ed.val;
      g
    else g
  }

  /** The relative gap of every observation. */
  function RelativeGaps(refl: seq<Number>, lw: seq<Number>, ed: seq<Number>): (r: seq<Number>)
    requires |lw| == |refl| && |ed| == |refl|
    ensures |r| == |refl|
    ensures forall k :: 0 <= k < |r| ==> r[k] == Gap(refl[k], lw[k], ed[k])
  {
    seq(|refl|, k requires 0 <= k < |refl| => Gap(refl[k], lw[k], ed[k]))
  }

  /** `np.median`, which unlike `np.nanmedian` is NaN as soon as any entry
      is NaN, and for no entries at all. */
  function StrictMedian(xs: seq<Number>): (r: Number)
    ensures r.Num? <==> |xs| >= 1 && forall k :: 0 <= k < |xs| ==> xs[k].Num?
    ensures r.Num? ==> r == NanMedian(xs)
  {
    if |xs| >= 1 && forall k :: 0 <= k < |xs| ==> xs[k].Num? then
      assert !AllNaN(xs) by {
        assert xs[0].Num?;
      }
      NanMedian(xs)
    else NaN
  }

  /** One computed cell: the median relative gap between radiance space and
      reflectance space over the observations, for response `resp`. */
  function CellValue(obs: Observations, resp: Response): Number
    requires WellShaped(obs) && Paired(resp)
  {
    var wl := obs.wavelengths;
    StrictMedian(RelativeGaps(Averages(resp, wl, obs.rrs), Averages(resp, wl, obs.lw), Averages(resp, wl, obs.ed)))
  }

  /** The three `bandaverage_multi` calls and the median of one cell. */
  method Cell(obs: Observations, resp: Response) returns (v: Number)
    requires WellShaped(obs) && Paired(resp)
    ensures v == CellValue(obs, resp)
  {
    var wl := obs.wavelengths;
    var refl := BandAverageMulti(resp, wl, obs.rrs);
    var lw := BandAverageMulti(resp, wl, obs.lw);
    var ed := BandAverageMulti(resp, wl, obs.ed);
    assert refl.value == Averages(resp, wl, obs.rrs);
    assert lw.value == Averages(resp, wl, obs.lw);
    assert ed.value == Averages(resp, wl, obs.ed);
    v := StrictMedian(RelativeGaps(refl.value, lw.value, ed.value));
  }

  /** Boxcar cell for one centre and width: computed when the boxcar fits. */
  function BoxcarEntry(obs: Observations, band: seq<real>, center: real, fwhm: real): Number
    requires WellShaped(obs) && |band| >= 1
  {
    if BoxcarFits(band, center, fwhm) then CellValue(obs, Response(band, Boxcar(band, center, fwhm))) else NaN
  }

  /** Every Gaussian the generator returns has one weight per band wavelength. */
  ghost predicate GaussianShaped(band: seq<real>, gaussian: (seq<real>, real, real) -> seq<real>)
  {
    forall center: real, fwhm: real {:trigger gaussian(band, center, fwhm)} :: |gaussian(band, center, fwhm)| == |band|
  }

  /** Gaussian cell: reached only past the boxcar test, and computed when the
      Gaussian fits as well. */
  function GaussianEntry(obs: Observations, band: seq<real>, gaussian: (seq<real>, real, real) -> seq<real>,
                         center: real, fwhm: real): Number
    requires WellShaped(obs) && |band| >= 1 && |gaussian(band, center, fwhm)| == |band|
  {
    if BoxcarFits(band, center, fwhm) && GaussianFits(band, center, fwhm) then
      CellValue(obs, Response(band, gaussian(band, center, fwhm)))
    else NaN
  }

  /** `np.tile(np.nan, [rows, cols])`. */
  function NanGrid(rows: nat, cols: nat): (g: seq<seq<Number>>)
    ensures |g| == rows
    ensures forall j :: 0 <= j < rows ==> |g[j]| == cols
    ensures forall j, i :: 0 <= j < rows && 0 <= i < cols ==> g[j][i] == NaN
  {
    seq(rows, j => seq(cols, i => NaN))
  }

  /** The boxcar result grid the sweep must produce: row `j` for width
      `widths[j]`, column `i` for centre `centres[i]`. */
  function BoxcarGrid(obs: Observations, band: seq<real>, centres: seq<real>, widths: seq<real>): (g: seq<seq<Number>>)
    requires WellShaped(obs) && |band| >= 1
    ensures |g| == |widths|
    ensures forall j :: 0 <= j < |widths| ==> |g[j]| == |centres|
    ensures forall j, i :: 0 <= j < |widths| && 0 <= i < |centres| ==>
      g[j][i] == BoxcarEntry(obs, band, centres[i], widths[j])
  {
    seq(|widths|, j requires 0 <= j < |widths| =>
      seq(|centres|, i requires 0 <= i < |centres| => BoxcarEntry(obs, band, centres[i], widths[j])))
  }

  function GaussianGrid(obs: Observations, band: seq<real>, gaussian: (seq<real>, real, real) -> seq<real>,
                        centres: seq<real>, widths: seq<real>): (g: seq<seq<Number>>)
    requires WellShaped(obs) && |band| >= 1 && GaussianShaped(band, gaussian)
    ensures |g| == |widths|
    ensures forall j :: 0 <= j < |widths| ==> |g[j]| == |centres|
    ensures forall j, i :: 0 <= j < |widths| && 0 <= i < |centres| ==>
      g[j][i] == GaussianEntry(obs, band, gaussian, centres[i], widths[j])
  {
    seq(|widths|, j requires 0 <= j < |widths| =>
      seq(|centres|, i requires 0 <= i < |centres| => GaussianEntry(obs, band, gaussian, centres[i], widths[j])))
  }

  /** The loop has visited every centre before `i`, and the widths before
      `j` at centre `i`: those cells hold their final value, every other
      cell is still NaN. */
  predicate Visited(grid: seq<seq<Number>>, target: seq<seq<Number>>, i: nat, j: nat)
  {
    |grid| == |target| &&
    (forall r :: 0 <= r < |grid| ==> |grid[r]| == |target[r]|) &&
    (forall r, c :: 0 <= r < |grid| && 0 <= c < |grid[r]| ==>
      grid[r][c] == (if c < i || (c == i && r < j) then target[r][c] else NaN))
  }

  /** `grid[j, i] = v`. */
  function Put(grid: seq<seq<Number>>, j: nat, i: nat, v: Number): (g: seq<seq<Number>>)
    requires j < |grid| && i < |grid[j]|
    ensures |g| == |grid|
    ensures forall r :: 0 <= r < |g| ==> |g[r]| == |grid[r]|
    ensures forall r, c :: 0 <= r < |g| && 0 <= c < |g[r]| ==>
      g[r][c] == (if r == j && c == i then v else grid[r][c])
  {
    grid[j := grid[j][i := v]]
  }

  /** Visiting cell `(j, i)` and writing its final value into it. */
  lemma VisitStep(grid: seq<seq<Number>>, target: seq<seq<Number>>, i: nat, j: nat)
    requires Visited(grid, target, i, j) && j < |grid| && i < |grid[j]|
    ensures Visited(Put(grid, j, i, target[j][i]), target, i, j + 1)
  {
  }

  /** Visiting a cell whose final value is NaN leaves the grid as it is. */
  lemma SkipStep(grid: seq<seq<Number>>, target: seq<seq<Number>>, i: nat, j: nat)
    requires Visited(grid, target, i, j) && j < |grid| && i < |grid[j]| && target[j][i] == NaN
    ensures Visited(grid, target, i, j + 1)
  {
  }

  /** After every width at centre `i`, the next centre begins. */
  lemma NextCentre(grid: seq<seq<Number>>, target: seq<seq<Number>>, i: nat)
    requires Visited(grid, target, i, |grid|)
    ensures Visited(grid, target, i + 1, 0)
  {
  }

  /** After every centre, the grid is the target. */
  lemma AllVisited(grid: seq<seq<Number>>, target: seq<seq<Number>>, cols: nat)
    requires Visited(grid, target, cols, 0)
    requires forall r :: 0 <= r < |grid| ==> |grid[r]| == cols
    ensures grid == target
  {
    forall r | 0 <= r < |grid|
      ensures grid[r] == target[r]
    {
    }
  }

  /** One pass of the inner loop of `generate_spectral_responses.py`: every
      width at centre `i`, the Gaussian test only reached once the boxcar
      one passed. */
  method SweepCentre(obs: Observations, band: seq<real>, gaussian: (seq<real>, real, real) -> seq<real>,
                     centres: seq<real>, widths: seq<real>, i: nat,
                     boxcar0: seq<seq<Number>>, gauss0: seq<seq<Number>>)
    returns (boxcar: seq<seq<Number>>, gauss: seq<seq<Number>>)
    requires WellShaped(obs) && |band| >= 1 && GaussianShaped(band, gaussian) && i < |centres|
    requires Visited(boxcar0, BoxcarGrid(obs, band, centres, widths), i, 0)
    requires Visited(gauss0, GaussianGrid(obs, band, gaussian, centres, widths), i, 0)
    ensures Visited(boxcar, BoxcarGrid(obs, band, centres, widths), i + 1, 0)
    ensures Visited(gauss, GaussianGrid(obs, band, gaussian, centres, widths), i + 1, 0)
  {
    ghost var bTarget := BoxcarGrid(obs, band, centres, widths);
    ghost var gTarget := GaussianGrid(obs, band, gaussian, centres, widths);
    boxcar, gauss := boxcar0, gauss0;
    var j := 0;
    while j < |widths|
      invariant 0 <= j <= |widths|
      invariant Visited(boxcar, bTarget, i, j) && Visited(gauss, gTarget, i, j)
    {
      var center, fwhm := centres[i], widths[j];
      assert |gaussian(band, center, fwhm)| == |band|;
      if BoxcarFits(band, center, fwhm) {
        var v := Cell(obs, Response(band, Boxcar(band, center, fwhm)));
        VisitStep(boxcar, bTarget, i, j);
        boxcar := Put(boxcar, j, i, v);
        if GaussianFits(band, center, fwhm) {
          var g := Cell(obs, Response(band, gaussian(band, center, fwhm)));
          VisitStep(gauss, gTarget, i, j);
          gauss := Put(gauss, j, i, g);
        } else {
          SkipStep(gauss, gTarget, i, j);
        }
      } else {
        SkipStep(boxcar, bTarget, i, j);
        SkipStep(gauss, gTarget, i, j);
      }
      j := j + 1;
    }
    NextCentre(boxcar, bTarget, i);
    NextCentre(gauss, gTarget, i);
  }

  /** The sweep of `generate_spectral_responses.py`: boxcar and Gaussian
      grids together, NaN wherever the response does not fit. */
  method BoxcarGaussianSweep(obs: Observations, band: seq<real>, gaussian: (seq<real>, real, real) -> seq<real>,
                             centres: seq<real>, widths: seq<real>)
    returns (boxcar: seq<seq<Number>>, gauss: seq<seq<Number>>)
    requires WellShaped(obs) && |band| >= 1 && GaussianShaped(band, gaussian)
    ensures boxcar == BoxcarGrid(obs, band, centres, widths)
    ensures gauss == GaussianGrid(obs, band, gaussian, centres, widths)
  {
    boxcar := NanGrid(|widths|, |centres|);
    gauss := boxcar;
    var i := 0;
    while i < |centres|
      invariant 0 <= i <= |centres|
      invariant Visited(boxcar, BoxcarGrid(obs, band, centres, widths), i, 0)
      invariant Visited(gauss, GaussianGrid(obs, band, gaussian, centres, widths), i, 0)
    {
      boxcar, gauss := SweepCentre(obs, band, gaussian, centres, widths, i, boxcar, gauss);
      i := i + 1;
    }
    AllVisited(boxcar, BoxcarGrid(obs, band, centres, widths), |centres|);
    AllVisited(gauss, GaussianGrid(obs, band, gaussian, centres, widths), |centres|);
  }

  /** The boxcar-only sweep of `boxcar.py`. */
  method BoxcarSweep(obs: Observations, band: seq<real>, centres: seq<real>, widths: seq<real>)
    returns (boxcar: seq<seq<Number>>)
    requires WellShaped(obs) && |band| >= 1
    ensures boxcar == BoxcarGrid(obs, band, centres, widths)
  {
    ghost var target := BoxcarGrid(obs, band, centres, widths);
    boxcar := NanGrid(|widths|, |centres|);
    var i := 0;
    while i < |centres|
      invariant 0 <= i <= |centres|
      invariant Visited(boxcar, target, i, 0)
    {
      var j := 0;
      while j < |widths|
        invariant 0 <= j <= |widths|
        invariant Visited(boxcar, target, i, j)
      {
        var center, fwhm := centres[i], widths[j];
        if BoxcarFits(band, center, fwhm) {
          var v := Cell(obs, Response(band, Boxcar(band, center, fwhm)));
          VisitStep(boxcar, target, i, j);
          boxcar := Put(boxcar, j, i, v);
        } else {
          SkipStep(boxcar, target, i, j);
        }
        j := j + 1;
      }
      NextCentre(boxcar, target, i);
      i := i + 1;
    }
    AllVisited(boxcar, target, |centres|);
  }

  /** Wherever the Gaussian grid holds a number, the boxcar cell at the same
      place was computed (though it may be NaN itself). */
  lemma GaussianComputedBoxcarComputed(obs: Observations, band: seq<real>, gaussian: (seq<real>, real, real) -> seq<real>,
                                       centres: seq<real>, widths: seq<real>, j: nat, i: nat)
    requires WellShaped(obs) && |band| >= 1 && GaussianShaped(band, gaussian)
    requires j < |widths| && i < |centres|
    requires GaussianGrid(obs, band, gaussian, centres, widths)[j][i].Num?
    ensures BoxcarFits(band, centres[i], widths[j])
    ensures BoxcarGrid(obs, band, centres, widths)[j][i] ==
            CellValue(obs, Response(band, Boxcar(band, centres[i], widths[j])))
  {
    assert |gaussian(band, centres[i], widths[j])| == |band|;
  }

  /** A cell is a number exactly when every observation gave a finite
      relative gap, which needs all three band averages to be numbers and
      the radiance and irradiance averages to be non-zero. */
  lemma CellNumber(obs: Observations, resp: Response)
    requires WellShaped(obs) && Paired(resp)
    ensures var wl := obs.wavelengths;
      var refl, lw, ed := Averages(resp, wl, obs.rrs), Averages(resp, wl, obs.lw), Averages(resp, wl, obs.ed);
      CellValue(obs, resp).Num? <==> forall k :: 0 <= k < |obs.ed| ==> RelativeGaps(refl, lw, ed)[k].Num?
    ensures CellValue(obs, resp).Num? ==>
      var wl := obs.wavelengths;
      var refl, lw, ed := Averages(resp, wl, obs.rrs), Averages(resp, wl, obs.lw), Averages(resp, wl, obs.ed);
      forall k :: 0 <= k < |obs.ed| ==>
        refl[k].Num? && lw[k].Num? && ed[k].Num? && lw[k] != Num(0.0) && ed[k] != Num(0.0)
  {
  }
  /** `np.median` of identical numbers is that number. */
  lemma StrictMedianConstant(xs: seq<Number>, c: real)
    requires |xs| >= 1 && forall k :: 0 <= k < |xs| ==> xs[k] == Num(c)
    ensures StrictMedian(xs) == Num(c)
  {
    NanPercentileBounds(xs, 50.0);
  }

  /** Where radiance is exactly `c` times irradiance and the reflectance is
      `c`, both routes agree and the gap vanishes. */
  lemma GapOfAgreement(c: real, v: real)
    requires c != 0.0 && v != 0.0
    ensures Gap(Num(c), Num(c * v), Num(v)) == Num(0.0)
  {
    var g := Gap(Num(c), Num(c * v), Num(v));
    assert g.val * (c * v) == 0.0;
    assert c * v != 0.0;
  }

  /** A spectrally flat reflectance `c`, with every Lw spectrum exactly `c`
      times its Ed spectrum, makes the two routes agree: band averaging in
      reflectance space and in radiance space give the same answer, and the
      cell is zero. The response must lie within the data's wavelengths and
      no Ed spectrum may average to zero. */
  lemma FlatReflectanceNoDifference(obs: Observations, resp: Response, c: real)
    requires WellShaped(obs) && Paired(resp) && WeightIntegral(resp) != 0.0 && c != 0.0
    requires forall k :: 0 <= k < |resp.wavelengths| ==>
      obs.wavelengths[0] <= resp.wavelengths[k] <= obs.wavelengths[|obs.wavelengths| - 1]
    requires forall n :: 0 <= n < |obs.ed| ==> Constant(obs.rrs[n], c) && obs.lw[n] == Scaled(c, obs.ed[n])
    requires forall n :: 0 <= n < |obs.ed| ==> Averages(resp, obs.wavelengths, obs.ed)[n] != Num(0.0)
    ensures CellValue(obs, resp) == Num(0.0)
  {
    var wl := obs.wavelengths;
    var refl, lw, ed := Averages(resp, wl, obs.rrs), Averages(resp, wl, obs.lw), Averages(resp, wl, obs.ed);
    var gaps := RelativeGaps(refl, lw, ed);
    forall n | 0 <= n < |gaps|
      ensures gaps[n] == Num(0.0)
    {
      BandAverageConstant(resp, Spectrum(wl, obs.rrs[n]), c);
      assert refl[n] == Num(c);
      var v := ed[n].val;
      assert BandAverage(resp, Spectrum(wl, obs.ed[n])) == Ok(Num(v));
      assert obs.lw[n] == Combine(c, obs.ed[n], 0.0, obs.ed[n]);
      BandAverageLinear(resp, wl, c, obs.ed[n], v, 0.0, obs.ed[n], v);
      assert lw[n] == Num(c * v);
      GapOfAgreement(c, v);
    }
    StrictMedianConstant(gaps, 0.0);
  }
}
