/** Synthetic spectral responses for the parameter sweep: a boxcar of a
    given centre and full width, and the coverage tests that decide whether
    a boxcar or a Gaussian response fits inside the band grid. */
module Responses {
  import opened Numbers
  import opened Arrays
  import opened Trapezoid

  /** `generate_boxcar`: 1 within half a width of the centre, 0 elsewhere. */
  function Boxcar(x: seq<real>, center: real, fwhm: real): (r: seq<real>)
    ensures |r| == |x|
    ensures forall k :: 0 <= k < |x| ==> (r[k] == 1.0 <==> Abs(x[k] - center) <= fwhm / 2.0)
    ensures forall k :: 0 <= k < |x| ==> (r[k] == 0.0 <==> Abs(x[k] - center) > fwhm / 2.0)
  {
    seq(|x|, k requires 0 <= k < |x| => if Abs(x[k] - center) <= fwhm / 2.0 then 1.0 else 0.0)
  }

  lemma BoxcarNonNegative(x: seq<real>, center: real, fwhm: real)
    ensures NonNegative(Boxcar(x, center, fwhm))
  {
  }

  /** The boxcar window lies within the band grid. */
  predicate BoxcarFits(band: seq<real>, center: real, fwhm: real)
    requires |band| >= 1
  {
    !(center - fwhm / 2.0 < band[0] || center + fwhm / 2.0 > band[|band| - 1])
  }

  /** The Gaussian lies within the band grid up to one and a half widths out. */
  predicate GaussianFits(band: seq<real>, center: real, fwhm: real)
    requires |band| >= 1
  {
    !(center - 1.5 * fwhm < band[0] || center + 1.5 * fwhm > band[|band| - 1])
  }

  /** The Gaussian test is the stricter one: a Gaussian that fits implies a
      boxcar of the same width fits. */
  lemma GaussianFitsBoxcarFits(band: seq<real>, center: real, fwhm: real)
    requires |band| >= 1 && fwhm >= 0.0 && GaussianFits(band, center, fwhm)
    ensures BoxcarFits(band, center, fwhm)
  {
  }

  /** No two neighbouring grid wavelengths are more than `gap` apart. */
  predicate GapsAtMost(band: seq<real>, gap: real)
  {
    forall k :: 0 <= k < |band| - 1 ==> band[k + 1] - band[k] <= gap
  }

  /** On a grid no coarser than the width, a fitting boxcar window holds a
      grid wavelength, counting from position `from` whose wavelength is
      still left of the window. */
  lemma {:induction false} WindowHitsFrom(band: seq<real>, center: real, fwhm: real, from: nat)
    requires |band| >= 1 && fwhm >= 0.0 && BoxcarFits(band, center, fwhm) && GapsAtMost(band, fwhm)
    requires from < |band| && band[from] < center - fwhm / 2.0
    ensures exists k :: 0 <= k < |band| && Abs(band[k] - center) <= fwhm / 2.0
    decreases |band| - from
  {
    var next := from + 1;
    assert next < |band|;
    if band[next] < center - fwhm / 2.0 {
      WindowHitsFrom(band, center, fwhm, next);
    } else {
      assert band[next] <= band[from] + fwhm;
      assert Abs(band[next] - center) <= fwhm / 2.0;
    }
  }

  /** ...and so does every fitting window, wherever it sits. */
  lemma WindowHitsGrid(band: seq<real>, center: real, fwhm: real)
    requires |band| >= 1 && fwhm >= 0.0 && BoxcarFits(band, center, fwhm) && GapsAtMost(band, fwhm)
    ensures exists k :: 0 <= k < |band| && Abs(band[k] - center) <= fwhm / 2.0
  {
    if band[0] < center - fwhm / 2.0 {
      WindowHitsFrom(band, center, fwhm, 0);
    } else {
      assert Abs(band[0] - center) <= fwhm / 2.0;
    }
  }

  /** A fitting boxcar on an increasing grid finer than its width has a
      positive weight integral, so its band average never divides by zero. */
  lemma BoxcarWeightPositive(band: seq<real>, center: real, fwhm: real)
    requires |band| >= 2 && Increasing(band) && fwhm >= 0.0 && GapsAtMost(band, fwhm)
    requires BoxcarFits(band, center, fwhm)
    ensures Trapz(band, Boxcar(band, center, fwhm)) > 0.0
  {
    WindowHitsGrid(band, center, fwhm);
    var k :| 0 <= k < |band| && Abs(band[k] - center) <= fwhm / 2.0;
    BoxcarNonNegative(band, center, fwhm);
    TrapzPositive(band, Boxcar(band, center, fwhm), k);
  }

  /** A positive response on such a grid (as every Gaussian is) has a
      positive weight integral too. */
  lemma PositiveWeightPositive(band: seq<real>, weights: seq<real>)
    requires |band| == |weights| >= 2 && Increasing(band)
    requires forall k :: 0 <= k < |weights| ==> weights[k] > 0.0
    ensures Trapz(band, weights) > 0.0
  {
    TrapzPositive(band, weights, 0);
  }

  /** `np.arange(320, 800, 0.1)`: the band grid, in steps of 0.1 nm. */
  function BandGrid(): (r: seq<real>)
    ensures |r| == 4800
    ensures forall k :: 0 <= k < 4800 ==> r[k] == 320.0 + k as real / 10.0
  {
    seq(4800, k => 320.0 + k as real / 10.0)
  }

  /** `np.arange(350, 780, 3)`: the centre wavelengths of the sweep. */
  function Centres(): (r: seq<real>)
    ensures |r| == 144
    ensures forall i :: 0 <= i < 144 ==> r[i] == 350.0 + 3.0 * i as real
  {
    seq(144, i => 350.0 + 3.0 * i as real)
  }

  /** `np.arange(1, 75, 1)`: the full widths of the sweep. */
  function Widths(): (r: seq<real>)
    ensures |r| == 74
    ensures forall j :: 0 <= j < 74 ==> r[j] == (j + 1) as real
  {
    seq(74, j => (j + 1) as real)
  }

  lemma BandGridShape()
    ensures Increasing(BandGrid()) && GapsAtMost(BandGrid(), 0.1)
    ensures BandGrid()[0] == 320.0 && BandGrid()[4799] == 799.9
  {
  }

  /** Every width of the sweep exceeds the grid step, so every boxcar cell
      the sweep computes has a positive weight integral. */
  lemma SweepBoxcarsWeighted(i: nat, j: nat)
    requires i < 144 && j < 74
    requires BoxcarFits(BandGrid(), Centres()[i], Widths()[j])
    ensures Trapz(BandGrid(), Boxcar(BandGrid(), Centres()[i], Widths()[j])) > 0.0
  {
    var band, w := BandGrid(), Widths()[j];
    BandGridShape();
    forall k | 0 <= k < |band| - 1
      ensures band[k + 1] - band[k] <= w
    {
    }
    BoxcarWeightPositive(band, Centres()[i], w);
  }

  /** At the first centre, 350 nm, boxcars up to 60 nm wide fit and Gaussians
      up to 20 nm; at the last, 779 nm, boxcars up to 41 nm and Gaussians up
      to 13 nm. */
  lemma SweepCoverageAtEnds(j: nat)
    requires j < 74
    ensures BoxcarFits(BandGrid(), Centres()[0], Widths()[j]) <==> Widths()[j] <= 60.0
    ensures GaussianFits(BandGrid(), Centres()[0], Widths()[j]) <==> Widths()[j] <= 20.0
    ensures BoxcarFits(BandGrid(), Centres()[143], Widths()[j]) <==> Widths()[j] <= 41.0
    ensures GaussianFits(BandGrid(), Centres()[143], Widths()[j]) <==> Widths()[j] <= 13.0
  {
    BandGridShape();
  }
}
