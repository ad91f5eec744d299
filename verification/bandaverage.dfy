/** The band-averaging engine: interpolate a spectrum onto a response
    function's grid (zero outside the data), weight it, integrate with the
    trapezoidal rule and normalise by the integral of the weights. */
module BandAveraging {
  import opened Numbers
  import opened Arrays
  import opened Interpolation
  import opened Trapezoid

  /** A sampled spectrum: `values[k]` measured at `wavelengths[k]`. */
  datatype Spectrum = Spectrum(wavelengths: seq<real>, values: seq<real>)

  /** A spectral response function sampled on its own wavelength grid; the
      weights need not be normalised. */
  datatype Response = Response(wavelengths: seq<real>, weights: seq<real>)

  /** `np.interp` accepts the samples: at least one point, one value per wavelength. */
  predicate Sampled(data: Spectrum)
  {
    |data.wavelengths| >= 1 && |data.values| == |data.wavelengths|
  }

  /** One weight per response wavelength. */
  predicate Paired(resp: Response)
  {
    |resp.weights| == |resp.wavelengths|
  }

  /** The spectrum interpolated onto `band`, zero outside its wavelength range. */
  function Resample(band: seq<real>, data: Spectrum): (r: seq<real>)
    requires Sampled(data) && Increasing(data.wavelengths)
    ensures |r| == |band|
    ensures forall k :: 0 <= k < |band| ==> r[k] == Interp(data.wavelengths, data.values, band[k])
  {
    seq(|band|, k requires 0 <= k < |band| => Interp(data.wavelengths, data.values, band[k]))
  }

  /** The normalisation denominator: trapezoidal integral of the weights. */
  function WeightIntegral(resp: Response): real
    requires Paired(resp)
  {
    Trapz(resp.wavelengths, resp.weights)
  }

  /** The numerator: trapezoidal integral of the weighted, resampled spectrum. */
  function WeightedIntegral(resp: Response, data: Spectrum): real
    requires Paired(resp) && Sampled(data) && Increasing(data.wavelengths)
  {
    Trapz(resp.wavelengths, Product(Resample(resp.wavelengths, data), resp.weights))
  }

  /** `bandaverage`: the weighted mean of the spectrum over the response. A
      zero weight integral is not special-cased and surfaces as NaN. */
  function BandAverage(resp: Response, data: Spectrum): (r: Result<Number>)
    requires Increasing(data.wavelengths)
    ensures r == Err(EmptyData) <==> |data.wavelengths| == 0
    ensures r == Err(DataShapeMismatch) <==> |data.wavelengths| >= 1 && |data.values| != |data.wavelengths|
    ensures r == Err(ResponseShapeMismatch) <==> Sampled(data) && !Paired(resp)
    ensures r.Ok? <==> Sampled(data) && Paired(resp)
    ensures r.Ok? ==> (r.value.NaN? <==> WeightIntegral(resp) == 0.0)
  {
    if |data.wavelengths| == 0 then Err(EmptyData)
    else if |data.values| != |data.wavelengths| then Err(DataShapeMismatch)
    else if !Paired(resp) then Err(ResponseShapeMismatch)
    else Ok(Div(Num(WeightedIntegral(resp, data)), Num(WeightIntegral(resp))))
  }

  /** On well-shaped inputs the band average is the ratio of the two integrals. */
  lemma BandAverageIsRatio(resp: Response, data: Spectrum)
    requires Sampled(data) && Increasing(data.wavelengths) && Paired(resp)
    ensures BandAverage(resp, data) == Ok(Div(Num(WeightedIntegral(resp, data)), Num(WeightIntegral(resp))))
    ensures BandAverage(resp, data).value.Num? ==>
              BandAverage(resp, data).value.val * WeightIntegral(resp) == WeightedIntegral(resp, data)
  {
  }

  /** The resampled spectrum is 0 on band wavelengths outside the data's
      range and reproduces the data at its own sample wavelengths. */
  lemma ResampleZeroFill(band: seq<real>, data: Spectrum, k: nat)
    requires Sampled(data) && Increasing(data.wavelengths) && k < |band|
    ensures band[k] < data.wavelengths[0] ==> Resample(band, data)[k] == 0.0
    ensures band[k] > data.wavelengths[|data.wavelengths| - 1] ==> Resample(band, data)[k] == 0.0
    ensures forall j :: 0 <= j < |data.wavelengths| && band[k] == data.wavelengths[j] ==>
              Resample(band, data)[k] == data.values[j]
  {
    forall j | 0 <= j < |data.wavelengths| && band[k] == data.wavelengths[j]
      ensures Resample(band, data)[k] == data.values[j]
    {
      InterpAtNode(data.wavelengths, data.values, j);
    }
  }

  /** Scaling numerator and denominator by the same non-zero factor keeps the ratio. */
  lemma RatioScaled(k: real, n: real, d: real, n': real, d': real)
    requires k != 0.0 && n' == k * n && d' == k * d
    ensures Div(Num(n'), Num(d')) == Div(Num(n), Num(d))
  {
    if d != 0.0 {
      assert n' / d' == n / d;
    }
  }

  /** Multiplying every weight by the same non-zero factor leaves the band
      average unchanged: the normalisation cancels the scale. */
  lemma BandAverageScaleInvariant(resp: Response, k: real, data: Spectrum)
    requires Increasing(data.wavelengths) && k != 0.0
    ensures BandAverage(Response(resp.wavelengths, Scaled(k, resp.weights)), data) == BandAverage(resp, data)
  {
    var scaled := Response(resp.wavelengths, Scaled(k, resp.weights));
    if Sampled(data) && Paired(resp) {
      BandAverageIsRatio(resp, data);
      BandAverageIsRatio(scaled, data);
      IntegralsScaled(resp, k, data);
      RatioScaled(k, WeightedIntegral(resp, data), WeightIntegral(resp), WeightedIntegral(scaled, data), WeightIntegral(scaled));
    }
  }

  /** Scaling the weights scales both integrals. */
  lemma IntegralsScaled(resp: Response, k: real, data: Spectrum)
    requires Paired(resp) && Sampled(data) && Increasing(data.wavelengths)
    ensures WeightedIntegral(Response(resp.wavelengths, Scaled(k, resp.weights)), data) == k * WeightedIntegral(resp, data)
    ensures WeightIntegral(Response(resp.wavelengths, Scaled(k, resp.weights))) == k * WeightIntegral(resp)
  {
    var band, w := resp.wavelengths, resp.weights;
    var scaled := Response(band, Scaled(k, w));
    var resampled := Resample(band, data);
    TrapzProductScaled(band, resampled, k, w);
    TrapzScaled(band, k, w);
  }

  /** A constant spectrum averages to that constant when every response
      wavelength lies inside the data's range and the weights do not
      integrate to zero. */
  lemma BandAverageConstant(resp: Response, data: Spectrum, c: real)
    requires Sampled(data) && Increasing(data.wavelengths) && Constant(data.values, c)
    requires Paired(resp) && WeightIntegral(resp) != 0.0
    requires forall k :: 0 <= k < |resp.wavelengths| ==>
               data.wavelengths[0] <= resp.wavelengths[k] <= data.wavelengths[|data.wavelengths| - 1]
    ensures BandAverage(resp, data) == Ok(Num(c))
  {
    WeightedIntegralConstant(resp, data, c);
    RatioOfMultiple(c, WeightedIntegral(resp, data), WeightIntegral(resp));
    BandAverageIsRatio(resp, data);
  }

  /** The weighted integral of a constant spectrum over a response inside
      its range is the constant times the weight integral. */
  lemma WeightedIntegralConstant(resp: Response, data: Spectrum, c: real)
    requires Sampled(data) && Increasing(data.wavelengths) && Constant(data.values, c) && Paired(resp)
    requires forall k :: 0 <= k < |resp.wavelengths| ==>
               data.wavelengths[0] <= resp.wavelengths[k] <= data.wavelengths[|data.wavelengths| - 1]
    ensures WeightedIntegral(resp, data) == c * WeightIntegral(resp)
  {
    var band, w := resp.wavelengths, resp.weights;
    ResampleConstant(band, data, c);
    ProductConstant(Resample(band, data), c, w);
    TrapzScaled(band, c, w);
  }

  /** A constant spectrum resamples to its constant on a band inside its range. */
  lemma ResampleConstant(band: seq<real>, data: Spectrum, c: real)
    requires Sampled(data) && Increasing(data.wavelengths) && Constant(data.values, c)
    requires forall k :: 0 <= k < |band| ==>
               data.wavelengths[0] <= band[k] <= data.wavelengths[|data.wavelengths| - 1]
    ensures Constant(Resample(band, data), c)
  {
    forall j | 0 <= j < |band|
      ensures Resample(band, data)[j] == c
    {
      InterpConstant(data.wavelengths, data.values, c, band[j]);
    }
  }

  lemma ProductConstant(r: seq<real>, c: real, w: seq<real>)
    requires |r| == |w| && Constant(r, c)
    ensures Product(r, w) == Scaled(c, w)
  {
    assert forall j :: 0 <= j < |w| ==> Product(r, w)[j] == Scaled(c, w)[j];
  }

  lemma RatioOfMultiple(c: real, n: real, d: real)
    requires d != 0.0 && n == c * d
    ensures Div(Num(n), Num(d)) == Num(c)
  {
  }

  lemma RatioOfCombination(a: real, v1: real, b: real, v2: real, d: real, n: real)
    requires d != 0.0 && n == a * (v1 * d) + b * (v2 * d)
    ensures Div(Num(n), Num(d)) == Num(a * v1 + b * v2)
  {
    assert n == (a * v1 + b * v2) * d;
  }

  /** Band averaging is linear in the spectrum: the average of `a·s1 + b·s2`
      is `a·avg(s1) + b·avg(s2)`. */
  lemma BandAverageLinear(resp: Response, wl: seq<real>, a: real, s1: seq<real>, v1: real, b: real, s2: seq<real>, v2: real)
    requires Increasing(wl)
    requires BandAverage(resp, Spectrum(wl, s1)) == Ok(Num(v1))
    requires BandAverage(resp, Spectrum(wl, s2)) == Ok(Num(v2))
    ensures BandAverage(resp, Spectrum(wl, Combine(a, s1, b, s2))) == Ok(Num(a * v1 + b * v2))
  {
    var d1, d2, d := Spectrum(wl, s1), Spectrum(wl, s2), Spectrum(wl, Combine(a, s1, b, s2));
    BandAverageIsRatio(resp, d1);
    BandAverageIsRatio(resp, d2);
    BandAverageIsRatio(resp, d);
    WeightedIntegralLinear(resp, wl, a, s1, b, s2);
    RatioOfCombination(a, v1, b, v2, WeightIntegral(resp), WeightedIntegral(resp, d));
  }

  lemma WeightedIntegralLinear(resp: Response, wl: seq<real>, a: real, s1: seq<real>, b: real, s2: seq<real>)
    requires Sampled(Spectrum(wl, s1)) && Sampled(Spectrum(wl, s2)) && Increasing(wl) && Paired(resp)
    ensures WeightedIntegral(resp, Spectrum(wl, Combine(a, s1, b, s2)))
         == a * WeightedIntegral(resp, Spectrum(wl, s1)) + b * WeightedIntegral(resp, Spectrum(wl, s2))
  {
    var band := resp.wavelengths;
    var r1, r2 := Resample(band, Spectrum(wl, s1)), Resample(band, Spectrum(wl, s2));
    ResampleLinear(band, wl, a, s1, b, s2);
    WeightedLinear(band, resp.weights, a, r1, b, r2);
  }

  /** Resampling is linear in the spectrum's values. */
  lemma ResampleLinear(band: seq<real>, wl: seq<real>, a: real, s1: seq<real>, b: real, s2: seq<real>)
    requires Sampled(Spectrum(wl, s1)) && Sampled(Spectrum(wl, s2)) && Increasing(wl)
    ensures Resample(band, Spectrum(wl, Combine(a, s1, b, s2)))
         == Combine(a, Resample(band, Spectrum(wl, s1)), b, Resample(band, Spectrum(wl, s2)))
  {
    var r := Resample(band, Spectrum(wl, Combine(a, s1, b, s2)));
    var c := Combine(a, Resample(band, Spectrum(wl, s1)), b, Resample(band, Spectrum(wl, s2)));
    forall k | 0 <= k < |band|
      ensures r[k] == c[k]
    {
      var x := band[k];
      assert r[k] == Interp(wl, Combine(a, s1, b, s2), x);
      assert c[k] == a * Interp(wl, s1, x) + b * Interp(wl, s2, x);
      InterpLinear(wl, a, s1, b, s2, x);
    }
    assert r == c;
  }

  /** Weighting and integrating preserve a linear combination. */
  lemma WeightedLinear(band: seq<real>, w: seq<real>, a: real, r1: seq<real>, b: real, r2: seq<real>)
    requires |band| == |w| == |r1| == |r2|
    ensures Trapz(band, Product(Combine(a, r1, b, r2), w))
         == a * Trapz(band, Product(r1, w)) + b * Trapz(band, Product(r2, w))
  {
    var p, p1, p2 := Product(Combine(a, r1, b, r2), w), Product(r1, w), Product(r2, w);
    forall k | 0 <= k < |p|
      ensures p[k] == a * p1[k] + b * p2[k]
    {
      WeightDistributes(a, r1[k], b, r2[k], w[k]);
    }
    TrapzLinear(band, a, p, p1, b, p2);
  }

  lemma WeightDistributes(a: real, u: real, b: real, v: real, w: real)
    ensures (a * u + b * v) * w == a * (u * w) + b * (v * w)
  {
  }

  /** `bandaverage_multi`: band-average a batch of spectra sharing one
      wavelength axis. The trapezoid sums run along axis 1 for all spectra
      at once, one grid interval at a time; the result is one value per
      spectrum, each equal to `bandaverage` on that spectrum alone. */
  method BandAverageMulti(resp: Response, wl: seq<real>, rows: seq<seq<real>>) returns (r: Result<seq<Number>>)
    requires Increasing(wl)
    ensures r.Err? <==> |rows| == 0 || |wl| == 0
                        || (exists i :: 0 <= i < |rows| && |rows[i]| != |wl|) || !Paired(resp)
    ensures |rows| == 0 ==> r == Err(EmptyBatch)
    ensures r.Ok? ==> |r.value| == |rows|
    ensures r.Ok? ==> forall i :: 0 <= i < |rows| ==> BandAverage(resp, Spectrum(wl, rows[i])) == Ok(r.value[i])
    ensures r.Err? && |rows| > 0 ==> exists i :: 0 <= i < |rows| && BandAverage(resp, Spectrum(wl, rows[i])) == Err(r.error)
  {
    if |rows| == 0 {
      return Err(EmptyBatch);
    }
    if |wl| == 0 {
      assert BandAverage(resp, Spectrum(wl, rows[0])) == Err(EmptyData);
      return Err(EmptyData);
    }
    if exists i :: 0 <= i < |rows| && |rows[i]| != |wl| {
      var i :| 0 <= i < |rows| && |rows[i]| != |wl|;
      assert BandAverage(resp, Spectrum(wl, rows[i])) == Err(DataShapeMismatch);
      return Err(DataShapeMismatch);
    }
    if !Paired(resp) {
      assert BandAverage(resp, Spectrum(wl, rows[0])) == Err(ResponseShapeMismatch);
      return Err(ResponseShapeMismatch);
    }
    var band, w := resp.wavelengths, resp.weights;
    var products := seq(|rows|, i requires 0 <= i < |rows| => Product(Resample(band, Spectrum(wl, rows[i])), w));
    var sums := TrapzRows(band, products);
    var weightSum := Trapz(band, w);
    forall i | 0 <= i < |rows|
      ensures BandAverage(resp, Spectrum(wl, rows[i])) == Ok(Div(Num(sums[i]), Num(weightSum)))
    {
      BandAverageIsRatio(resp, Spectrum(wl, rows[i]));
    }
    r := Ok(seq(|rows|, i requires 0 <= i < |rows| => Div(Num(sums[i]), Num(weightSum))));
  }
}
