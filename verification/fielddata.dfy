/** The conversion of the field campaigns' tables into Ed, Lw and R_rs
    spectra: water-leaving radiance from upwelling and sky radiance,
    reflectance from radiance and irradiance (or the reverse), the SO-P4
    normalisation at 750 nm, and the QA filters that remove observations.

    A table row is one observation; its spectral columns are modelled as
    sequences indexed by the position of the wavelength on the campaign's
    grid, so the column `R_rs_400` of a 5 nm grid starting at 320 nm is
    position 16. Comparisons with NaN are false, as in numpy. */
module FieldData {
  import opened Numbers
  import opened Selection

  /** One observation after conversion. */
  datatype Spectra = Spectra(ed: seq<Number>, lw: seq<Number>, rrs: seq<Number>)

  /** One observation as measured above water: downwelling irradiance,
      upwelling radiance (in µW/cm²/nm/sr) and sky radiance. */
  datatype Radiometry = Radiometry(ed: seq<Number>, lu: seq<Number>, ls: seq<Number>)

  /** One observation as published with reflectance: irradiance and R_rs. */
  datatype Reflectance = Reflectance(ed: seq<Number>, rrs: seq<Number>)

  /** Every spectral column is present for each of the `n` grid wavelengths. */
  predicate Complete(s: Spectra, n: nat)
  {
    |s.ed| == n && |s.lw| == n && |s.rrs| == n
  }

  predicate RadiometryComplete(m: Radiometry, n: nat)
  {
    |m.ed| == n && |m.lu| == n && |m.ls| == n
  }

  predicate ReflectanceComplete(m: Reflectance, n: nat)
  {
    |m.ed| == n && |m.rrs| == n
  }

  /** `x < c`, false for NaN. */
  predicate Below(x: Number, c: real) { x.Num? && x.val < c }

  /** `x <= c`, false for NaN. */
  predicate AtMost(x: Number, c: real) { x.Num? && x.val <= c }

  /** `x > c`, false for NaN. */
  predicate Above(x: Number, c: real) { x.Num? && x.val > c }

  /** `x >= c`, false for NaN. */
  predicate AtLeast(x: Number, c: real) { x.Num? && x.val >= c }

  /** `np.arange(320, 955, 5)`: the 5 nm grid of SO-P4, MSM21 and HE302. */
  function Grid5(): (r: seq<real>)
    ensures |r| == 127
    ensures forall k :: 0 <= k < 127 ==> r[k] == 320.0 + 5.0 * k as real
  {
    seq(127, k => 320.0 + 5.0 * k as real)
  }

  /** `np.arange(350, 902.5, 2.5)`: the 2.5 nm grid of SeaSWIR. */
  function SeaSwirGrid(): (r: seq<real>)
    ensures |r| == 221
    ensures forall k :: 0 <= k < 221 ==> r[k] == 350.0 + 2.5 * k as real
  {
    seq(221, k => 350.0 + 2.5 * k as real)
  }

  /** The grid positions of the wavelengths the filters and the
      normalisation look up. */
  lemma GridPositions()
    ensures Grid5()[16] == 400.0 && Grid5()[17] == 405.0
    ensures Grid5()[86] == 750.0 && Grid5()[96] == 800.0
    ensures SeaSwirGrid()[20] == 400.0
  {
  }

  /** Fraction of sky radiance reflected at the surface. */
  const SkyReflectance: real := 0.028

  /** µW/cm² in W/m². */
  const MicrowattPerSquareCentimetre: real := 0.01

  /** mW in W. */
  const Milliwatt: real := 0.001

  /** `Lw = Lu - 0.028 * Ls`. */
  function WaterLeaving(lu: Number, ls: Number): (r: Number)
    ensures r.Num? <==> lu.Num? && ls.Num?
    ensures r.Num? ==> r.val + SkyReflectance * ls.val == lu.val
  {
    Sub(lu, Times(SkyReflectance, ls))
  }

  /** SO-P4 and MSM21: Lu is converted to W/m²/nm/sr, `Lw = Lu - 0.028 Ls`
      and `R_rs = Lw / Ed` at every wavelength. */
  function FromRadiance(m: Radiometry): (s: Spectra)
    requires |m.lu| == |m.ed| && |m.ls| == |m.ed|
    ensures Complete(s, |m.ed|) && s.ed == m.ed
    ensures forall k :: 0 <= k < |m.ed| ==>
      (s.lw[k].Num? <==> m.lu[k].Num? && m.ls[k].Num?)
    ensures forall k :: 0 <= k < |m.ed| && s.lw[k].Num? ==>
      s.lw[k].val == MicrowattPerSquareCentimetre * m.lu[k].val - SkyReflectance * m.ls[k].val
    ensures forall k :: 0 <= k < |m.ed| ==>
      (s.rrs[k].Num? <==> s.lw[k].Num? && m.ed[k].Num? && m.ed[k].val != 0.0)
    ensures forall k :: 0 <= k < |m.ed| && s.rrs[k].Num? ==> s.rrs[k].val * m.ed[k].val == s.lw[k].val
  {
    var lw := seq(|m.ed|, k requires 0 <= k < |m.ed| => WaterLeaving(Times(MicrowattPerSquareCentimetre, m.lu[k]), m.ls[k]));
    Spectra(m.ed, lw, seq(|m.ed|, k requires 0 <= k < |m.ed| => Div(lw[k], m.ed[k])))
  }

  /** SeaSWIR and HE302: Ed is scaled to W/m²/nm and `Lw = R_rs * Ed` at
      every wavelength. */
  function FromReflectance(m: Reflectance, edUnit: real): (s: Spectra)
    requires |m.rrs| == |m.ed|
    ensures Complete(s, |m.ed|) && s.rrs == m.rrs
    ensures forall k :: 0 <= k < |m.ed| ==> s.ed[k] == Times(edUnit, m.ed[k])
    ensures forall k :: 0 <= k < |m.ed| ==> (s.lw[k].Num? <==> m.rrs[k].Num? && m.ed[k].Num?)
    ensures forall k :: 0 <= k < |m.ed| && s.lw[k].Num? ==> s.lw[k].val == m.rrs[k].val * (edUnit * m.ed[k].val)
  {
    var ed := seq(|m.ed|, k requires 0 <= k < |m.ed| => Times(edUnit, m.ed[k]));
    Spectra(ed, seq(|m.ed|, k requires 0 <= k < |m.ed| => Mul(m.rrs[k], ed[k])), m.rrs)
  }

  /** The two derivations are inverse: where Ed is non-zero, radiance
      computed from reflectance gives that reflectance back, and reflectance
      computed from radiance gives that radiance back. */
  lemma DerivationsInverse(m: Reflectance, edUnit: real, k: nat)
    requires |m.rrs| == |m.ed| && k < |m.ed|
    requires m.rrs[k].Num? && m.ed[k].Num? && edUnit * m.ed[k].val != 0.0
    ensures var s := FromReflectance(m, edUnit);
      Div(s.lw[k], s.ed[k]) == m.rrs[k] &&
      Mul(Div(s.lw[k], s.ed[k]), s.ed[k]) == s.lw[k]
  {
    var s := FromReflectance(m, edUnit);
    var e := s.ed[k].val;
    assert s.lw[k].val == m.rrs[k].val * e;
    assert s.lw[k].val / e == m.rrs[k].val;
  }

  lemma RadianceReflectanceAgree(m: Radiometry, k: nat)
    requires |m.lu| == |m.ed| && |m.ls| == |m.ed| && k < |m.ed|
    requires FromRadiance(m).rrs[k].Num?
    ensures Mul(FromRadiance(m).rrs[k], FromRadiance(m).ed[k]) == FromRadiance(m).lw[k]
  {
  }

  /** SO-P4's normalisation: subtract from every R_rs the value R_rs had at
      grid position `ref` before any update, then recompute `Lw = R_rs * Ed`. */
  function Normalise(s: Spectra, ref: nat): (r: Spectra)
    requires Complete(s, |s.ed|) && ref < |s.ed|
    ensures Complete(r, |s.ed|) && r.ed == s.ed
    ensures r.rrs[ref] == (if s.rrs[ref].Num? then Num(0.0) else NaN)
    ensures forall k :: 0 <= k < |s.ed| ==> (r.rrs[k].Num? <==> s.rrs[k].Num? && s.rrs[ref].Num?)
    ensures forall k, l :: 0 <= k < |s.ed| && 0 <= l < |s.ed| && r.rrs[k].Num? && r.rrs[l].Num? ==>
      r.rrs[k].val - r.rrs[l].val == s.rrs[k].val - s.rrs[l].val
    ensures forall k :: 0 <= k < |s.ed| ==> r.lw[k] == Mul(r.rrs[k], s.ed[k])
  {
    var rrs := seq(|s.ed|, k requires 0 <= k < |s.ed| => Sub(s.rrs[k], s.rrs[ref]));
    Spectra(s.ed, seq(|s.ed|, k requires 0 <= k < |s.ed| => Mul(rrs[k], s.ed[k])), rrs)
  }

  /** The normalisation loop over the columns, with the reference value
      copied before the loop: column `ref` is overwritten with zero on the
      way, and every later column still has the original value subtracted. */
  method NormaliseColumns(s: Spectra, ref: nat) returns (r: Spectra)
    requires Complete(s, |s.ed|) && ref < |s.ed|
    ensures r == Normalise(s, ref)
  {
    var normalisation := s.rrs[ref];
    var rrs, lw := s.rrs, s.lw;
    var k := 0;
    while k < |s.ed|
      invariant 0 <= k <= |s.ed| && |rrs| == |s.ed| && |lw| == |s.ed|
      invariant forall j :: 0 <= j < k ==> rrs[j] == Sub(s.rrs[j], normalisation) && lw[j] == Mul(rrs[j], s.ed[j])
      invariant forall j :: k <= j < |s.ed| ==> rrs[j] == s.rrs[j]
    {
      rrs := rrs[k := Sub(rrs[k], normalisation)];
      lw := lw[k := Mul(rrs[k], s.ed[k])];
      k := k + 1;
    }
    r := Spectra(s.ed, lw, rrs);
  }

  /** `any(row[key] < c for key in R_rs_keys)`. */
  predicate AnyBelow(xs: seq<Number>, c: real)
  {
    exists k :: 0 <= k < |xs| && Below(xs[k], c)
  }

  /** `any(row[key] <= c for key in R_rs_keys)`. */
  predicate AnyAtMost(xs: seq<Number>, c: real)
  {
    exists k :: 0 <= k < |xs| && AtMost(xs[k], c)
  }

  /** `any(row[key] > c for key in R_rs_keys)`. */
  predicate AnyAbove(xs: seq<Number>, c: real)
  {
    exists k :: 0 <= k < |xs| && Above(xs[k], c)
  }

  /** Neighbouring values `k` and `k + 1` differ by at least `c`. */
  predicate StepAt(xs: seq<Number>, k: int, c: real)
  {
    0 <= k < |xs| - 1 && AtLeast(AbsNumber(Sub(xs[k], xs[k + 1])), c)
  }

  /** `any(|row[k1] - row[k2]| >= c for k1, k2 in zip(keys, keys[1:]))`. */
  predicate AnyStep(xs: seq<Number>, c: real)
  {
    exists k :: 0 <= k < |xs| - 1 && StepAt(xs, k, c)
  }

  /** SO-P4: Ed(400) - Ed(405) > 0.15, a dip at 405 nm. */
  predicate EdDip(s: Spectra)
  {
    |s.ed| == 127 && Above(Sub(s.ed[16], s.ed[17]), 0.15)
  }

  /** SO-P4: some neighbouring R_rs differ by 0.002 or more. */
  predicate Spiky(s: Spectra)
  {
    AnyStep(s.rrs, 0.002)
  }

  /** SO-P4: some R_rs below -0.001 (strictly). */
  predicate NegativeStrict(s: Spectra)
  {
    AnyBelow(s.rrs, -0.001)
  }

  /** MSM21 and SeaSWIR: some R_rs at or below -0.001. */
  predicate Negative(s: Spectra)
  {
    AnyAtMost(s.rrs, -0.001)
  }

  /** MSM21: R_rs(400) < 0 or R_rs(800) >= 0.003. */
  predicate OutOfRange(s: Spectra)
  {
    |s.rrs| == 127 && (Below(s.rrs[16], 0.0) || AtLeast(s.rrs[96], 0.003))
  }

  /** SeaSWIR: some R_rs above 0.1. */
  predicate TooBright(s: Spectra)
  {
    AnyAbove(s.rrs, 0.1)
  }

  /** SeaSWIR: R_rs(400.0) < 0. */
  predicate NegativeAt400(s: Spectra)
  {
    |s.rrs| == 221 && Below(s.rrs[20], 0.0)
  }

  /** HE302: R_rs(800) >= 0.003. */
  predicate BrightAt800(s: Spectra)
  {
    |s.rrs| == 127 && AtLeast(s.rrs[96], 0.003)
  }

  /** SO-P4 keeps the Ed, Lw and R_rs columns of 375 to 700 nm. */
  predicate OutsideWindow(w: real)
  {
    w < 375.0 || w > 700.0
  }

  /** The grid positions whose columns survive, in grid order. */
  function WindowColumns(): (idx: seq<nat>)
    ensures forall k :: 0 <= k < |idx| ==> idx[k] < 127
  {
    Kept(Grid5(), OutsideWindow)
  }

  /** Exactly the positions 11 (375 nm) to 76 (700 nm) survive, ascending. */
  lemma WindowColumnsExactly()
    ensures forall k :: 0 <= k < 127 ==> (k in WindowColumns() <==> 11 <= k <= 76)
    ensures forall k, l :: 0 <= k < l < |WindowColumns()| ==> WindowColumns()[k] < WindowColumns()[l]
  {
    KeptExactly(Grid5(), OutsideWindow);
    KeptAscending(Grid5(), OutsideWindow);
  }

  /** `remove_columns` for every wavelength outside 375 to 700 nm. */
  function TrimColumns(s: Spectra): (r: Spectra)
    requires Complete(s, 127)
    ensures Complete(r, |WindowColumns()|)
    ensures forall k :: 0 <= k < |WindowColumns()| ==>
      r.ed[k] == s.ed[WindowColumns()[k]] && r.lw[k] == s.lw[WindowColumns()[k]] && r.rrs[k] == s.rrs[WindowColumns()[k]]
  {
    var idx := WindowColumns();
    Spectra(Select(s.ed, idx), Select(s.lw, idx), Select(s.rrs, idx))
  }

  /** One SO-P4 observation after derivation and normalisation at 750 nm. */
  function SoP4Observation(m: Radiometry): (s: Spectra)
    requires RadiometryComplete(m, 127)
    ensures Complete(s, 127)
  {
    Normalise(FromRadiance(m), 86)
  }

  function SoP4Derived(obs: seq<Radiometry>): (r: seq<Spectra>)
    requires forall i :: 0 <= i < |obs| ==> RadiometryComplete(obs[i], 127)
    ensures |r| == |obs|
    ensures forall i :: 0 <= i < |obs| ==> r[i] == SoP4Observation(obs[i])
    ensures forall s :: s in r ==> Complete(s, 127)
  {
    seq(|obs|, i requires 0 <= i < |obs| => SoP4Observation(obs[i]))
  }

  /** SO-P4's three row filters, in order. */
  function SoP4Filtered(derived: seq<Spectra>): seq<Spectra>
  {
    RemoveMatching(RemoveMatching(RemoveMatching(derived, EdDip), Spiky), NegativeStrict)
  }

  predicate FailsSoP4(s: Spectra)
  {
    EdDip(s) || Spiky(s) || NegativeStrict(s)
  }

  /** The three filters in a row remove exactly the observations that fail
      any of them, keeping the others in order. */
  lemma SoP4Survivors(derived: seq<Spectra>)
    ensures SoP4Filtered(derived) == Without(derived, FailsSoP4)
  {
    ThreeSuccessiveFilters(derived, EdDip, Spiky, NegativeStrict, FailsSoP4);
  }

  /** The column trim applied to every observation. */
  function TrimAll(rows: seq<Spectra>): (r: seq<Spectra>)
    requires forall s :: s in rows ==> Complete(s, 127)
    ensures |r| == |rows|
    ensures forall i :: 0 <= i < |rows| ==> r[i] == TrimColumns(rows[i])
  {
    seq(|rows|, i requires 0 <= i < |rows| => TrimColumns(rows[i]))
  }

  /** The SO-P4 conversion: derive, normalise, filter, trim. The observations
      that come out are, in order, the trimmed derived observations that
      fail none of the three tests. */
  function SoP4(obs: seq<Radiometry>): (r: seq<Spectra>)
    requires forall i :: 0 <= i < |obs| ==> RadiometryComplete(obs[i], 127)
    ensures r == TrimAll(Without(SoP4Derived(obs), FailsSoP4))
  {
    SoP4Survivors(SoP4Derived(obs));
    TrimAll(SoP4Filtered(SoP4Derived(obs)))
  }

  /** A surviving SO-P4 observation has R_rs(750) = 0 (or NaN throughout),
      Lw = R_rs * Ed, and passes every filter. */
  lemma SoP4SurvivorProperties(obs: seq<Radiometry>, s: Spectra)
    requires forall i :: 0 <= i < |obs| ==> RadiometryComplete(obs[i], 127)
    requires s in SoP4Filtered(SoP4Derived(obs))
    ensures Complete(s, 127) && !EdDip(s) && !Spiky(s) && !NegativeStrict(s)
    ensures s.rrs[86] == Num(0.0) || s.rrs[86] == NaN
    ensures forall k :: 0 <= k < 127 ==> s.lw[k] == Mul(s.rrs[k], s.ed[k])
  {
    SoP4Survivors(SoP4Derived(obs));
  }

  function FromRadianceAll(obs: seq<Radiometry>): (r: seq<Spectra>)
    requires forall i :: 0 <= i < |obs| ==> |obs[i].lu| == |obs[i].ed| && |obs[i].ls| == |obs[i].ed|
    ensures |r| == |obs|
    ensures forall i :: 0 <= i < |obs| ==> r[i] == FromRadiance(obs[i])
  {
    seq(|obs|, i requires 0 <= i < |obs| => FromRadiance(obs[i]))
  }

  /** MSM21: derive, then the two filters in order. */
  function Msm21(obs: seq<Radiometry>): seq<Spectra>
    requires forall i :: 0 <= i < |obs| ==> |obs[i].lu| == |obs[i].ed| && |obs[i].ls| == |obs[i].ed|
  {
    RemoveMatching(RemoveMatching(FromRadianceAll(obs), Negative), OutOfRange)
  }

  predicate FailsMsm21(s: Spectra)
  {
    Negative(s) || OutOfRange(s)
  }

  /** The second filter runs on the first one's survivors; together they
      keep, in order, exactly the observations failing neither. */
  lemma Msm21Survivors(obs: seq<Radiometry>)
    requires forall i :: 0 <= i < |obs| ==> |obs[i].lu| == |obs[i].ed| && |obs[i].ls| == |obs[i].ed|
    ensures Msm21(obs) == Without(FromRadianceAll(obs), FailsMsm21)
  {
    SuccessiveFilters(FromRadianceAll(obs), Negative, OutOfRange, FailsMsm21);
  }

  function FromReflectanceAll(obs: seq<Reflectance>, edUnit: real): (r: seq<Spectra>)
    requires forall i :: 0 <= i < |obs| ==> |obs[i].rrs| == |obs[i].ed|
    ensures |r| == |obs|
    ensures forall i :: 0 <= i < |obs| ==> r[i] == FromReflectance(obs[i], edUnit)
  {
    seq(|obs|, i requires 0 <= i < |obs| => FromReflectance(obs[i], edUnit))
  }

  /** SeaSWIR: Ed from mW, `Lw = R_rs * Ed`, then the three filters in order. */
  function SeaSwir(obs: seq<Reflectance>): seq<Spectra>
    requires forall i :: 0 <= i < |obs| ==> |obs[i].rrs| == |obs[i].ed|
  {
    RemoveMatching(RemoveMatching(RemoveMatching(FromReflectanceAll(obs, Milliwatt), Negative), TooBright), NegativeAt400)
  }

  predicate FailsSeaSwir(s: Spectra)
  {
    Negative(s) || TooBright(s) || NegativeAt400(s)
  }

  lemma SeaSwirSurvivors(obs: seq<Reflectance>)
    requires forall i :: 0 <= i < |obs| ==> |obs[i].rrs| == |obs[i].ed|
    ensures SeaSwir(obs) == Without(FromReflectanceAll(obs, Milliwatt), FailsSeaSwir)
  {
    ThreeSuccessiveFilters(FromReflectanceAll(obs, Milliwatt), Negative, TooBright, NegativeAt400, FailsSeaSwir);
  }

  /** SeaSWIR's third filter looks at R_rs(400) only: an observation with a
      high R_rs(800) but every R_rs within range is kept. */
  lemma SeaSwirKeepsBrightAt800()
    ensures var s := Spectra(seq(221, k => Num(0.001)), seq(221, k => Num(0.001)),
                             seq(221, k => if k == 180 then Num(0.005) else Num(0.001)));
      SeaSwirGrid()[180] == 800.0 && AtLeast(s.rrs[180], 0.003) && !FailsSeaSwir(s)
  {
  }

  /** HE302: Ed already in W/m²/nm, `Lw = Ed * R_rs`, then the R_rs(800) filter. */
  function He302(obs: seq<Reflectance>): (r: seq<Spectra>)
    requires forall i :: 0 <= i < |obs| ==> |obs[i].rrs| == |obs[i].ed|
    ensures r == Without(FromReflectanceAll(obs, 1.0), BrightAt800)
  {
    RemoveMatching(FromReflectanceAll(obs, 1.0), BrightAt800)
  }

  /** A filter keeps the observation at position `i` exactly when it does
      not fail the filter's test. */
  lemma FilterKeepsExactly(rows: seq<Spectra>, fails: Spectra -> bool, i: nat)
    requires i < |rows|
    ensures i in Kept(rows, fails) <==> !fails(rows[i])
    ensures forall s :: s in RemoveMatching(rows, fails) ==> s in rows && !fails(s)
  {
    KeptExactly(rows, fails);
  }
}
