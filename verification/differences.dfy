/** `calculate_differences`: how far the reflectance-space band average lies
    from the radiance-space one, as an absolute difference and as a
    percentage of the radiance-space value. */
module Differences {
  import opened Numbers
  import opened Statistics

  datatype Differences = Differences(absolute: seq<Number>, relative: seq<Number>)

  /** numpy broadcasts two one-dimensional arrays when their lengths agree or
      one of them has length 1. */
  predicate Broadcastable(m: nat, n: nat)
  {
    m == n || m == 1 || n == 1
  }

  /** The length of the broadcast result: a length-1 array stretches to the
      other's length (including 0). */
  function BroadcastLength(m: nat, n: nat): nat
  {
    if m == 1 then n else m
  }

  /** Entry `i` of `xs` once stretched to the broadcast length. */
  function Entry(xs: seq<Number>, i: nat): Number
    requires |xs| == 1 || i < |xs|
  {
    if |xs| == 1 then xs[0] else xs[i]
  }

  /** `x` repeated `n` times: what a length-1 array stands for. */
  function Repeat(x: Number, n: nat): (r: seq<Number>)
    ensures |r| == n
    ensures forall i :: 0 <= i < n ==> r[i] == x
  {
    seq(n, i => x)
  }

  /** Element-wise `refl - rad` and `100 * (refl - rad) / rad`, broadcasting
      a length-1 operand; other differing lengths fail. */
  function CalculateDifferences(refl: seq<Number>, rad: seq<Number>): (r: Result<Differences>)
    ensures r.Err? <==> !Broadcastable(|refl|, |rad|)
    ensures r.Err? ==> r.error == LengthMismatch
    ensures r.Ok? ==> |r.value.absolute| == BroadcastLength(|refl|, |rad|) && |r.value.relative| == |r.value.absolute|
    ensures r.Ok? ==> forall i :: 0 <= i < |r.value.absolute| ==>
      (r.value.absolute[i].Num? <==> Entry(refl, i).Num? && Entry(rad, i).Num?) &&
      (r.value.absolute[i].Num? ==> Entry(rad, i).val + r.value.absolute[i].val == Entry(refl, i).val)
    ensures r.Ok? ==> forall i :: 0 <= i < |r.value.relative| ==>
      (r.value.relative[i].Num? <==> Entry(refl, i).Num? && Entry(rad, i).Num? && Entry(rad, i).val != 0.0) &&
      (r.value.relative[i].Num? ==> r.value.relative[i].val * Entry(rad, i).val == 100.0 * r.value.absolute[i].val)
  {
    if !Broadcastable(|refl|, |rad|) then Err(LengthMismatch)
    else
      var n := BroadcastLength(|refl|, |rad|);
      var absolute := seq(n, i requires 0 <= i < n => Sub(Entry(refl, i), Entry(rad, i)));
      Ok(Differences(absolute, seq(n, i requires 0 <= i < n => Div(Times(100.0, absolute[i]), Entry(rad, i)))))
  }

  /** A length-1 radiance-space array compares every reflectance-space value
      with its one value, exactly as that value repeated would. */
  lemma BroadcastIsRepeat(refl: seq<Number>, x: Number)
    ensures CalculateDifferences(refl, [x]) == CalculateDifferences(refl, Repeat(x, |refl|))
  {
    var b, c := CalculateDifferences(refl, [x]), CalculateDifferences(refl, Repeat(x, |refl|));
    assert b.Ok? && c.Ok?;
    forall i | 0 <= i < |refl|
      ensures b.value.absolute[i] == c.value.absolute[i] && b.value.relative[i] == c.value.relative[i]
    {
      assert Entry([x], i) == x == Entry(Repeat(x, |refl|), i);
    }
    assert b.value.absolute == c.value.absolute;
    assert b.value.relative == c.value.relative;
  }

  /** Identical non-zero results differ by nothing, absolutely or relatively. */
  lemma DifferencesOfEqual(xs: seq<Number>)
    requires forall i :: 0 <= i < |xs| ==> xs[i].Num? && xs[i].val != 0.0
    ensures CalculateDifferences(xs, xs).Ok?
    ensures |CalculateDifferences(xs, xs).value.absolute| == |xs|
    ensures forall i :: 0 <= i < |xs| ==>
      CalculateDifferences(xs, xs).value.absolute[i] == Num(0.0) &&
      CalculateDifferences(xs, xs).value.relative[i] == Num(0.0)
  {
    var d := CalculateDifferences(xs, xs).value;
    forall i | 0 <= i < |xs|
      ensures d.absolute[i] == Num(0.0) && d.relative[i] == Num(0.0)
    {
      assert Entry(xs, i) == xs[i];
    }
  }

  /** The relative difference recovers the reflectance-space value from the
      radiance-space one: `refl = rad * (1 + relative / 100)`. */
  lemma RelativeRecovers(refl: seq<Number>, rad: seq<Number>, i: nat)
    requires Broadcastable(|refl|, |rad|) && i < BroadcastLength(|refl|, |rad|)
    requires CalculateDifferences(refl, rad).value.relative[i].Num?
    ensures Entry(refl, i).Num? && Entry(rad, i).Num?
    ensures Entry(refl, i).val == Entry(rad, i).val * (1.0 + CalculateDifferences(refl, rad).value.relative[i].val / 100.0)
  {
    var d := CalculateDifferences(refl, rad).value;
    var a, q, v := d.absolute[i].val, d.relative[i].val, Entry(rad, i).val;
    assert q * v == 100.0 * a;
    assert v * (1.0 + q / 100.0) == v + (q * v) / 100.0;
  }
}
