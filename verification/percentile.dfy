/** numpy's default ('linear') percentile and the median of sorted samples. */
module Percentiles {
  import opened Arrays
  import opened Sorting
  import opened Interpolation

  /** Fractional position of the `p`-th percentile among `n` sorted samples. */
  function Rank(n: nat, p: real): (r: real)
    requires n >= 1 && 0.0 <= p <= 100.0
    ensures 0.0 <= r <= (n - 1) as real
  {
    var f := p / 100.0;
    MulNonNegative(f, (n - 1) as real);
    MulNonNegative(1.0 - f, (n - 1) as real);
    f * (n - 1) as real
  }

  /** The `p`-th percentile of sorted samples: linear interpolation between
      the two samples whose positions bracket `Rank(|v|, p)`. */
  function Percentile(v: seq<real>, p: real): (r: real)
    requires |v| >= 1 && Sorted(v) && 0.0 <= p <= 100.0
    ensures v[0] <= r <= v[|v| - 1]
  {
    var rank := Rank(|v|, p);
    var lo := rank.Floor;
    if lo + 1 < |v| then
      LerpBetween(v[lo], v[lo + 1], rank - lo as real, v[0], v[|v| - 1]);
      Lerp(v[lo], v[lo + 1], rank - lo as real)
    else v[lo]
  }

  /** numpy's median of sorted samples: the middle sample, or the mean of
      the two middle samples for an even count. */
  function Median(v: seq<real>): (r: real)
    requires |v| >= 1 && Sorted(v)
    ensures v[0] <= r <= v[|v| - 1]
  {
    var m := |v| / 2;
    if |v| % 2 == 1 then v[m] else (v[m - 1] + v[m]) / 2.0
  }

  /** The median is the 50th percentile. */
  lemma MedianIsPercentile(v: seq<real>)
    requires |v| >= 1 && Sorted(v)
    ensures Median(v) == Percentile(v, 50.0)
  {
    var n := |v|;
    var m := n / 2;
    var rank := Rank(n, 50.0);
    assert rank == (n - 1) as real / 2.0;
    if n % 2 == 1 {
      assert rank == m as real;
      assert rank.Floor == m;
    } else {
      assert rank == m as real - 0.5;
      assert rank.Floor == m - 1;
      assert Lerp(v[m - 1], v[m], 0.5) == (v[m - 1] + v[m]) / 2.0;
    }
  }

  /** At an integral rank the percentile is the sample at that position. */
  lemma PercentileAtSample(v: seq<real>, p: real, k: nat)
    requires |v| >= 1 && Sorted(v) && 0.0 <= p <= 100.0
    requires Rank(|v|, p) == k as real
    ensures k < |v| && Percentile(v, p) == v[k]
  {
    assert Rank(|v|, p).Floor == k;
  }

  /** A higher percentile is never smaller. */
  lemma PercentileMonotone(v: seq<real>, p: real, q: real)
    requires |v| >= 1 && Sorted(v) && 0.0 <= p <= q <= 100.0
    ensures Percentile(v, p) <= Percentile(v, q)
  {
    var n := |v|;
    var rp, rq := Rank(n, p), Rank(n, q);
    RankMonotone(n, p, q);
    var lp, lq := rp.Floor, rq.Floor;
    if lp == lq {
      if lp + 1 < n {
        LerpMonotone(v[lp], v[lp + 1], rp - lp as real, rq - lq as real);
      }
    } else {
      // Percentile(v, p) lies at or below v[lp + 1] <= v[lq] <= Percentile(v, q).
      assert lp + 1 <= lq;
      LerpBetween(v[lp], v[lp + 1], rp - lp as real, v[lp], v[lp + 1]);
      assert Percentile(v, p) <= v[lp + 1] <= v[lq];
      if lq + 1 < n {
        LerpBetween(v[lq], v[lq + 1], rq - lq as real, v[lq], v[lq + 1]);
      }
    }
  }

  lemma RankMonotone(n: nat, p: real, q: real)
    requires n >= 1 && 0.0 <= p <= q <= 100.0
    ensures Rank(n, p) <= Rank(n, q)
  {
    MulNonNegative((q - p) / 100.0, (n - 1) as real);
    assert Rank(n, q) - Rank(n, p) == (q - p) / 100.0 * (n - 1) as real;
  }

  lemma LerpMonotone(f0: real, f1: real, s: real, t: real)
    requires f0 <= f1 && s <= t
    ensures Lerp(f0, f1, s) <= Lerp(f0, f1, t)
  {
    MulNonNegative(t - s, f1 - f0);
    assert Lerp(f0, f1, t) - Lerp(f0, f1, s) == (t - s) * (f1 - f0);
  }

  /** `g` maps the point a fraction `t` of the way between two values to the
      point the same fraction of the way between their images. */
  ghost predicate CommutesWithLerp(g: real -> real)
  {
    forall a, b, t :: g(Lerp(a, b, t)) == Lerp(g(a), g(b), t)
  }

  /** An order-preserving map that commutes with interpolation maps each
      percentile of the samples to that percentile of the mapped samples. */
  lemma PercentileApply(g: real -> real, v: seq<real>, p: real)
    requires OrderPreserving(g) && CommutesWithLerp(g)
    requires |v| >= 1 && Sorted(v) && 0.0 <= p <= 100.0
    ensures Sorted(Apply(g, v))
    ensures Percentile(Apply(g, v), p) == g(Percentile(v, p))
  {
    ApplySorted(g, v);
  }

  /** ...and so its median. */
  lemma MedianApply(g: real -> real, v: seq<real>)
    requires OrderPreserving(g) && CommutesWithLerp(g)
    requires |v| >= 1 && Sorted(v)
    ensures Sorted(Apply(g, v))
    ensures Median(Apply(g, v)) == g(Median(v))
  {
    PercentileApply(g, v, 50.0);
    MedianIsPercentile(v);
    MedianIsPercentile(Apply(g, v));
  }

  /** Scaling an interpolated value scales both of its end points. */
  lemma ScaleLerp(k: real, a: real, b: real, t: real)
    ensures k * Lerp(a, b, t) == Lerp(k * a, k * b, t)
  {
    var d := b - a;
    assert k * (a + t * d) == k * a + k * (t * d);
    assert k * (t * d) == t * (k * d);
    assert k * d == k * b - k * a;
  }

  /** `Multiplier(k)` scales its argument by `k`. */
  lemma MultiplierApplies(k: real, y: real)
    ensures Multiplier(k)(y) == k * y
  {
  }

  /** Multiplication commutes with interpolation. */
  lemma MultiplierCommutesWithLerp(k: real)
    ensures CommutesWithLerp(Multiplier(k))
  {
    forall a, b, t
      ensures Multiplier(k)(Lerp(a, b, t)) == Lerp(Multiplier(k)(a), Multiplier(k)(b), t)
    {
      MultiplierApplies(k, Lerp(a, b, t));
      MultiplierApplies(k, a);
      MultiplierApplies(k, b);
      ScaleLerp(k, a, b, t);
    }
  }

  /** Sample positions `o, o + 1, ..., o + n - 1`. */
  function Positions(o: real, n: nat): (r: seq<real>)
    ensures |r| == n
    ensures forall i :: 0 <= i < n ==> r[i] == o + i as real
    ensures Increasing(r)
  {
    seq(n, i requires 0 <= i < n => o + i as real)
  }

  lemma {:induction false} SegmentOnPositions(o: real, fp: seq<real>, x: real)
    requires |fp| >= 1 && o <= x <= o + (|fp| - 1) as real
    ensures var lo := (x - o).Floor;
      0 <= lo < |fp| &&
      Segment(Positions(o, |fp|), fp, x)
        == if lo + 1 < |fp| then Lerp(fp[lo], fp[lo + 1], x - o - lo as real) else fp[lo]
    decreases |fp|
  {
    var xp := Positions(o, |fp|);
    var lo := (x - o).Floor;
    if |fp| > 1 && x >= xp[1] {
      assert xp[1..] == Positions(o + 1.0, |fp| - 1);
      SegmentOnPositions(o + 1.0, fp[1..], x);
      assert (x - (o + 1.0)).Floor == lo - 1;
    }
  }

  /** Reference definition: the percentile is `np.interp` of the sorted
      samples against their positions `0 .. n - 1`, evaluated at the rank. */
  lemma PercentileIsInterp(v: seq<real>, p: real)
    requires |v| >= 1 && Sorted(v) && 0.0 <= p <= 100.0
    ensures Percentile(v, p) == Interp(Positions(0.0, |v|), v, Rank(|v|, p))
  {
    SegmentOnPositions(0.0, v, Rank(|v|, p));
  }
}
