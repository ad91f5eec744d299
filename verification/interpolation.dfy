/** One-dimensional piecewise-linear interpolation with zero fill outside the
    sample range: `np.interp(x, xp, fp, left=0, right=0)`. */
module Interpolation {
  import opened Arrays

  /** The point a fraction `t` of the way from `f0` to `f1`. */
  function Lerp(f0: real, f1: real, t: real): real
  {
    f0 + t * (f1 - f0)
  }

  /** Interpolated value for an `x` inside `[xp[0], xp[|xp| - 1]]`: walk to the
      interval `xp[k] <= x < xp[k + 1]`, or return the last sample at the
      right end. */
  function Segment(xp: seq<real>, fp: seq<real>, x: real): real
    requires |xp| == |fp| >= 1 && Increasing(xp)
    requires xp[0] <= x <= xp[|xp| - 1]
    decreases |xp|
  {
    if |xp| == 1 then fp[0]
    else if x < xp[1] then Lerp(fp[0], fp[1], (x - xp[0]) / (xp[1] - xp[0]))
    else Segment(xp[1..], fp[1..], x)
  }

  /** `np.interp` with `left=0, right=0` for increasing sample wavelengths. */
  function Interp(xp: seq<real>, fp: seq<real>, x: real): (r: real)
    requires |xp| == |fp| >= 1 && Increasing(xp)
    ensures x < xp[0] ==> r == 0.0
    ensures x > xp[|xp| - 1] ==> r == 0.0
  {
    if x < xp[0] || x > xp[|xp| - 1] then 0.0 else Segment(xp, fp, x)
  }

  /** At a sample wavelength the interpolant reproduces the sample. */
  lemma {:induction false} SegmentAtNode(xp: seq<real>, fp: seq<real>, k: nat)
    requires |xp| == |fp| >= 1 && Increasing(xp) && k < |xp|
    ensures Segment(xp, fp, xp[k]) == fp[k]
    decreases |xp|
  {
    if |xp| > 1 && k > 0 {
      assert xp[k] >= xp[1];
      SegmentAtNode(xp[1..], fp[1..], k - 1);
    }
  }

  lemma InterpAtNode(xp: seq<real>, fp: seq<real>, k: nat)
    requires |xp| == |fp| >= 1 && Increasing(xp) && k < |xp|
    ensures Interp(xp, fp, xp[k]) == fp[k]
  {
    SegmentAtNode(xp, fp, k);
  }

  lemma LerpLinear(a: real, f0: real, f1: real, b: real, g0: real, g1: real, t: real)
    ensures Lerp(a * f0 + b * g0, a * f1 + b * g1, t) == a * Lerp(f0, f1, t) + b * Lerp(g0, g1, t)
  {
    calc {
      Lerp(a * f0 + b * g0, a * f1 + b * g1, t);
      a * f0 + b * g0 + t * ((a * f1 + b * g1) - (a * f0 + b * g0));
      a * f0 + b * g0 + t * (a * (f1 - f0)) + t * (b * (g1 - g0));
      a * (f0 + t * (f1 - f0)) + b * (g0 + t * (g1 - g0));
    }
  }

  /** Walking the same intervals, the interpolant of `a * f + b * g` is the
      same combination of the interpolants of `f` and `g`. */
  lemma {:induction false} SegmentLinear(xp: seq<real>, a: real, h: seq<real>, f: seq<real>, b: real, g: seq<real>, x: real)
    requires |xp| == |h| == |f| == |g| >= 1 && Increasing(xp)
    requires forall k :: 0 <= k < |h| ==> h[k] == a * f[k] + b * g[k]
    requires xp[0] <= x <= xp[|xp| - 1]
    ensures Segment(xp, h, x) == a * Segment(xp, f, x) + b * Segment(xp, g, x)
    decreases |xp|
  {
    if |xp| > 1 {
      if x < xp[1] {
        var t := (x - xp[0]) / (xp[1] - xp[0]);
        assert h[0] == a * f[0] + b * g[0] && h[1] == a * f[1] + b * g[1];
        assert Segment(xp, h, x) == Lerp(h[0], h[1], t);
        assert Segment(xp, f, x) == Lerp(f[0], f[1], t);
        assert Segment(xp, g, x) == Lerp(g[0], g[1], t);
        LerpLinear(a, f[0], f[1], b, g[0], g[1], t);
      } else {
        assert Increasing(xp[1..]);
        forall k | 0 <= k < |h| - 1
          ensures h[1..][k] == a * f[1..][k] + b * g[1..][k]
        {
          assert h[1..][k] == h[k + 1];
        }
        SegmentLinear(xp[1..], a, h[1..], f[1..], b, g[1..], x);
      }
    }
  }

  /** Interpolation is linear in the sample values. */
  lemma InterpLinear(xp: seq<real>, a: real, f: seq<real>, b: real, g: seq<real>, x: real)
    requires |xp| == |f| == |g| >= 1 && Increasing(xp)
    ensures Interp(xp, Combine(a, f, b, g), x) == a * Interp(xp, f, x) + b * Interp(xp, g, x)
  {
    if xp[0] <= x <= xp[|xp| - 1] {
      SegmentLinear(xp, a, Combine(a, f, b, g), f, b, g, x);
    }
  }

  lemma {:induction false} SegmentConstant(xp: seq<real>, fp: seq<real>, c: real, x: real)
    requires |xp| == |fp| >= 1 && Increasing(xp) && Constant(fp, c)
    requires xp[0] <= x <= xp[|xp| - 1]
    ensures Segment(xp, fp, x) == c
    decreases |xp|
  {
    if |xp| > 1 && x >= xp[1] {
      SegmentConstant(xp[1..], fp[1..], c, x);
    }
  }

  /** A constant spectrum interpolates to that constant inside its range. */
  lemma InterpConstant(xp: seq<real>, fp: seq<real>, c: real, x: real)
    requires |xp| == |fp| >= 1 && Increasing(xp) && Constant(fp, c)
    requires xp[0] <= x <= xp[|xp| - 1]
    ensures Interp(xp, fp, x) == c
  {
    SegmentConstant(xp, fp, c, x);
  }

  lemma MulNonNegative(x: real, y: real)
    requires x >= 0.0 && y >= 0.0
    ensures x * y >= 0.0
  {
  }

  lemma LerpBetween(f0: real, f1: real, t: real, lo: real, hi: real)
    requires 0.0 <= t <= 1.0
    requires lo <= f0 <= hi && lo <= f1 <= hi
    ensures lo <= Lerp(f0, f1, t) <= hi
  {
    MulNonNegative(1.0 - t, f0 - lo);
    MulNonNegative(t, f1 - lo);
    MulNonNegative(1.0 - t, hi - f0);
    MulNonNegative(t, hi - f1);
    assert Lerp(f0, f1, t) - lo == (1.0 - t) * (f0 - lo) + t * (f1 - lo);
    assert hi - Lerp(f0, f1, t) == (1.0 - t) * (hi - f0) + t * (hi - f1);
  }

  lemma UnitFraction(a: real, b: real)
    requires 0.0 <= a <= b && b > 0.0
    ensures 0.0 <= a / b <= 1.0
  {
  }

  lemma {:induction false} SegmentBounded(xp: seq<real>, fp: seq<real>, x: real, lo: real, hi: real)
    requires |xp| == |fp| >= 1 && Increasing(xp)
    requires xp[0] <= x <= xp[|xp| - 1]
    requires forall k :: 0 <= k < |fp| ==> lo <= fp[k] <= hi
    ensures lo <= Segment(xp, fp, x) <= hi
    decreases |xp|
  {
    if |xp| > 1 {
      if x < xp[1] {
        UnitFraction(x - xp[0], xp[1] - xp[0]);
        LerpBetween(fp[0], fp[1], (x - xp[0]) / (xp[1] - xp[0]), lo, hi);
      } else {
        SegmentBounded(xp[1..], fp[1..], x, lo, hi);
      }
    }
  }

  /** Interpolation never leaves the range of the samples (or 0, outside
      the sample wavelengths): it does not overshoot. */
  lemma InterpBounded(xp: seq<real>, fp: seq<real>, x: real, lo: real, hi: real)
    requires |xp| == |fp| >= 1 && Increasing(xp)
    requires lo <= 0.0 <= hi
    requires forall k :: 0 <= k < |fp| ==> lo <= fp[k] <= hi
    ensures lo <= Interp(xp, fp, x) <= hi
  {
    if xp[0] <= x <= xp[|xp| - 1] {
      SegmentBounded(xp, fp, x, lo, hi);
    }
  }
}
