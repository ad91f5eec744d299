/** Trapezoidal quadrature on a possibly non-uniform grid: `np.trapz(y, x=x)`,
    which sums the panel areas `d * (y[1:] + y[:-1]) / 2` with `d = diff(x)`. */
module Trapezoid {
  import opened Arrays

  /** Area of the trapezoid over grid interval `k`, between points `k` and `k + 1`. */
  function Panel(x: seq<real>, y: seq<real>, k: nat): real
    requires |x| == |y| && k + 1 < |x|
  {
    (x[k + 1] - x[k]) * (y[k] + y[k + 1]) / 2.0
  }

  /** The areas of all grid intervals; none for fewer than two points. */
  function Panels(x: seq<real>, y: seq<real>): (r: seq<real>)
    requires |x| == |y|
    ensures |r| == if |x| == 0 then 0 else |x| - 1
    ensures forall k :: 0 <= k < |r| ==> r[k] == Panel(x, y, k)
  {
    if |x| == 0 then [] else seq(|x| - 1, k requires 0 <= k < |x| - 1 => Panel(x, y, k))
  }

  /** Left-to-right sum. */
  function Sum(s: seq<real>): real
    decreases |s|, 1
  {
    if |s| == 0 then 0.0 else SumNonEmpty(s)
  }

  function SumNonEmpty(s: seq<real>): real
    requires |s| > 0
    decreases |s|, 0
  {
    Sum(s[..|s| - 1]) + s[|s| - 1]
  }

  /** A non-empty sum is the sum of all but the last term, plus the last term. */
  lemma SumLast(s: seq<real>)
    requires |s| > 0
    ensures Sum(s) == Sum(s[..|s| - 1]) + s[|s| - 1]
  {
    assert Sum(s) == SumNonEmpty(s);
  }

  function Trapz(x: seq<real>, y: seq<real>): real
    requires |x| == |y|
  {
    Sum(Panels(x, y))
  }

  /** Summing a pointwise sum gives the sum of the sums. */
  lemma {:induction false} SumAdd(r: seq<real>, p: seq<real>, q: seq<real>)
    requires |r| == |p| == |q|
    requires forall k :: 0 <= k < |r| ==> r[k] == p[k] + q[k]
    ensures Sum(r) == Sum(p) + Sum(q)
  {
    if |r| > 0 {
      var n := |r| - 1;
      SumAdd(r[..n], p[..n], q[..n]);
    }
  }

  /** A common factor comes out of the sum. */
  lemma {:induction false} SumMul(a: real, r: seq<real>, p: seq<real>)
    requires |r| == |p|
    requires forall k :: 0 <= k < |r| ==> r[k] == a * p[k]
    ensures Sum(r) == a * Sum(p)
  {
    if |r| > 0 {
      var n := |r| - 1;
      SumMul(a, r[..n], p[..n]);
    }
  }

  lemma {:induction false} SumNonNegative(p: seq<real>)
    requires NonNegative(p)
    ensures Sum(p) >= 0.0
  {
    if |p| > 0 {
      SumNonNegative(p[..|p| - 1]);
    }
  }

  lemma {:induction false} SumPositive(p: seq<real>, k: nat)
    requires NonNegative(p) && k < |p| && p[k] > 0.0
    ensures Sum(p) > 0.0
  {
    var n := |p| - 1;
    if k < n {
      SumPositive(p[..n], k);
    } else {
      SumNonNegative(p[..n]);
    }
  }

  lemma PanelAdd(dx: real, f0: real, f1: real, g0: real, g1: real)
    ensures dx * ((f0 + g0) + (f1 + g1)) / 2.0 == dx * (f0 + f1) / 2.0 + dx * (g0 + g1) / 2.0
  {
  }

  lemma PanelMul(dx: real, a: real, f0: real, f1: real)
    ensures dx * (a * f0 + a * f1) / 2.0 == a * (dx * (f0 + f1) / 2.0)
  {
    assert dx * (a * f0 + a * f1) == a * (dx * (f0 + f1));
  }

  /** Integrating a pointwise sum gives the sum of the integrals. */
  lemma TrapzAdd(x: seq<real>, h: seq<real>, f: seq<real>, g: seq<real>)
    requires |x| == |h| == |f| == |g|
    requires forall k :: 0 <= k < |h| ==> h[k] == f[k] + g[k]
    ensures Trapz(x, h) == Trapz(x, f) + Trapz(x, g)
  {
    var ph, pf, pg := Panels(x, h), Panels(x, f), Panels(x, g);
    forall k | 0 <= k < |ph|
      ensures ph[k] == pf[k] + pg[k]
    {
      PanelAdd(x[k + 1] - x[k], f[k], f[k + 1], g[k], g[k + 1]);
    }
    SumAdd(ph, pf, pg);
  }

  /** A constant factor of the integrand comes out of the integral. */
  lemma TrapzMul(x: seq<real>, a: real, h: seq<real>, f: seq<real>)
    requires |x| == |h| == |f|
    requires forall k :: 0 <= k < |h| ==> h[k] == a * f[k]
    ensures Trapz(x, h) == a * Trapz(x, f)
  {
    var ph, pf := Panels(x, h), Panels(x, f);
    forall k | 0 <= k < |ph|
      ensures ph[k] == a * pf[k]
    {
      PanelMul(x[k + 1] - x[k], a, f[k], f[k + 1]);
    }
    SumMul(a, ph, pf);
  }

  /** The integral is linear in the integrand: integrating `a * f + b * g`
      point by point gives `a` times the integral of `f` plus `b` times
      that of `g`. */
  lemma TrapzLinear(x: seq<real>, a: real, h: seq<real>, f: seq<real>, b: real, g: seq<real>)
    requires |x| == |h| == |f| == |g|
    requires forall k :: 0 <= k < |h| ==> h[k] == a * f[k] + b * g[k]
    ensures Trapz(x, h) == a * Trapz(x, f) + b * Trapz(x, g)
  {
    TrapzAdd(x, h, Scaled(a, f), Scaled(b, g));
    TrapzMul(x, a, Scaled(a, f), f);
    TrapzMul(x, b, Scaled(b, g), g);
  }

  /** Scaling the integrand scales the integral. */
  lemma TrapzScaled(x: seq<real>, k: real, f: seq<real>)
    requires |x| == |f|
    ensures Trapz(x, Scaled(k, f)) == k * Trapz(x, f)
  {
    TrapzMul(x, k, Scaled(k, f), f);
  }

  /** Scaling the weights of a weighted integrand scales the integral. */
  lemma TrapzProductScaled(x: seq<real>, f: seq<real>, k: real, w: seq<real>)
    requires |x| == |f| == |w|
    ensures Trapz(x, Product(f, Scaled(k, w))) == k * Trapz(x, Product(f, w))
  {
    ProductScaled(f, k, w);
    TrapzMul(x, k, Product(f, Scaled(k, w)), Product(f, w));
  }

  /** Extending the grid by one point adds that point's panel: the step a
      column-by-column accumulation takes. */
  lemma TrapzExtend(x: seq<real>, y: seq<real>, k: nat)
    requires |x| == |y| && 1 <= k < |x|
    ensures Trapz(x[..k + 1], y[..k + 1]) == Trapz(x[..k], y[..k]) + Panel(x, y, k - 1)
  {
    var longer, shorter := Panels(x[..k + 1], y[..k + 1]), Panels(x[..k], y[..k]);
    forall i | 0 <= i < k - 1
      ensures longer[i] == shorter[i]
    {
      assert longer[i] == Panel(x, y, i) == shorter[i];
    }
    assert longer[..k - 1] == shorter;
    assert longer[k - 1] == Panel(x, y, k - 1);
    SumLast(longer);
  }

  lemma MulSign(a: real, b: real)
    requires a > 0.0 && b >= 0.0
    ensures a * b >= 0.0
    ensures b > 0.0 ==> a * b > 0.0
  {
  }

  /** A panel over a rising interval with non-negative ends is non-negative,
      and positive when either end is. */
  lemma PanelSign(x: seq<real>, y: seq<real>, j: nat)
    requires |x| == |y| && j + 1 < |x| && x[j] < x[j + 1] && y[j] >= 0.0 && y[j + 1] >= 0.0
    ensures Panel(x, y, j) >= 0.0
    ensures y[j] + y[j + 1] > 0.0 ==> Panel(x, y, j) > 0.0
  {
    MulSign(x[j + 1] - x[j], y[j] + y[j + 1]);
  }

  /** On an increasing grid a non-negative integrand has non-negative panels. */
  lemma PanelsNonNegative(x: seq<real>, y: seq<real>)
    requires |x| == |y| && Increasing(x) && NonNegative(y)
    ensures NonNegative(Panels(x, y))
  {
    forall k | 0 <= k < |Panels(x, y)|
      ensures Panels(x, y)[k] >= 0.0
    {
      PanelSign(x, y, k);
    }
  }

  /** On an increasing grid a non-negative integrand has a non-negative integral. */
  lemma TrapzNonNegative(x: seq<real>, y: seq<real>)
    requires |x| == |y| && Increasing(x) && NonNegative(y)
    ensures Trapz(x, y) >= 0.0
  {
    PanelsNonNegative(x, y);
    SumNonNegative(Panels(x, y));
  }

  /** ...and a strictly positive one as soon as any sample is positive and
      the grid has at least two points: the weight integral of such a
      response is never the degenerate zero. */
  lemma TrapzPositive(x: seq<real>, y: seq<real>, k: nat)
    requires |x| == |y| >= 2 && Increasing(x) && NonNegative(y)
    requires k < |y| && y[k] > 0.0
    ensures Trapz(x, y) > 0.0
  {
    PanelsNonNegative(x, y);
    var j := if k + 1 < |x| then k else k - 1;
    PanelSign(x, y, j);
    SumPositive(Panels(x, y), j);
  }

  /** The trapezoid integrals of a batch of integrands sharing one grid,
      accumulated one grid interval at a time for all rows together, the
      way `np.trapz(..., axis=1)` sums along the second axis. */
  method TrapzRows(x: seq<real>, ys: seq<seq<real>>) returns (sums: seq<real>)
    requires forall i :: 0 <= i < |ys| ==> |ys[i]| == |x|
    ensures |sums| == |ys|
    ensures forall i :: 0 <= i < |ys| ==> sums[i] == Trapz(x, ys[i])
  {
    sums := seq(|ys|, i => 0.0);
    var k := 0;
    while k < |x|
      invariant 0 <= k <= |x|
      invariant |sums| == |ys|
      invariant forall i :: 0 <= i < |ys| ==> sums[i] == Trapz(x[..k], ys[i][..k])
    {
      if k >= 1 {
        forall i | 0 <= i < |ys|
          ensures Trapz(x[..k + 1], ys[i][..k + 1]) == sums[i] + Panel(x, ys[i], k - 1)
        {
          TrapzExtend(x, ys[i], k);
        }
        sums := seq(|ys|, i requires 0 <= i < |ys| => sums[i] + Panel(x, ys[i], k - 1));
      } else {
        forall i | 0 <= i < |ys|
          ensures Trapz(x[..1], ys[i][..1]) == 0.0
        {
          assert Panels(x[..1], ys[i][..1]) == [];
        }
      }
      k := k + 1;
    }
    forall i | 0 <= i < |ys|
      ensures sums[i] == Trapz(x, ys[i])
    {
      assert x[..k] == x && ys[i][..k] == ys[i];
    }
  }
}
