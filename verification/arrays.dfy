/** Element-wise array arithmetic of the band-averaging code, on arrays of equal length. */
module Arrays {

  /** Strictly increasing wavelengths: the grid invariant of every spectrum. */
  predicate Increasing(xs: seq<real>)
  {
    forall i, j :: 0 <= i < j < |xs| ==> xs[i] < xs[j]
  }

  /** Every entry equals `c`. */
  predicate Constant(xs: seq<real>, c: real)
  {
    forall i :: 0 <= i < |xs| ==> xs[i] == c
  }

  /** Every entry is non-negative. */
  predicate NonNegative(xs: seq<real>)
  {
    forall i :: 0 <= i < |xs| ==> xs[i] >= 0.0
  }

  /** `a * f + b * g`, element-wise. */
  function Combine(a: real, f: seq<real>, b: real, g: seq<real>): (r: seq<real>)
    requires |f| == |g|
    ensures |r| == |f|
    ensures forall k :: 0 <= k < |f| ==> r[k] == a * f[k] + b * g[k]
  {
    seq(|f|, k requires 0 <= k < |f| => a * f[k] + b * g[k])
  }

  /** `k * f`, element-wise. */
  function Scaled(k: real, f: seq<real>): (r: seq<real>)
    ensures |r| == |f|
    ensures forall i :: 0 <= i < |f| ==> r[i] == k * f[i]
  {
    seq(|f|, i requires 0 <= i < |f| => k * f[i])
  }

  /** `f * g`, element-wise. */
  function Product(f: seq<real>, g: seq<real>): (r: seq<real>)
    requires |f| == |g|
    ensures |r| == |f|
    ensures forall k :: 0 <= k < |f| ==> r[k] == f[k] * g[k]
  {
    seq(|f|, k requires 0 <= k < |f| => f[k] * g[k])
  }

  lemma ProductScaled(f: seq<real>, k: real, g: seq<real>)
    requires |f| == |g|
    ensures Product(f, Scaled(k, g)) == Scaled(k, Product(f, g))
  {
    forall j | 0 <= j < |f|
      ensures Product(f, Scaled(k, g))[j] == Scaled(k, Product(f, g))[j]
    {
      assert f[j] * (k * g[j]) == k * (f[j] * g[j]);
    }
  }
}
