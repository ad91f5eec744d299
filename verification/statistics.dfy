/** The difference statistics the comparison reports: absolute and relative
    differences between the two band-averaging routes, and their NaN-ignoring
    median with asymmetric error bars from the 15.9th and 84.1st
    percentiles (the one-sigma points of a normal distribution). */
module Statistics {
  import opened Numbers
  import opened Arrays
  import opened Sorting
  import opened Percentiles

  /** The non-NaN values, in order. */
  function Present(xs: seq<Number>): (r: seq<real>)
    ensures |r| <= |xs|
    decreases |xs|
  {
    if |xs| == 0 then []
    else
      var n := |xs| - 1;
      assert xs == xs[..n] + [xs[n]];
      Present(xs[..n]) + (if xs[n].Num? then [xs[n].val] else [])
  }

  /** Exactly the finite entries survive. */
  lemma {:induction false} PresentMembers(xs: seq<Number>)
    ensures forall x :: x in Present(xs) <==> Num(x) in xs
    decreases |xs|
  {
    if |xs| > 0 {
      var n := |xs| - 1;
      assert xs == xs[..n] + [xs[n]];
      PresentMembers(xs[..n]);
    }
  }

  lemma {:induction false} PresentAppend(a: seq<Number>, b: seq<Number>)
    ensures Present(a + b) == Present(a) + Present(b)
    decreases |b|
  {
    if |b| > 0 {
      var n := |b| - 1;
      var ab := a + b;
      assert ab[..|a| + n] == a + b[..n];
      assert ab[|a| + n] == b[n];
      var tail := if b[n].Num? then [b[n].val] else [];
      assert Present(ab) == Present(a + b[..n]) + tail;
      assert Present(b) == Present(b[..n]) + tail;
      PresentAppend(a, b[..n]);
    } else {
      assert a + b == a;
    }
  }

  /** A NaN anywhere in the input does not change the present values. */
  lemma PresentSkipsNaN(a: seq<Number>, b: seq<Number>)
    ensures Present(a + [NaN] + b) == Present(a + b)
  {
    PresentAppend(a + [NaN], b);
    PresentAppend(a, [NaN]);
    assert [NaN][..0] == [];
    PresentAppend(a, b);
  }

  /** Finite values as numbers. */
  function Nums(vs: seq<real>): (r: seq<Number>)
    ensures |r| == |vs|
    ensures forall i :: 0 <= i < |vs| ==> r[i] == Num(vs[i])
  {
    seq(|vs|, i requires 0 <= i < |vs| => Num(vs[i]))
  }

  /** Without NaN every value is present, in order. */
  lemma {:induction false} PresentNums(vs: seq<real>)
    ensures Present(Nums(vs)) == vs
  {
    if |vs| > 0 {
      var n := |vs| - 1;
      assert Nums(vs)[..n] == Nums(vs[..n]);
      PresentNums(vs[..n]);
      assert vs == vs[..n] + [vs[n]];
    }
  }

  /** True when no value is present. */
  predicate AllNaN(xs: seq<Number>)
  {
    forall i :: 0 <= i < |xs| ==> xs[i].NaN?
  }

  lemma PresentEmpty(xs: seq<Number>)
    ensures |Present(xs)| == 0 <==> AllNaN(xs)
  {
    PresentMembers(xs);
    if |Present(xs)| == 0 {
      forall i | 0 <= i < |xs|
        ensures xs[i].NaN?
      {
      }
    } else {
      var x := Present(xs)[0];
      assert Num(x) in xs;
    }
  }

  /** `np.nanpercentile` of one row: the linear percentile of the sorted
      present values, NaN when there are none. */
  function NanPercentile(xs: seq<Number>, p: real): (r: Number)
    requires 0.0 <= p <= 100.0
    ensures r.NaN? <==> AllNaN(xs)
  {
    PresentEmpty(xs);
    var v := Sort(Present(xs));
    if |v| == 0 then NaN else Num(Percentile(v, p))
  }

  /** A percentile lies between the smallest and the largest present value. */
  lemma NanPercentileBounds(xs: seq<Number>, p: real)
    requires 0.0 <= p <= 100.0
    ensures NanPercentile(xs, p).Num? ==>
      exists i, j :: 0 <= i < |xs| && 0 <= j < |xs| && xs[i].Num? && xs[j].Num? &&
        xs[i].val <= NanPercentile(xs, p).val <= xs[j].val &&
        (forall k :: 0 <= k < |xs| && xs[k].Num? ==> xs[i].val <= xs[k].val <= xs[j].val)
  {
    var v := Present(xs);
    PresentMembers(xs);
    if |v| > 0 {
      var w := Sort(v);
      SortedExtremes(v, w);
      var i :| 0 <= i < |xs| && xs[i] == Num(w[0]);
      var j :| 0 <= j < |xs| && xs[j] == Num(w[|w| - 1]);
      forall k | 0 <= k < |xs| && xs[k].Num?
        ensures w[0] <= xs[k].val <= w[|w| - 1]
      {
        assert xs[k].val in v;
      }
    }
  }

  /** The ends of a sorted arrangement of `v` are values of `v`, and every
      value of `v` lies between them. */
  lemma SortedExtremes(v: seq<real>, w: seq<real>)
    requires |v| > 0 && Sorted(w) && multiset(w) == multiset(v)
    ensures |w| == |v|
    ensures w[0] in v && w[|w| - 1] in v
    ensures forall y :: y in v ==> w[0] <= y <= w[|w| - 1]
  {
    assert |w| == |multiset(w)| == |multiset(v)| == |v|;
    assert w[0] in multiset(w) && w[|w| - 1] in multiset(w);
    forall y | y in v
      ensures w[0] <= y <= w[|w| - 1]
    {
      assert y in multiset(v);
      SortedBetween(w, y);
    }
  }

  /** Every element of a sorted sequence lies between its ends. */
  lemma SortedBetween(w: seq<real>, y: real)
    requires Sorted(w) && y in w
    ensures w[0] <= y <= w[|w| - 1]
  {
    var i :| 0 <= i < |w| && w[i] == y;
  }

  /** `np.nanmedian` of one row. */
  function NanMedian(xs: seq<Number>): (r: Number)
    ensures r.NaN? <==> AllNaN(xs)
    ensures r == NanPercentile(xs, 50.0)
  {
    PresentEmpty(xs);
    var v := Sort(Present(xs));
    if |v| == 0 then NaN
    else
      MedianIsPercentile(v);
      Num(Median(v))
  }

  /** Median of a row with the distances down to its 15.9th and up to its
      84.1st percentile. */
  datatype Summary = Summary(median: Number, lowerError: Number, upperError: Number)

  /** One row of `calculate_median_and_errors`. */
  function Summarise(xs: seq<Number>): (s: Summary)
    ensures s.median.NaN? <==> AllNaN(xs)
    ensures s.lowerError.NaN? <==> AllNaN(xs)
    ensures s.upperError.NaN? <==> AllNaN(xs)
    ensures s.median.Num? ==> s.lowerError.val >= 0.0 && s.upperError.val >= 0.0
    ensures s.median.Num? ==>
      NanPercentile(xs, 15.9) == Num(s.median.val - s.lowerError.val) &&
      NanPercentile(xs, 84.1) == Num(s.median.val + s.upperError.val)
  {
    var lower := NanPercentile(xs, 15.9);
    var med := NanMedian(xs);
    var upper := NanPercentile(xs, 84.1);
    PercentilesOrdered(xs);
    Summary(med, Sub(med, lower), Sub(upper, med))
  }

  /** The 15.9th percentile, the median and the 84.1st percentile of a row
      come in that order. */
  lemma PercentilesOrdered(xs: seq<Number>)
    ensures !AllNaN(xs) ==>
      NanPercentile(xs, 15.9).val <= NanMedian(xs).val <= NanPercentile(xs, 84.1).val
  {
    PresentEmpty(xs);
    if !AllNaN(xs) {
      var v := Sort(Present(xs));
      PercentileMonotone(v, 15.9, 50.0);
      PercentileMonotone(v, 50.0, 84.1);
    }
  }

  /** `calculate_median_and_errors`: one summary per row of `differences`. */
  function MedianAndErrors(differences: seq<seq<Number>>): (r: seq<Summary>)
    ensures |r| == |differences|
    ensures forall i :: 0 <= i < |r| ==> r[i] == Summarise(differences[i])
    ensures forall i :: 0 <= i < |r| ==> r[i].median == NanMedian(differences[i])
    ensures forall i :: 0 <= i < |r| ==>
      (r[i].median.NaN? <==> AllNaN(differences[i])) &&
      (r[i].lowerError.NaN? <==> AllNaN(differences[i])) &&
      (r[i].upperError.NaN? <==> AllNaN(differences[i]))
    ensures forall i :: 0 <= i < |r| && r[i].lowerError.Num? && r[i].upperError.Num? ==>
      r[i].lowerError.val >= 0.0 && r[i].upperError.val >= 0.0
  {
    seq(|differences|, i requires 0 <= i < |differences| => Summarise(differences[i]))
  }

  /** The summary sees only the multiset of present values: neither the
      order of a row nor its NaN entries matter. */
  lemma SummariseMultiset(xs: seq<Number>, ys: seq<Number>)
    requires multiset(Present(xs)) == multiset(Present(ys))
    ensures Summarise(xs) == Summarise(ys)
  {
    SortPermutation(Present(xs), Present(ys));
  }

  /** `k * x`, element-wise. */
  function ScaleNumbers(k: real, xs: seq<Number>): (r: seq<Number>)
    ensures |r| == |xs|
    ensures forall i :: 0 <= i < |xs| ==> r[i] == Times(k, xs[i])
  {
    seq(|xs|, i requires 0 <= i < |xs| => Times(k, xs[i]))
  }

  /** `g` applied to a value, NaN staying NaN. */
  function MapNumber(g: real -> real, x: Number): Number
  {
    if x.Num? then Num(g(x.val)) else NaN
  }

  function MapNumbers(g: real -> real, xs: seq<Number>): (r: seq<Number>)
    ensures |r| == |xs|
    ensures forall i :: 0 <= i < |xs| ==> r[i] == MapNumber(g, xs[i])
  {
    seq(|xs|, i requires 0 <= i < |xs| => MapNumber(g, xs[i]))
  }

  lemma {:induction false} PresentMap(g: real -> real, xs: seq<Number>)
    ensures Present(MapNumbers(g, xs)) == Apply(g, Present(xs))
    decreases |xs|
  {
    if |xs| > 0 {
      var n := |xs| - 1;
      var ys := MapNumbers(g, xs);
      assert ys[..n] == MapNumbers(g, xs[..n]);
      PresentMap(g, xs[..n]);
      var v := Present(xs[..n]);
      if xs[n].Num? {
        var a, b := Apply(g, v + [xs[n].val]), Apply(g, v) + [g(xs[n].val)];
        assert |a| == |b|;
        forall j | 0 <= j < |a|
          ensures a[j] == b[j]
        {
        }
      } else {
        assert v + [] == v;
      }
    }
  }

  /** A map that preserves order and commutes with interpolation commutes
      with the NaN-ignoring percentile. */
  lemma NanPercentileMap(g: real -> real, xs: seq<Number>, p: real)
    requires OrderPreserving(g) && CommutesWithLerp(g) && 0.0 <= p <= 100.0
    ensures NanPercentile(MapNumbers(g, xs), p) == MapNumber(g, NanPercentile(xs, p))
  {
    var ys := MapNumbers(g, xs);
    var v := Present(xs);
    PresentMap(g, xs);
    assert Present(ys) == Apply(g, v);
    if |v| == 0 {
      assert NanPercentile(xs, p) == NaN;
      assert NanPercentile(ys, p) == NaN;
    } else {
      var w := Sort(v);
      SortApply(g, v);
      PercentileApply(g, w, p);
      assert NanPercentile(xs, p) == Num(Percentile(w, p));
      assert NanPercentile(ys, p) == Num(Percentile(Apply(g, w), p));
    }
  }

  lemma MapMultiplier(k: real, xs: seq<Number>)
    ensures MapNumbers(Multiplier(k), xs) == ScaleNumbers(k, xs)
    ensures forall x :: MapNumber(Multiplier(k), x) == Times(k, x)
  {
    assert forall x :: MapNumber(Multiplier(k), x) == Times(k, x);
  }

  lemma NanPercentileScaled(k: real, xs: seq<Number>, p: real)
    requires k > 0.0 && 0.0 <= p <= 100.0
    ensures NanPercentile(ScaleNumbers(k, xs), p) == Times(k, NanPercentile(xs, p))
  {
    MultiplierOrderPreserving(k);
    MultiplierCommutesWithLerp(k);
    NanPercentileMap(Multiplier(k), xs, p);
    MapMultiplier(k, xs);
  }

  function ScaleSummary(k: real, s: Summary): Summary
  {
    Summary(Times(k, s.median), Times(k, s.lowerError), Times(k, s.upperError))
  }

  lemma SubScaled(k: real, a: real, b: real)
    ensures Sub(Num(k * a), Num(k * b)) == Times(k, Sub(Num(a), Num(b)))
  {
    assert k * a - k * b == k * (a - b);
  }

  lemma NanMedianScaled(k: real, xs: seq<Number>)
    requires k > 0.0
    ensures NanMedian(ScaleNumbers(k, xs)) == Times(k, NanMedian(xs))
  {
    NanPercentileScaled(k, xs, 50.0);
  }

  /** The summary of scaled parts is the scaled summary of the parts. */
  lemma SummaryPartsScaled(k: real, lo: Number, med: Number, hi: Number)
    requires lo.NaN? <==> med.NaN?
    requires hi.NaN? <==> med.NaN?
    ensures Summary(Times(k, med), Sub(Times(k, med), Times(k, lo)), Sub(Times(k, hi), Times(k, med)))
         == ScaleSummary(k, Summary(med, Sub(med, lo), Sub(hi, med)))
  {
    if med.Num? {
      SubScaled(k, med.val, lo.val);
      SubScaled(k, hi.val, med.val);
    }
  }

  /** Scaling every difference by a positive factor scales the median and
      both error bars by that factor. */
  lemma SummariseScaled(k: real, xs: seq<Number>)
    requires k > 0.0
    ensures Summarise(ScaleNumbers(k, xs)) == ScaleSummary(k, Summarise(xs))
  {
    var ys := ScaleNumbers(k, xs);
    NanPercentileScaled(k, xs, 15.9);
    NanPercentileScaled(k, xs, 84.1);
    NanMedianScaled(k, xs);
    var lo, med, hi := NanPercentile(xs, 15.9), NanMedian(xs), NanPercentile(xs, 84.1);
    assert Summarise(xs) == Summary(med, Sub(med, lo), Sub(hi, med));
    assert Summarise(ys) == Summary(Times(k, med), Sub(Times(k, med), Times(k, lo)), Sub(Times(k, hi), Times(k, med)));
    SummaryPartsScaled(k, lo, med, hi);
  }

  /** A worked row: the NaN is ignored, the median of the six present
      values is 3.5, and the outlier 100 pulls only the upper error bar. */
  lemma SummariseExample()
    ensures Summarise([Num(1.0), NaN, Num(2.0), Num(3.0), Num(4.0), Num(5.0), Num(100.0)])
         == Summary(Num(3.5), Num(1.705), Num(20.975))
  {
    var xs := [Num(1.0), NaN, Num(2.0), Num(3.0), Num(4.0), Num(5.0), Num(100.0)];
    var v := [1.0, 2.0, 3.0, 4.0, 5.0, 100.0];
    assert xs == [Num(1.0)] + [NaN] + Nums(v[1..]);
    assert [Num(1.0)] + Nums(v[1..]) == Nums(v);
    PresentSkipsNaN([Num(1.0)], Nums(v[1..]));
    PresentNums(v);
    ExampleSorted(v);
    ExamplePercentiles(v);
  }

  lemma ExampleSorted(v: seq<real>)
    requires v == [1.0, 2.0, 3.0, 4.0, 5.0, 100.0]
    ensures Sorted(v) && Sort(v) == v
  {
    forall i, j | 0 <= i < j < |v|
      ensures v[i] <= v[j]
    {
    }
    SortSorted(v);
  }

  lemma ExamplePercentiles(v: seq<real>)
    requires v == [1.0, 2.0, 3.0, 4.0, 5.0, 100.0] && Sorted(v)
    ensures Percentile(v, 15.9) == 1.795
    ensures Median(v) == 3.5
    ensures Percentile(v, 84.1) == 24.475
  {
    assert (|v| - 1) as real == 5.0;
    PercentileBetween(v, 15.9, 0, 0.795);
    PercentileBetween(v, 84.1, 4, 0.205);
  }

  /** The percentile at a rank `lo + t` between two sample positions. */
  lemma PercentileBetween(v: seq<real>, p: real, lo: nat, t: real)
    requires |v| >= 1 && Sorted(v) && 0.0 <= p <= 100.0
    requires lo + 1 < |v| && 0.0 <= t < 1.0
    requires p / 100.0 * (|v| - 1) as real == lo as real + t
    ensures Percentile(v, p) == v[lo] + t * (v[lo + 1] - v[lo])
  {
    assert Rank(|v|, p).Floor == lo;
  }
}
