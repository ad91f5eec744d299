/** Sorting of real samples, the first step of numpy's percentile and median. */
module Sorting {
  import opened Arrays

  predicate Sorted(s: seq<real>)
  {
    forall i, j :: 0 <= i < j < |s| ==> s[i] <= s[j]
  }

  /** Insert `x` in front of the first sample not smaller than it. */
  function Insert(x: real, s: seq<real>): (r: seq<real>)
    ensures |r| == |s| + 1
    ensures r[0] == x || (|s| > 0 && r[0] == s[0])
  {
    if |s| == 0 then [x]
    else if x <= s[0] then [x] + s
    else [s[0]] + Insert(x, s[1..])
  }

  /** Insertion keeps a sorted sequence sorted... */
  lemma {:induction false} InsertSorted(x: real, s: seq<real>)
    requires Sorted(s)
    ensures Sorted(Insert(x, s))
  {
    if |s| > 0 && x > s[0] {
      InsertSorted(x, s[1..]);
      var rest := Insert(x, s[1..]);
      assert s[0] <= rest[0];
      assert Insert(x, s) == [s[0]] + rest;
    }
  }

  /** ...and adds exactly one occurrence of `x`. */
  lemma {:induction false} InsertMultiset(x: real, s: seq<real>)
    ensures multiset(Insert(x, s)) == multiset(s) + multiset{x}
  {
    if |s| > 0 && x > s[0] {
      InsertMultiset(x, s[1..]);
      assert s == [s[0]] + s[1..];
    }
  }

  /** Insertion sort: the samples in ascending order. */
  function Sort(s: seq<real>): (r: seq<real>)
    ensures |r| == |s|
    ensures Sorted(r)
    ensures multiset(r) == multiset(s)
  {
    if |s| == 0 then []
    else
      var n := |s| - 1;
      assert s == s[..n] + [s[n]];
      InsertSorted(s[n], Sort(s[..n]));
      InsertMultiset(s[n], Sort(s[..n]));
      Insert(s[n], Sort(s[..n]))
  }

  /** The head of a sorted sequence is its least element. */
  lemma SortedHead(a: seq<real>, y: real)
    requires Sorted(a) && y in multiset(a)
    ensures a[0] <= y
  {
    var i :| 0 <= i < |a| && a[i] == y;
  }

  /** A sorted arrangement of a multiset is unique. */
  lemma {:induction false} SortedUnique(a: seq<real>, b: seq<real>)
    requires Sorted(a) && Sorted(b) && multiset(a) == multiset(b)
    ensures a == b
  {
    if |a| > 0 {
      assert |b| == |multiset(b)| == |multiset(a)| == |a|;
      assert a[0] in multiset(a) && b[0] in multiset(b);
      SortedHead(a, b[0]);
      SortedHead(b, a[0]);
      assert a[0] == b[0];
      var a', b' := a[1..], b[1..];
      assert a == [a[0]] + a';
      assert b == [b[0]] + b';
      assert multiset(a') == multiset(a) - multiset{a[0]};
      assert multiset(b') == multiset(b) - multiset{b[0]};
      assert multiset(a') == multiset(b');
      assert Sorted(a') && Sorted(b');
      SortedUnique(a', b');
    }
  }

  /** Sorting depends only on the multiset of the samples. */
  lemma SortPermutation(s: seq<real>, t: seq<real>)
    requires multiset(s) == multiset(t)
    ensures Sort(s) == Sort(t)
  {
    SortedUnique(Sort(s), Sort(t));
  }

  /** A sorted sequence is its own sort. */
  lemma SortSorted(s: seq<real>)
    requires Sorted(s)
    ensures Sort(s) == s
  {
    SortedUnique(Sort(s), s);
  }

  /** `g` applied to every sample. */
  function Apply(g: real -> real, s: seq<real>): (r: seq<real>)
    ensures |r| == |s|
    ensures forall i :: 0 <= i < |s| ==> r[i] == g(s[i])
  {
    seq(|s|, i requires 0 <= i < |s| => g(s[i]))
  }

  /** `g` preserves and reflects the order of the reals. */
  ghost predicate OrderPreserving(g: real -> real)
  {
    forall a, b :: a <= b <==> g(a) <= g(b)
  }

  lemma ApplySorted(g: real -> real, s: seq<real>)
    requires OrderPreserving(g) && Sorted(s)
    ensures Sorted(Apply(g, s))
  {
  }

  lemma ApplyCons(g: real -> real, x: real, s: seq<real>)
    ensures Apply(g, [x] + s) == [g(x)] + Apply(g, s)
  {
    assert |Apply(g, [x] + s)| == |[g(x)] + Apply(g, s)|;
    forall j | 0 <= j < |s| + 1
      ensures Apply(g, [x] + s)[j] == ([g(x)] + Apply(g, s))[j]
    {
    }
  }

  /** One step of insertion into a non-empty sorted sequence. */
  lemma InsertStep(x: real, s: seq<real>)
    requires |s| > 0
    ensures x <= s[0] ==> Insert(x, s) == [x] + s
    ensures x > s[0] ==> Insert(x, s) == [s[0]] + Insert(x, s[1..])
  {
  }

  /** An order-preserving map commutes with insertion... */
  lemma {:induction false} InsertApply(g: real -> real, x: real, s: seq<real>)
    requires OrderPreserving(g) && Sorted(s)
    ensures Sorted(Apply(g, s))
    ensures Insert(g(x), Apply(g, s)) == Apply(g, Insert(x, s))
  {
    ApplySorted(g, s);
    if |s| == 0 {
      assert Apply(g, s) == [];
      ApplyCons(g, x, s);
      assert [x] + s == [x];
    } else if x <= s[0] {
      InsertApplyFront(g, x, s);
    } else {
      InsertApply(g, x, s[1..]);
      InsertApplyBehind(g, x, s);
    }
  }

  lemma InsertApplyFront(g: real -> real, x: real, s: seq<real>)
    requires OrderPreserving(g) && Sorted(s) && Sorted(Apply(g, s))
    requires |s| > 0 && x <= s[0]
    ensures Insert(g(x), Apply(g, s)) == Apply(g, Insert(x, s))
  {
    var gs := Apply(g, s);
    assert g(x) <= gs[0];
    InsertStep(x, s);
    InsertStep(g(x), gs);
    ApplyCons(g, x, s);
  }

  lemma InsertApplyBehind(g: real -> real, x: real, s: seq<real>)
    requires OrderPreserving(g) && Sorted(s) && Sorted(Apply(g, s))
    requires |s| > 0 && x > s[0]
    requires Sorted(Apply(g, s[1..]))
    requires Insert(g(x), Apply(g, s[1..])) == Apply(g, Insert(x, s[1..]))
    ensures Insert(g(x), Apply(g, s)) == Apply(g, Insert(x, s))
  {
    var gs, t := Apply(g, s), s[1..];
    assert !(g(x) <= gs[0]);
    assert gs[1..] == Apply(g, t);
    InsertStep(x, s);
    InsertStep(g(x), gs);
    ApplyCons(g, s[0], Insert(x, t));
  }

  /** ...and so with sorting. */
  lemma {:induction false} SortApply(g: real -> real, s: seq<real>)
    requires OrderPreserving(g)
    ensures Sort(Apply(g, s)) == Apply(g, Sort(s))
  {
    if |s| == 0 {
      assert Apply(g, s) == [];
    } else {
      var n := |s| - 1;
      var gs := Apply(g, s);
      assert gs[..n] == Apply(g, s[..n]);
      SortApply(g, s[..n]);
      InsertApply(g, s[n], Sort(s[..n]));
    }
  }

  /** Multiplication by `k`, as a map on samples. */
  function Multiplier(k: real): real -> real
  {
    y => k * y
  }

  /** A positive factor preserves and reflects order. */
  lemma MultiplierOrderPreserving(k: real)
    requires k > 0.0
    ensures OrderPreserving(Multiplier(k))
  {
    forall a, b
      ensures a <= b <==> Multiplier(k)(a) <= Multiplier(k)(b)
    {
      if a <= b {
        assert k * b - k * a == k * (b - a);
      } else {
        assert k * a - k * b == k * (a - b);
      }
    }
  }

  lemma ApplyMultiplier(k: real, s: seq<real>)
    ensures Apply(Multiplier(k), s) == Scaled(k, s)
  {
  }

  /** Scaling by a positive factor commutes with sorting. */
  lemma SortScaled(k: real, s: seq<real>)
    requires k > 0.0
    ensures Sort(Scaled(k, s)) == Scaled(k, Sort(s))
  {
    MultiplierOrderPreserving(k);
    SortApply(Multiplier(k), s);
    ApplyMultiplier(k, s);
    ApplyMultiplier(k, Sort(s));
  }
}
