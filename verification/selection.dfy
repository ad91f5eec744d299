/** Row removal as the conversion scripts perform it: collect the indices of
    the rows that fail a QA test, then remove exactly those rows from the
    table. `Without` is the reference definition (keep the rows the test does
    not flag, in order); `RemoveRows` is the index-list removal the scripts
    perform; `RemoveMatching` is the two steps together. */
module Selection {

  /** The elements of `s` that `drop` does not flag, in their original order. */
  function Without<T>(s: seq<T>, drop: T -> bool): (r: seq<T>)
    ensures |r| <= |s|
    ensures forall i :: 0 <= i < |r| ==> r[i] in s && !drop(r[i])
  {
    if |s| == 0 then []
    else Without(s[..|s| - 1], drop) + (if drop(s[|s| - 1]) then [] else [s[|s| - 1]])
  }

  /** The indices of the elements of `s` that `drop` does not flag, ascending. */
  function Kept<T>(s: seq<T>, drop: T -> bool): (idx: seq<nat>)
    ensures forall k :: 0 <= k < |idx| ==> idx[k] < |s|
  {
    if |s| == 0 then []
    else Kept(s[..|s| - 1], drop) + (if drop(s[|s| - 1]) then [] else [|s| - 1])
  }

  /** `Kept` lists the positions of the elements `Without` keeps, and
      `Without` keeps them in that order. */
  lemma {:induction false} KeptElements<T>(s: seq<T>, drop: T -> bool)
    ensures |Kept(s, drop)| == |Without(s, drop)|
    ensures forall k :: 0 <= k < |Kept(s, drop)| ==> Without(s, drop)[k] == s[Kept(s, drop)[k]]
  {
    if |s| > 0 {
      var n := |s| - 1;
      var pre := s[..n];
      KeptElements(pre, drop);
      var idx, w := Kept(s, drop), Without(s, drop);
      var pidx, pw := Kept(pre, drop), Without(pre, drop);
      forall k | 0 <= k < |idx|
        ensures w[k] == s[idx[k]]
      {
        if k < |pidx| {
          assert w[k] == pw[k] == pre[pidx[k]];
        }
      }
    }
  }

  /** The positions `Kept` lists are strictly ascending. */
  lemma {:induction false} KeptAscending<T>(s: seq<T>, drop: T -> bool)
    ensures forall k, l :: 0 <= k < l < |Kept(s, drop)| ==> Kept(s, drop)[k] < Kept(s, drop)[l]
  {
    if |s| > 0 {
      KeptAscending(s[..|s| - 1], drop);
    }
  }

  /** A position is listed by `Kept` exactly when `drop` does not flag its element. */
  lemma {:induction false} KeptExactly<T>(s: seq<T>, drop: T -> bool)
    ensures forall i :: 0 <= i < |s| ==> (i in Kept(s, drop) <==> !drop(s[i]))
  {
    if |s| > 0 {
      var n := |s| - 1;
      var pre := s[..n];
      KeptExactly(pre, drop);
      var idx, pidx := Kept(s, drop), Kept(pre, drop);
      forall i | 0 <= i < |s|
        ensures i in idx <==> !drop(s[i])
      {
        if i < n {
          assert s[i] == pre[i];
          assert i in pidx <==> !drop(pre[i]);
        }
      }
    }
  }

  /** When `drop` flags nothing, everything is kept. */
  lemma {:induction false} WithoutNothing<T>(s: seq<T>, drop: T -> bool)
    requires forall i :: 0 <= i < |s| ==> !drop(s[i])
    ensures Without(s, drop) == s
  {
    if |s| > 0 {
      var n := |s| - 1;
      var init, last := s[..n], s[n];
      forall i | 0 <= i < |init|
        ensures !drop(init[i])
      {
        assert init[i] == s[i];
      }
      WithoutNothing(init, drop);
      assert Without(s, drop) == Without(init, drop) + [last];
      assert s == init + [last];
    }
  }

  /** `[i for i, row in enumerate(s) if drop(row)]`, as a set of indices. */
  function Matching<T>(s: seq<T>, drop: T -> bool): (m: set<nat>)
    ensures forall i: nat :: i in m <==> (i < |s| && drop(s[i]))
  {
    set i: nat | i < |s| && drop(s[i])
  }

  /** `table.remove_rows(indices)`: drop every row whose position is in `indices`. */
  function RemoveRows<T>(s: seq<T>, indices: set<nat>): (r: seq<T>)
    ensures |r| <= |s|
  {
    if |s| == 0 then []
    else RemoveRows(s[..|s| - 1], indices) + (if |s| - 1 in indices then [] else [s[|s| - 1]])
  }

  /** One QA filter of the scripts: find the flagged rows, then remove them.
      This keeps exactly the rows the test does not flag, in order. */
  function RemoveMatching<T>(s: seq<T>, drop: T -> bool): (r: seq<T>)
    ensures r == Without(s, drop)
  {
    RemoveRowsIsWithout(s, drop);
    RemoveRows(s, Matching(s, drop))
  }

  /** Only the indices below `|s|` matter to `RemoveRows`. */
  lemma {:induction false} RemoveRowsLocal<T>(s: seq<T>, a: set<nat>, b: set<nat>)
    requires forall i: nat :: i < |s| ==> (i in a <==> i in b)
    ensures RemoveRows(s, a) == RemoveRows(s, b)
  {
    if |s| > 0 {
      RemoveRowsLocal(s[..|s| - 1], a, b);
    }
  }

  /** Removing the flagged indices removes exactly the flagged rows and keeps
      the others in order. */
  lemma {:induction false} RemoveRowsIsWithout<T>(s: seq<T>, drop: T -> bool)
    ensures RemoveRows(s, Matching(s, drop)) == Without(s, drop)
  {
    if |s| > 0 {
      var n := |s| - 1;
      RemoveRowsIsWithout(s[..n], drop);
      RemoveRowsLocal(s[..n], Matching(s, drop), Matching(s[..n], drop));
    }
  }

  lemma {:induction false} WithoutAppend<T>(a: seq<T>, b: seq<T>, drop: T -> bool)
    ensures Without(a + b, drop) == Without(a, drop) + Without(b, drop)
  {
    if |b| > 0 {
      var n := |b| - 1;
      var wa, wb, tail := Without(a, drop), Without(b[..n], drop), if drop(b[n]) then [] else [b[n]];
      assert Without(a + b, drop) == wa + wb + tail by {
        WithoutAppend(a, b[..n], drop);
        WithoutAppendLast(a, b, drop);
      }
      assert Without(b, drop) == wb + tail;
      assert wa + wb + tail == wa + (wb + tail);
    } else {
      assert a + b == a;
    }
  }

  /** Filtering `a + b` ends as filtering `a + b` without its last row does,
      followed by that row when it is kept. */
  lemma WithoutAppendLast<T>(a: seq<T>, b: seq<T>, drop: T -> bool)
    requires |b| > 0
    ensures var n := |b| - 1;
      Without(a + b, drop) == Without(a + b[..n], drop) + (if drop(b[n]) then [] else [b[n]])
  {
    var n, ab := |b| - 1, a + b;
    assert ab[..|ab| - 1] == a + b[..n];
    assert ab[|ab| - 1] == b[n];
  }

  /** The combined test that flags what `first` or `second` flags. */
  function Either<T>(first: T -> bool, second: T -> bool): T -> bool
  {
    x => first(x) || second(x)
  }

  /** Two filters in a row keep exactly the rows neither of them flags. */
  lemma {:induction false} WithoutTwice<T>(s: seq<T>, first: T -> bool, second: T -> bool)
    ensures Without(Without(s, first), second) == Without(s, Either(first, second))
  {
    if |s| > 0 {
      var n, both := |s| - 1, Either(first, second);
      var init, last := s[..n], s[n];
      WithoutTwice(init, first, second);
      var tail := if first(last) then [] else [last];
      var kept := if both(last) then [] else [last];
      assert Without(s, first) == Without(init, first) + tail;
      assert Without(s, both) == Without(init, both) + kept;
      WithoutAppend(Without(init, first), tail, second);
      assert Without(tail, second) == kept by {
        if !first(last) {
          assert tail[..0] == [];
          assert Without(tail, second) == Without([], second) + (if second(last) then [] else [last]);
        }
      }
    }
  }

  /** `s` restricted to the positions `idx`, in the order of `idx`. */
  function Select<T>(s: seq<T>, idx: seq<nat>): (r: seq<T>)
    requires forall k :: 0 <= k < |idx| ==> idx[k] < |s|
    ensures |r| == |idx|
    ensures forall k :: 0 <= k < |idx| ==> r[k] == s[idx[k]]
  {
    seq(|idx|, k requires 0 <= k < |idx| => s[idx[k]])
  }

  /** Two tests that flag the same rows remove the same rows. */
  lemma {:induction false} WithoutSameTest<T>(s: seq<T>, f: T -> bool, g: T -> bool)
    requires forall i :: 0 <= i < |s| ==> f(s[i]) == g(s[i])
    ensures Without(s, f) == Without(s, g)
  {
    if |s| > 0 {
      WithoutSameTest(s[..|s| - 1], f, g);
    }
  }

  /** Two filters in a row remove exactly the rows that a combined test
      `both` flags, when `both` flags what either of them does. */
  lemma SuccessiveFilters<T>(s: seq<T>, first: T -> bool, second: T -> bool, both: T -> bool)
    requires forall x :: both(x) == (first(x) || second(x))
    ensures Without(Without(s, first), second) == Without(s, both)
  {
    WithoutTwice(s, first, second);
    WithoutSameTest(s, Either(first, second), both);
  }

  /** ...and likewise for three filters in a row. */
  lemma ThreeSuccessiveFilters<T>(s: seq<T>, first: T -> bool, second: T -> bool, third: T -> bool, all: T -> bool)
    requires forall x :: all(x) == (first(x) || second(x) || third(x))
    ensures Without(Without(Without(s, first), second), third) == Without(s, all)
  {
    var both := x => first(x) || second(x);
    SuccessiveFilters(s, first, second, both);
    SuccessiveFilters(s, both, third, all);
  }
}
