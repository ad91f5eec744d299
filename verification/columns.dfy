/** Table column bookkeeping in the conversion scripts: astropy's
    `rename_column` and `remove_columns` on the list of column names, the
    SeaSWIR renaming of the generic `col1`, `col2`, ... names of a
    header-less file, and the HE302 merge of the `_1`/`_2` copies a join
    leaves behind. */
module Columns {
  import opened Numbers
  import opened Text
  import opened Selection

  /** A table's column names are unique. */
  predicate Distinct(keys: seq<string>)
  {
    forall i, j :: 0 <= i < j < |keys| ==> keys[i] != keys[j]
  }

  /** Position of the first column called `name`, or `|keys|`. */
  function Position(keys: seq<string>, name: string): (i: nat)
    ensures i <= |keys|
    ensures i < |keys| ==> keys[i] == name
    ensures forall k :: 0 <= k < i ==> keys[k] != name
    ensures i == |keys| <==> name !in keys
  {
    if |keys| == 0 then 0 else if keys[0] == name then 0 else 1 + Position(keys[1..], name)
  }

  /** `table.rename_column(from, to)`: the column keeps its place; renaming
      a missing column, or onto a name another column has, raises. */
  function Rename(keys: seq<string>, from: string, to: string): (r: Result<seq<string>>)
    ensures r == Err(MissingColumn) <==> from !in keys
    ensures r == Err(DuplicateColumn) <==> from in keys && from != to && to in keys
    ensures r.Ok? ==> |r.value| == |keys| && r.value[Position(keys, from)] == to
    ensures r.Ok? ==> forall k :: 0 <= k < |keys| && k != Position(keys, from) ==> r.value[k] == keys[k]
  {
    if from !in keys then Err(MissingColumn)
    else if from == to then Ok(keys)
    else if to in keys then Err(DuplicateColumn)
    else Ok(keys[Position(keys, from) := to])
  }

  /** Renaming keeps the names unique and swaps one name for the other. */
  lemma RenameKeepsDistinct(keys: seq<string>, from: string, to: string)
    requires Distinct(keys) && Rename(keys, from, to).Ok?
    ensures Distinct(Rename(keys, from, to).value)
    ensures forall k :: k in Rename(keys, from, to).value <==> (k in keys && k != from) || k == to
  {
    var r := Rename(keys, from, to).value;
    var p := Position(keys, from);
    if from != to {
      forall k | (k in keys && k != from) || k == to
        ensures k in r
      {
        if k != to {
          var i :| 0 <= i < |keys| && keys[i] == k;
          assert r[i] == k;
        } else {
          assert r[p] == to;
        }
      }
    }
  }

  /** `table.remove_columns(names)`: every named column must exist; the
      others keep their order. */
  function RemoveColumns(keys: seq<string>, names: seq<string>): (r: Result<seq<string>>)
    ensures r.Err? <==> exists n :: n in names && n !in keys
    ensures r.Err? ==> r.error == MissingColumn
    ensures r.Ok? ==> forall k :: k in r.value <==> k in keys && k !in names
    ensures r.Ok? ==> r.value == Without(keys, (k: string) => k in names)
  {
    if forall n :: n in names ==> n in keys then
      KeptElements(keys, (k: string) => k in names);
      KeptExactly(keys, (k: string) => k in names);
      assert forall k :: k in keys && k !in names ==> k in Without(keys, (k: string) => k in names) by {
        forall k | k in keys && k !in names
          ensures k in Without(keys, (k: string) => k in names)
        {
          var i :| 0 <= i < |keys| && keys[i] == k;
          var idx := Kept(keys, (k: string) => k in names);
          var m :| 0 <= m < |idx| && idx[m] == i;
        }
      }
      Ok(Without(keys, (k: string) => k in names))
    else Err(MissingColumn)
  }

  /** The generic name astropy gives column `j` of a header-less file. */
  function ColKey(j: nat): string
  {
    "col" + IntStr(j)
  }

  lemma ColKeyInjective(a: nat, b: nat)
    requires ColKey(a) == ColKey(b)
    ensures a == b
  {
    assert IntStr(a) == ColKey(a)[3..];
    IntStrInjective(a, b);
  }

  /** The generic names `col{lo}` up to `col{hi - 1}`. */
  function GenericKeys(lo: nat, hi: nat): (r: seq<string>)
    ensures |r| == if lo <= hi then hi - lo else 0
    ensures forall i :: 0 <= i < |r| ==> r[i] == ColKey(lo + i)
  {
    if lo <= hi then seq(hi - lo, i requires 0 <= i < hi - lo => ColKey(lo + i)) else []
  }

  /** A name that cannot clash with a generic one. */
  predicate Specific(name: string)
  {
    !StartsWith(name, "col")
  }

  lemma SpecificNotGeneric(names: seq<string>, lo: nat, hi: nat)
    requires forall i :: 0 <= i < |names| ==> Specific(names[i])
    ensures forall n :: n in names ==> n !in GenericKeys(lo, hi)
    ensures forall m :: ColKey(m) !in names
  {
    forall m
      ensures StartsWith(ColKey(m), "col")
    {
      assert ColKey(m)[..3] == "col";
    }
  }

  /** After `j` renames, the first `j` columns carry their names and the
      rest are still generic. */
  predicate RenamedUpTo(keys: seq<string>, names: seq<string>, width: nat, j: nat)
  {
    j <= |names| && j <= width && keys == names[..j] + GenericKeys(j + 1, width + 1)
  }

  /** A rename onto a fresh name, while `col{j+1}` still exists, names
      one more column. */
  lemma RenameFresh(keys: seq<string>, names: seq<string>, width: nat, j: nat)
    requires forall i :: 0 <= i < |names| ==> Specific(names[i])
    requires RenamedUpTo(keys, names, width, j) && j < |names| && j < width
    requires names[j] !in names[..j]
    ensures Rename(keys, ColKey(j + 1), names[j]) == Ok(names[..j + 1] + GenericKeys(j + 2, width + 1))
  {
    var generic := ColKey(j + 1);
    SpecificNotGeneric(names, j + 1, width + 1);
    assert names[j] in names;
    assert generic !in names[..j] by {
      SpecificNotGeneric(names[..j], 0, 0);
    }
    assert keys[j] == generic;
    assert Position(keys, generic) == j;
    assert names[j] !in keys;
    RenameSlot(names, width, j);
  }

  /** Naming the first generic column of the renamed-up-to-`j` list. */
  lemma RenameSlot(names: seq<string>, width: nat, j: nat)
    requires j < |names| && j < width
    ensures (names[..j] + GenericKeys(j + 1, width + 1))[j := names[j]] ==
      names[..j + 1] + GenericKeys(j + 2, width + 1)
  {
    var keys := names[..j] + GenericKeys(j + 1, width + 1);
    var renamed, target := keys[j := names[j]], names[..j + 1] + GenericKeys(j + 2, width + 1);
    forall i | 0 <= i < |target|
      ensures renamed[i] == target[i]
    {
      if i < j {
        assert keys[i] == names[..j][i] && target[i] == names[..j + 1][i];
      } else if i > j {
        var m := i - j - 1;
        assert keys[i] == GenericKeys(j + 1, width + 1)[m + 1];
        assert target[i] == GenericKeys(j + 2, width + 1)[m];
      }
    }
    assert renamed == target;
  }

  /** One rename of the loop: `col{j+1}` exists exactly when the file is
      wide enough, and the new name is taken exactly when it came earlier
      in the list. */
  lemma RenameStep(keys: seq<string>, names: seq<string>, width: nat, j: nat)
    requires forall i :: 0 <= i < |names| ==> Specific(names[i])
    requires RenamedUpTo(keys, names, width, j) && j < |names|
    ensures Rename(keys, ColKey(j + 1), names[j]).Ok? <==> j < width && names[j] !in names[..j]
    ensures Rename(keys, ColKey(j + 1), names[j]).Ok? ==>
      RenamedUpTo(Rename(keys, ColKey(j + 1), names[j]).value, names, width, j + 1)
  {
    var generic := ColKey(j + 1);
    if j < width && names[j] !in names[..j] {
      RenameFresh(keys, names, width, j);
    } else if j < width {
      assert keys[j] == generic;
      assert names[j] != generic by {
        SpecificNotGeneric([names[j]], 0, 0);
      }
    } else {
      assert keys == names[..j];
      SpecificNotGeneric(names[..j], 0, 0);
    }
  }

  lemma DistinctExtend(names: seq<string>, j: nat)
    requires j < |names| && Distinct(names[..j]) && names[j] !in names[..j]
    ensures Distinct(names[..j + 1])
  {
    var p := names[..j + 1];
    forall a, b | 0 <= a < b < j + 1
      ensures p[a] != p[b]
    {
      if b < j {
        assert names[..j][a] == p[a] && names[..j][b] == p[b];
      } else {
        assert names[..j][a] == p[a];
      }
    }
  }

  lemma DuplicateFound(names: seq<string>, j: nat)
    requires j < |names| && names[j] in names[..j]
    ensures !Distinct(names)
  {
    var i :| 0 <= i < j && names[..j][i] == names[j];
    assert names[i] == names[j];
  }

  /** `for j, newname in enumerate(colnames, 1): rename_column(f"col{j}", newname)`
      on a file of `width` columns: it succeeds exactly when the file has a
      column for every name and the names are unique, and then the first
      columns carry the names in order. */
  method RenameGeneric(width: nat, names: seq<string>) returns (r: Result<seq<string>>)
    requires forall i :: 0 <= i < |names| ==> Specific(names[i])
    ensures r.Ok? <==> |names| <= width && Distinct(names)
    ensures r.Ok? ==> r.value == names + GenericKeys(|names| + 1, width + 1)
  {
    var keys := GenericKeys(1, width + 1);
    var j := 0;
    assert RenamedUpTo(keys, names, width, 0);
    while j < |names|
      invariant RenamedUpTo(keys, names, width, j) && Distinct(names[..j])
    {
      RenameStep(keys, names, width, j);
      var next := Rename(keys, ColKey(j + 1), names[j]);
      if next.Err? {
        if j < width {
          DuplicateFound(names, j);
        }
        return Err(next.error);
      }
      DistinctExtend(names, j);
      keys := next.value;
      j := j + 1;
    }
    assert names[..j] == names;
    r := Ok(keys);
  }

  /** `R_rs_{w:.1f}` for a SeaSWIR wavelength of `tenths / 10` nm. */
  function RrsKey(tenths: nat): string
  {
    Key("R_rs", OneDecimal(tenths))
  }

  lemma KeyInjective(quantity: string, a: string, b: string)
    requires Key(quantity, a) == Key(quantity, b)
    ensures a == b
  {
    var n := |quantity| + 1;
    assert a == Key(quantity, a)[n..];
    assert b == Key(quantity, b)[n..];
  }

  /** The new names of the R_rs columns are unique, one per wavelength. */
  lemma RrsKeysDistinct(s: nat, t: nat)
    requires RrsKey(s) == RrsKey(t)
    ensures s == t
  {
    KeyInjective("R_rs", OneDecimal(s), OneDecimal(t));
    OneDecimalInjective(s, t);
  }

  /** The header SeaSWIR's Ed file uses for a wavelength, and the key the
      column is renamed to: whole wavelengths appear without decimals in the
      header, but the new key always has one. Both read back as the same
      wavelength. */
  function EdHeader(tenths: nat): string
  {
    "Ed [mW/m**2/nm] (" + HeaderWavelength(tenths) + " nm)"
  }

  function EdKey(tenths: nat): string
  {
    Key("Ed", OneDecimal(tenths))
  }

  lemma EdKeyWavelength(tenths: nat)
    ensures ParseDecimal(HeaderWavelength(tenths)) == Some(tenths as real / 10.0)
    ensures KeyWavelength(EdKey(tenths)) == Some(tenths as real / 10.0)
  {
    ParseHeaderWavelength(tenths);
    KeyWavelengthOneDecimal("Ed", tenths);
  }

  /** HE302 for one of its keys: `key_1` becomes `key`, `key_2` goes. */
  function MergeCopies(keys: seq<string>, base: string): Result<seq<string>>
  {
    var renamed := Rename(keys, Key(base, "1"), base);
    if renamed.Err? then renamed else RemoveColumns(renamed.value, [Key(base, "2")])
  }

  lemma SuffixesDiffer(a: string, b: string)
    ensures Key(a, "1") != Key(b, "2")
    ensures Key(a, "1") == Key(b, "1") ==> a == b
    ensures Key(a, "2") == Key(b, "2") ==> a == b
    ensures Key(a, "1") != a && Key(a, "2") != a
  {
    assert Key(a, "1")[|Key(a, "1")| - 1] == '1';
    assert Key(b, "2")[|Key(b, "2")| - 1] == '2';
    SuffixCancel(a, b, "1");
    SuffixCancel(a, b, "2");
  }

  lemma SuffixCancel(a: string, b: string, suffix: string)
    ensures Key(a, suffix) == Key(b, suffix) ==> a == b
  {
    if Key(a, suffix) == Key(b, suffix) {
      assert |a| == |b|;
      assert a == Key(a, suffix)[..|a|];
      assert b == Key(b, suffix)[..|b|];
    }
  }

  /** With both copies present and the plain name free, the merge succeeds:
      the plain name replaces the `_1` column, the `_2` column is gone, and
      nothing else changes. */
  lemma MergeCopiesSucceeds(keys: seq<string>, base: string)
    requires Distinct(keys) && Key(base, "1") in keys && Key(base, "2") in keys && base !in keys
    ensures MergeCopies(keys, base).Ok?
    ensures var r := MergeCopies(keys, base).value;
      Distinct(r) && |r| == |keys| - 1 &&
      forall k :: k in r <==> k == base || (k in keys && k != Key(base, "1") && k != Key(base, "2"))
  {
    SuffixesDiffer(base, base);
    var one, two := Key(base, "1"), Key(base, "2");
    RenameKeepsDistinct(keys, one, base);
    var renamed := Rename(keys, one, base).value;
    assert two in renamed;
    WithoutDistinct(renamed, two);
  }

  /** Removing one name from unique names loses exactly one entry and
      keeps them unique. */
  lemma {:induction false} WithoutDistinct(keys: seq<string>, name: string)
    requires Distinct(keys) && name in keys
    ensures var r := Without(keys, (k: string) => k in [name]);
      Distinct(r) && |r| == |keys| - 1
  {
    var n := |keys| - 1;
    var pre := keys[..n];
    var drop := (k: string) => k in [name];
    assert Distinct(pre);
    WithoutKeepsDistinct(pre, drop);
    if keys[n] == name {
      assert name !in pre;
      WithoutNothing(pre, drop);
    } else {
      assert name in pre;
      WithoutDistinct(pre, name);
      assert keys[n] !in Without(pre, drop);
    }
  }

  lemma {:induction false} WithoutKeepsDistinct(keys: seq<string>, drop: string -> bool)
    requires Distinct(keys)
    ensures Distinct(Without(keys, drop))
  {
    if |keys| > 0 {
      var n := |keys| - 1;
      WithoutKeepsDistinct(keys[..n], drop);
      assert keys[n] !in keys[..n];
    }
  }

  /** HE302's loop over its keys, one merge after the other. */
  function MergeAll(keys: seq<string>, bases: seq<string>): (r: Result<seq<string>>)
    decreases |bases|
  {
    if |bases| == 0 then Ok(keys)
    else
      var merged := MergeCopies(keys, bases[0]);
      if merged.Err? then merged else MergeAll(merged.value, bases[1..])
  }

  /** The keys the HE302 merge applies to. */
  function He302Bases(): seq<string>
  {
    ["Date/Time", "Latitude", "Longitude", "Altitude [m]"]
  }

  /** Merging one base leaves another base's copies in place and its plain
      name free. */
  lemma OtherBaseUnaffected(keys: seq<string>, b0: string, b: string)
    requires Distinct(keys) && Key(b0, "1") in keys && Key(b0, "2") in keys && b0 !in keys
    requires Key(b, "1") in keys && Key(b, "2") in keys && b !in keys && b != b0
    ensures MergeCopies(keys, b0).Ok?
    ensures var merged := MergeCopies(keys, b0).value;
      Key(b, "1") in merged && Key(b, "2") in merged && b !in merged
  {
    MergeCopiesSucceeds(keys, b0);
    SuffixesDiffer(b, b0);
    SuffixesDiffer(b0, b);
  }

  /** When every base has both copies and no plain column yet, the merges
      all succeed: each base is a column, no copy is left, one column per
      base fewer, names still unique. */
  lemma {:induction false} MergeAllSucceeds(keys: seq<string>, bases: seq<string>)
    requires Distinct(keys) && Distinct(bases)
    requires forall b :: b in bases ==> Key(b, "1") in keys && Key(b, "2") in keys && b !in keys
    ensures MergeAll(keys, bases).Ok?
    ensures var r := MergeAll(keys, bases).value;
      Distinct(r) && |r| == |keys| - |bases| &&
      forall b :: b in bases ==> b in r && Key(b, "1") !in r && Key(b, "2") !in r
    decreases |bases|
  {
    if |bases| > 0 {
      var b0 := bases[0];
      MergeCopiesSucceeds(keys, b0);
      var merged := MergeCopies(keys, b0).value;
      var rest := bases[1..];
      forall b | b in rest
        ensures Key(b, "1") in merged && Key(b, "2") in merged && b !in merged
      {
        OtherBaseUnaffected(keys, b0, b);
      }
      assert Distinct(rest);
      MergeAllSucceeds(merged, rest);
      forall b | b in rest
        ensures b0 != Key(b, "1") && b0 != Key(b, "2")
      {
        assert Key(b, "1") in keys && Key(b, "2") in keys;
      }
      BaseSurvivesMerges(merged, rest, b0);
      CopiesStayGone(merged, rest, Key(b0, "1"));
      CopiesStayGone(merged, rest, Key(b0, "2"));
    }
  }

  /** A name absent before the remaining merges and not one of their bases
      stays absent. */
  lemma {:induction false} CopiesStayGone(keys: seq<string>, bases: seq<string>, name: string)
    requires MergeAll(keys, bases).Ok? && name !in keys && name !in bases
    ensures name !in MergeAll(keys, bases).value
    decreases |bases|
  {
    if |bases| > 0 {
      var b0 := bases[0];
      var renamed := Rename(keys, Key(b0, "1"), b0);
      RenameMembers(keys, Key(b0, "1"), b0);
      assert name !in renamed.value;
      assert name !in bases[1..];
      CopiesStayGone(MergeCopies(keys, b0).value, bases[1..], name);
    }
  }

  /** Renaming only swaps the one name. */
  lemma RenameMembers(keys: seq<string>, from: string, to: string)
    requires Rename(keys, from, to).Ok?
    ensures forall k :: k in Rename(keys, from, to).value ==> k in keys || k == to
  {
    var r := Rename(keys, from, to).value;
    forall k | k in r
      ensures k in keys || k == to
    {
      var i :| 0 <= i < |r| && r[i] == k;
      if i != Position(keys, from) {
        assert keys[i] == k;
      }
    }
  }

  /** A column named by no merge survives the remaining merges. */
  lemma {:induction false} BaseSurvivesMerges(keys: seq<string>, bases: seq<string>, name: string)
    requires MergeAll(keys, bases).Ok? && name in keys
    requires forall b :: b in bases ==> name != Key(b, "1") && name != Key(b, "2")
    ensures name in MergeAll(keys, bases).value
    decreases |bases|
  {
    if |bases| > 0 {
      var b0 := bases[0];
      var renamed := Rename(keys, Key(b0, "1"), b0);
      var i :| 0 <= i < |keys| && keys[i] == name;
      assert renamed.value[i] == name;
      BaseSurvivesMerges(MergeCopies(keys, b0).value, bases[1..], name);
    }
  }
}
