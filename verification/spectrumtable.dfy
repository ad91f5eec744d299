/** `split_spectrum`: pull one quantity's spectra out of a table whose
    columns are keyed `<quantity>_<wavelength>`. */
module SpectrumTable {
  import opened Numbers
  import opened Text
  import opened Selection

  /** One table column: its key and one value per observation. */
  datatype Column = Column(key: string, data: seq<real>)

  /** A table is a sequence of columns in key order, all with one value per row. */
  predicate Rectangular(table: seq<Column>, rows: nat)
  {
    forall col :: col in table ==> |col.data| == rows
  }

  /** The test `quantity in key`, as a drop test for the columns that fail it. */
  function Irrelevant(quantity: string): Column -> bool
  {
    (col: Column) => !Contains(col.key, quantity)
  }

  /** The columns whose key contains `quantity`, in table order. */
  function Relevant(table: seq<Column>, quantity: string): (r: seq<Column>)
    ensures |r| <= |table|
    ensures forall col :: col in r ==> col in table && Contains(col.key, quantity)
  {
    Without(table, Irrelevant(quantity))
  }

  lemma RelevantRectangular(table: seq<Column>, rows: nat, quantity: string)
    requires Rectangular(table, rows)
    ensures Rectangular(Relevant(table, quantity), rows)
  {
    var r := Relevant(table, quantity);
    forall c | 0 <= c < |r|
      ensures |r[c].data| == rows
    {
      assert r[c] in table;
    }
  }

  /** The relevant columns are exactly the table's columns with `quantity` in
      their key, at ascending table positions. */
  lemma RelevantInOrder(table: seq<Column>, quantity: string)
    ensures var idx := Kept(table, Irrelevant(quantity));
      Relevant(table, quantity) == Select(table, idx) &&
      (forall k, l :: 0 <= k < l < |idx| ==> idx[k] < idx[l]) &&
      (forall i :: 0 <= i < |table| ==> (i in idx <==> Contains(table[i].key, quantity)))
  {
    KeptElements(table, Irrelevant(quantity));
    KeptAscending(table, Irrelevant(quantity));
    KeptExactly(table, Irrelevant(quantity));
  }

  /** Every entry, when all are present; otherwise nothing. */
  function AllSome(xs: seq<Option<real>>): (r: Option<seq<real>>)
    ensures r.Some? <==> forall c :: 0 <= c < |xs| ==> xs[c].Some?
    ensures r.Some? ==> |r.value| == |xs|
    ensures r.Some? ==> forall c :: 0 <= c < |xs| ==> xs[c] == Some(r.value[c])
  {
    if |xs| == 0 then Some([])
    else
      var n := |xs| - 1;
      var front := AllSome(xs[..n]);
      if front.None? then None
      else if xs[n].None? then None
      else Some(front.value + [xs[n].value])
  }

  /** The wavelength each column's key names, if it names one. */
  function KeyWavelengths(cols: seq<Column>): (r: seq<Option<real>>)
    ensures |r| == |cols|
    ensures forall c :: 0 <= c < |cols| ==> r[c] == KeyWavelength(cols[c].key)
  {
    seq(|cols|, c requires 0 <= c < |cols| => KeyWavelength(cols[c].key))
  }

  /** `np.array([col.data for col in cols]).T`: one row per observation and
      one column per relevant key; no columns give an empty array. */
  function Transpose(cols: seq<Column>, rows: nat): (r: seq<seq<real>>)
    requires Rectangular(cols, rows)
    ensures |r| == if |cols| == 0 then 0 else rows
    ensures forall i :: 0 <= i < |r| ==> |r[i]| == |cols|
    ensures forall i, c :: 0 <= i < |r| && 0 <= c < |cols| ==> r[i][c] == cols[c].data[i]
  {
    if |cols| == 0 then []
    else seq(rows, i requires 0 <= i < rows => seq(|cols|, c requires 0 <= c < |cols| => cols[c].data[i]))
  }

  /** The wavelength of every relevant column and the spectra as rows. */
  datatype Split = Split(wavelengths: seq<real>, spectra: seq<seq<real>>)

  /** `split_spectrum(table, quantity)`. */
  function SplitSpectrum(table: seq<Column>, rows: nat, quantity: string): (r: Result<Split>)
    requires Rectangular(table, rows)
    ensures r.Err? <==> exists col :: col in Relevant(table, quantity) && KeyWavelength(col.key).None?
    ensures r.Err? ==> r.error == Unparsable
    ensures r.Ok? ==> var cols := Relevant(table, quantity);
      |r.value.wavelengths| == |cols| &&
      (forall c :: 0 <= c < |cols| ==> KeyWavelength(cols[c].key) == Some(r.value.wavelengths[c])) &&
      r.value.spectra == Transpose(cols, rows)
  {
    var cols := Relevant(table, quantity);
    RelevantRectangular(table, rows, quantity);
    AllNamed(cols);
    var wavelengths := AllSome(KeyWavelengths(cols));
    if wavelengths.None? then Err(Unparsable)
    else
      Ok(Split(wavelengths.value, Transpose(cols, rows)))
  }

  /** Every column's key names a wavelength exactly when none fails to. */
  lemma AllNamed(cols: seq<Column>)
    ensures AllSome(KeyWavelengths(cols)).None? <==> exists col :: col in cols && KeyWavelength(col.key).None?
  {
    var named := KeyWavelengths(cols);
    if AllSome(named).None? {
      assert !forall c :: 0 <= c < |named| ==> named[c].Some?;
      var c :| 0 <= c < |named| && named[c].None?;
      assert named[c] == KeyWavelength(cols[c].key);
      assert cols[c] in cols;
    } else {
      forall col | col in cols
        ensures KeyWavelength(col.key).Some?
      {
        var c :| 0 <= c < |cols| && cols[c] == col;
        assert named[c] == KeyWavelength(col.key);
        assert named[c].Some?;
      }
    }
  }

  /** A column is relevant exactly when it is in the table and its key
      contains `quantity`. */
  lemma RelevantMembers(table: seq<Column>, quantity: string)
    ensures forall col :: col in Relevant(table, quantity) <==> col in table && Contains(col.key, quantity)
  {
    var idx := Kept(table, Irrelevant(quantity));
    RelevantInOrder(table, quantity);
    forall col | col in table && Contains(col.key, quantity)
      ensures col in Relevant(table, quantity)
    {
      var i :| 0 <= i < |table| && table[i] == col;
      assert i in idx;
      var k :| 0 <= k < |idx| && idx[k] == i;
      assert Relevant(table, quantity)[k] == col;
    }
  }

  /** `split_spectrum` raises exactly when some key containing `quantity`
      does not end in a number. */
  lemma SplitFailsExactly(table: seq<Column>, rows: nat, quantity: string)
    requires Rectangular(table, rows)
    ensures SplitSpectrum(table, rows, quantity).Err? <==>
      exists c :: 0 <= c < |table| && Contains(table[c].key, quantity) && KeyWavelength(table[c].key).None?
  {
    RelevantMembers(table, quantity);
    if exists c :: 0 <= c < |table| && Contains(table[c].key, quantity) && KeyWavelength(table[c].key).None? {
      var c :| 0 <= c < |table| && Contains(table[c].key, quantity) && KeyWavelength(table[c].key).None?;
      assert table[c] in Relevant(table, quantity);
    }
  }

  /** The columns a conversion script writes for one quantity on a grid of
      wavelengths given in tenths of a nanometre. */
  function GridColumns(quantity: string, tenths: seq<nat>, data: seq<seq<real>>): (t: seq<Column>)
    requires |data| == |tenths|
    ensures |t| == |tenths|
    ensures forall k :: 0 <= k < |t| ==> t[k] == Column(Key(quantity, OneDecimal(tenths[k])), data[k])
  {
    seq(|tenths|, k requires 0 <= k < |tenths| => Column(Key(quantity, OneDecimal(tenths[k])), data[k]))
  }

  lemma GridKey(quantity: string, tenths: nat)
    ensures Contains(Key(quantity, OneDecimal(tenths)), quantity)
    ensures KeyWavelength(Key(quantity, OneDecimal(tenths))) == Some(tenths as real / 10.0)
  {
    var w := OneDecimal(tenths);
    assert Key(quantity, w) == [] + quantity + ("_" + w);
    ContainsInside([], quantity, "_" + w);
    KeyWavelengthOneDecimal(quantity, tenths);
  }

  /** `GridKey` for a key known only by its value. */
  lemma KeyOfGrid(key: string, quantity: string, tenths: nat)
    requires key == Key(quantity, OneDecimal(tenths))
    ensures Contains(key, quantity) && KeyWavelength(key) == Some(tenths as real / 10.0)
  {
    GridKey(quantity, tenths);
  }

  /** ...and for a wavelength known only by its value. The steps are kept
      apart so that the real arithmetic never meets the unfolded parser. */
  lemma KeyOfGridAt(key: string, quantity: string, tenths: nat, w: real)
    requires key == Key(quantity, OneDecimal(tenths)) && w == tenths as real / 10.0
    ensures Contains(key, quantity) && KeyWavelength(key) == Some(w)
  {
    KeyOfGrid(key, quantity, tenths);
    SameValue(KeyWavelength(key), tenths as real / 10.0, w);
  }

  lemma NothingIrrelevant(t: seq<Column>, quantity: string)
    requires forall k :: 0 <= k < |t| ==> Contains(t[k].key, quantity)
    ensures Relevant(t, quantity) == t
  {
    WithoutNothing(t, Irrelevant(quantity));
  }

  /** The grid wavelengths in nanometres. */
  function GridWavelengths(tenths: seq<nat>): (r: seq<real>)
    ensures |r| == |tenths|
    ensures forall k :: 0 <= k < |tenths| ==> r[k] == tenths[k] as real / 10.0
  {
    seq(|tenths|, k requires 0 <= k < |tenths| => tenths[k] as real / 10.0)
  }

  /** The `k`-th column a script wrote for `quantity` has `quantity` in its
      key and names its wavelength... */
  lemma GridColumnKeyed(quantity: string, tenths: seq<nat>, data: seq<seq<real>>, k: nat)
    requires |data| == |tenths| && k < |tenths|
    ensures Contains(GridColumns(quantity, tenths, data)[k].key, quantity)
    ensures KeyWavelength(GridColumns(quantity, tenths, data)[k].key) == Some(GridWavelengths(tenths)[k])
  {
    KeyOfGridAt(GridColumns(quantity, tenths, data)[k].key, quantity, tenths[k], GridWavelengths(tenths)[k]);
  }

  /** ...and so does every one of them. */
  lemma GridColumnsKeyed(quantity: string, tenths: seq<nat>, data: seq<seq<real>>)
    requires |data| == |tenths|
    ensures var t := GridColumns(quantity, tenths, data);
      forall k :: 0 <= k < |t| ==>
        Contains(t[k].key, quantity) && KeyWavelength(t[k].key) == Some(GridWavelengths(tenths)[k])
  {
    forall k | 0 <= k < |tenths|
      ensures var t := GridColumns(quantity, tenths, data);
        Contains(t[k].key, quantity) && KeyWavelength(t[k].key) == Some(GridWavelengths(tenths)[k])
    {
      GridColumnKeyed(quantity, tenths, data, k);
    }
  }

  /** A table whose every key contains `quantity` and names a wavelength
      splits without error into those wavelengths and all of its columns. */
  lemma SplitAllNamed(table: seq<Column>, rows: nat, quantity: string, wavelengths: seq<real>)
    requires Rectangular(table, rows) && |wavelengths| == |table|
    requires forall k :: 0 <= k < |table| ==>
      Contains(table[k].key, quantity) && KeyWavelength(table[k].key) == Some(wavelengths[k])
    ensures SplitSpectrum(table, rows, quantity) == Ok(Split(wavelengths, Transpose(table, rows)))
  {
    NothingIrrelevant(table, quantity);
    NamedMembers(table, wavelengths);
    var s := SplitSpectrum(table, rows, quantity).value;
    assert s.wavelengths == wavelengths;
  }

  lemma NamedMembers(table: seq<Column>, wavelengths: seq<real>)
    requires |wavelengths| == |table|
    requires forall k :: 0 <= k < |table| ==> KeyWavelength(table[k].key) == Some(wavelengths[k])
    ensures forall col :: col in table ==> KeyWavelength(col.key).Some?
  {
    forall col | col in table
      ensures KeyWavelength(col.key).Some?
    {
      var k :| 0 <= k < |table| && table[k] == col;
    }
  }

  lemma GridRectangular(quantity: string, tenths: seq<nat>, data: seq<seq<real>>, rows: nat)
    requires |data| == |tenths|
    requires forall k :: 0 <= k < |data| ==> |data[k]| == rows
    ensures Rectangular(GridColumns(quantity, tenths, data), rows)
  {
    var t := GridColumns(quantity, tenths, data);
    forall col | col in t
      ensures |col.data| == rows
    {
      var k :| 0 <= k < |t| && t[k] == col;
    }
  }

  /** `s` lists the wavelengths `tenths` (in tenths of a nanometre) and
      holds in row `i`, column `k` the `i`-th value written for wavelength `k`. */
  predicate Recovers(s: Split, tenths: seq<nat>, data: seq<seq<real>>, rows: nat)
  {
    |s.wavelengths| == |tenths| == |data| && |s.spectra| == rows &&
    (forall k :: 0 <= k < |tenths| ==> s.wavelengths[k] == tenths[k] as real / 10.0) &&
    (forall i :: 0 <= i < rows ==> |s.spectra[i]| == |data|) &&
    (forall k :: 0 <= k < |data| ==> |data[k]| == rows) &&
    forall i, k :: 0 <= i < rows && 0 <= k < |data| ==> s.spectra[i][k] == data[k][i]
  }

  /** Splitting the columns a script wrote succeeds, with the grid's
      wavelengths and every column. */
  lemma SplitGridOk(quantity: string, tenths: seq<nat>, data: seq<seq<real>>, rows: nat)
    requires |data| == |tenths|
    requires forall k :: 0 <= k < |data| ==> |data[k]| == rows
    ensures Rectangular(GridColumns(quantity, tenths, data), rows)
    ensures var t := GridColumns(quantity, tenths, data);
      SplitSpectrum(t, rows, quantity) == Ok(Split(GridWavelengths(tenths), Transpose(t, rows)))
  {
    var t := GridColumns(quantity, tenths, data);
    GridColumnsKeyed(quantity, tenths, data);
    GridRectangular(quantity, tenths, data, rows);
    SplitAllNamed(t, rows, quantity, GridWavelengths(tenths));
  }

  /** Reading back the columns a script wrote recovers the grid and the data. */
  lemma SplitGridColumns(quantity: string, tenths: seq<nat>, data: seq<seq<real>>, rows: nat)
    requires |data| == |tenths| >= 1
    requires forall k :: 0 <= k < |data| ==> |data[k]| == rows
    ensures Rectangular(GridColumns(quantity, tenths, data), rows)
    ensures SplitSpectrum(GridColumns(quantity, tenths, data), rows, quantity).Ok?
    ensures Recovers(SplitSpectrum(GridColumns(quantity, tenths, data), rows, quantity).value, tenths, data, rows)
  {
    var t := GridColumns(quantity, tenths, data);
    SplitGridOk(quantity, tenths, data, rows);
    var s := SplitSpectrum(t, rows, quantity).value;
    assert s == Split(GridWavelengths(tenths), Transpose(t, rows));
    forall i, k | 0 <= i < rows && 0 <= k < |data|
      ensures s.spectra[i][k] == data[k][i]
    {
      assert t[k].data == data[k];
    }
  }
}
