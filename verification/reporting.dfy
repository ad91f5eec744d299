/** The numbers `boxplot_relative` and `boxplot_absolute` report: one line
    per band with its label, the median difference and the two error bars.
    The absolute report first scales the differences by a power of ten. */
module Reporting {
  import opened Numbers
  import opened Text
  import opened Statistics

  /** One printed line, before formatting. */
  datatype ReportLine = ReportLine(band: string, summary: Summary)

  /** `[""] * n`: the labels used when none are given. */
  function DefaultLabels(n: nat): (r: seq<string>)
    ensures |r| == n
    ensures forall i :: 0 <= i < n ==> r[i] == ""
  {
    seq(n, i => "")
  }

  function LabelsOrDefault(labels: Option<seq<string>>, n: nat): (r: seq<string>)
    ensures labels.None? ==> r == DefaultLabels(n)
    ensures labels.Some? ==> r == labels.value
  {
    if labels.None? then DefaultLabels(n) else labels.value
  }

  function Min(a: nat, b: nat): nat
  {
    if a <= b then a else b
  }

  /** `zip(labels, summaries)`: pairs up to the shorter of the two. */
  function Zip(labels: seq<string>, summaries: seq<Summary>): (r: seq<ReportLine>)
    ensures |r| == Min(|labels|, |summaries|)
    ensures forall i :: 0 <= i < |r| ==> r[i].band == labels[i] && r[i].summary == summaries[i]
  {
    seq(Min(|labels|, |summaries|), i requires 0 <= i < Min(|labels|, |summaries|) =>
      ReportLine(labels[i], summaries[i]))
  }

  /** The lines `boxplot_relative` prints for rows of percentage differences. */
  function BoxplotRelative(differences: seq<seq<Number>>, labels: Option<seq<string>>): (r: seq<ReportLine>)
    ensures labels.None? ==> |r| == |differences|
    ensures labels.Some? ==> |r| == Min(|labels.value|, |differences|)
    ensures forall i :: 0 <= i < |r| ==>
      r[i].band == (if labels.None? then "" else labels.value[i]) &&
      r[i].summary == Summarise(differences[i])
  {
    Zip(LabelsOrDefault(labels, |differences|), MedianAndErrors(differences))
  }

  /** `10 ** e`, for a negative exponent too (Python then yields a float). */
  function TenTo(e: int): (r: real)
    ensures r > 0.0
  {
    if e >= 0 then Pow10(e) as real else 1.0 / Pow10(-e) as real
  }

  /** `boxplot_absolute`'s default exponent: differences in units of 10^-6 sr^-1. */
  const DefaultExponent: int := 6

  /** `differences * 10 ** e`, element by element. */
  function ScaleRows(k: real, differences: seq<seq<Number>>): (r: seq<seq<Number>>)
    ensures |r| == |differences|
    ensures forall i :: 0 <= i < |r| ==> r[i] == ScaleNumbers(k, differences[i])
  {
    seq(|differences|, i requires 0 <= i < |differences| => ScaleNumbers(k, differences[i]))
  }

  /** The lines `boxplot_absolute` prints. */
  function BoxplotAbsolute(differences: seq<seq<Number>>, labels: Option<seq<string>>, exponent: int): (r: seq<ReportLine>)
    ensures labels.None? ==> |r| == |differences|
    ensures labels.Some? ==> |r| == Min(|labels.value|, |differences|)
    ensures forall i :: 0 <= i < |r| ==>
      r[i].band == (if labels.None? then "" else labels.value[i]) &&
      r[i].summary == Summarise(ScaleRows(TenTo(exponent), differences)[i])
  {
    Zip(LabelsOrDefault(labels, |differences|), MedianAndErrors(ScaleRows(TenTo(exponent), differences)))
  }

  /** Scaling before summarising is the same as scaling the summary: the
      absolute report is the plain summary in units of `10^-exponent`. */
  lemma BoxplotAbsoluteIsScaled(differences: seq<seq<Number>>, labels: Option<seq<string>>, exponent: int)
    ensures var r := BoxplotAbsolute(differences, labels, exponent);
      forall i :: 0 <= i < |r| ==> r[i].summary == ScaleSummary(TenTo(exponent), Summarise(differences[i]))
  {
    var r := BoxplotAbsolute(differences, labels, exponent);
    var k := TenTo(exponent);
    forall i | 0 <= i < |r|
      ensures r[i].summary == ScaleSummary(k, Summarise(differences[i]))
    {
      assert r[i].summary == Summarise(ScaleRows(k, differences)[i]);
      SummariseScaled(k, differences[i]);
    }
  }

  /** By default the scale factor is a million. */
  lemma DefaultScale()
    ensures TenTo(DefaultExponent) == 1000000.0
  {
    assert Pow10(6) == 1000000;
  }

  /** Each absolute line is the relative-style summary of the unscaled row,
      multiplied by `10^exponent`, whatever the labels. */
  lemma BoxplotAbsoluteMatchesRelative(differences: seq<seq<Number>>, labels: Option<seq<string>>, exponent: int)
    ensures |BoxplotAbsolute(differences, labels, exponent)| == |BoxplotRelative(differences, labels)|
    ensures forall i :: 0 <= i < |BoxplotRelative(differences, labels)| ==>
      BoxplotAbsolute(differences, labels, exponent)[i] ==
      ReportLine(BoxplotRelative(differences, labels)[i].band,
                 ScaleSummary(TenTo(exponent), BoxplotRelative(differences, labels)[i].summary))
  {
    BoxplotAbsoluteIsScaled(differences, labels, exponent);
  }
}
