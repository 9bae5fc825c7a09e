/**
 * The chart uploader's input parsing: comma-separated labels and values
 * become chart data when their counts agree, each datum coloured from a
 * fixed palette of six colours in turn.
 */
module StatChart {
  import opened Wrappers
  import opened JsText

  /** One bar or slice: its label (`label` in the source), value and colour. */
  datatype ChartDatum = ChartDatum(text: string, value: Number, color: string)

  /** The outcome of parsing: an error text (empty when there is none) and the data to draw. */
  datatype ChartParse = ChartParse(error: string, data: seq<ChartDatum>)

  const Colors: seq<string> := ["#22d3ee", "#60a5fa", "#a78bfa", "#f472b6", "#fb923c", "#a3e635"]
  const MismatchMessage: string := "Number of labels and values must match."

  /** The positions `j` with `keep[j]`, in increasing order: the indices a filter keeps. */
  function Kept(keep: seq<bool>): (idx: seq<nat>)
    ensures forall k :: 0 <= k < |idx| ==> idx[k] < |keep| && keep[idx[k]]
    ensures forall k, m :: 0 <= k < m < |idx| ==> idx[k] < idx[m]
    ensures forall j :: 0 <= j < |keep| && keep[j] ==> j in idx
  {
    if keep == [] then []
    else
      var front := Kept(keep[..|keep| - 1]);
      if keep[|keep| - 1] then front + [|keep| - 1] else front
  }

  /** When every position is kept, the kept indices are all of them. */
  lemma {:induction false} KeptAll(keep: seq<bool>)
    requires forall j :: 0 <= j < |keep| ==> keep[j]
    ensures |Kept(keep)| == |keep|
    ensures forall k :: 0 <= k < |keep| ==> Kept(keep)[k] == k
  {
    if keep != [] {
      KeptAll(keep[..|keep| - 1]);
    }
  }

  /** Which texts are not empty. */
  function NonEmpty(texts: seq<string>): seq<bool> {
    seq(|texts|, j requires 0 <= j < |texts| => texts[j] != [])
  }

  /** Which pieces have a non-empty trim. */
  function NonBlank(pieces: seq<string>): seq<bool> {
    seq(|pieces|, j requires 0 <= j < |pieces| => Trim(pieces[j]) != [])
  }

  /** Which pieces `parseFloat` reads a number from once trimmed. */
  function Numeric(pieces: seq<string>): seq<bool> {
    seq(|pieces|, j requires 0 <= j < |pieces| => ParseFloat(Trim(pieces[j])).Some?)
  }

  /** `filter(l => l)` on texts: the non-empty ones, in order. */
  function DropEmpty(texts: seq<string>): (r: seq<string>)
    ensures var idx := Kept(NonEmpty(texts));
      && |r| == |idx|
      && forall k :: 0 <= k < |r| ==> r[k] == texts[idx[k]]
  {
    if texts == [] then []
    else
      var n := |texts| - 1;
      assert NonEmpty(texts[..n]) == NonEmpty(texts)[..n];
      var front := DropEmpty(texts[..n]);
      if texts[n] == [] then front else front + [texts[n]]
  }

  /** The trimmed pieces that are not empty, in order. */
  function NonBlankTrimmed(pieces: seq<string>): (r: seq<string>)
    ensures var idx := Kept(NonBlank(pieces));
      && |r| == |idx|
      && forall k :: 0 <= k < |r| ==> r[k] == Trim(pieces[idx[k]])
    ensures forall k :: 0 <= k < |r| ==> r[k] != [] && !IsSpace(r[k][0]) && !IsSpace(r[k][|r[k]| - 1])
  {
    var trimmed := seq(|pieces|, j requires 0 <= j < |pieces| => Trim(pieces[j]));
    assert NonEmpty(trimmed) == NonBlank(pieces);
    DropEmpty(trimmed)
  }

  /** Pieces none of which is blank keep their count: each label is its trimmed piece. */
  lemma NonBlankTrimmedAll(pieces: seq<string>)
    requires forall j :: 0 <= j < |pieces| ==> !AllSpace(pieces[j])
    ensures |NonBlankTrimmed(pieces)| == |pieces|
    ensures forall j :: 0 <= j < |pieces| ==> NonBlankTrimmed(pieces)[j] == Trim(pieces[j])
  {
    KeptAll(NonBlank(pieces));
  }

  /** The numbers `parseFloat` finds in the trimmed pieces, `NaN`s dropped, in order. */
  function ParsedNumbers(pieces: seq<string>): (r: seq<Number>)
    ensures var idx := Kept(Numeric(pieces));
      && |r| == |idx|
      && forall k :: 0 <= k < |r| ==> Some(r[k]) == ParseFloat(Trim(pieces[idx[k]]))
  {
    if pieces == [] then []
    else
      var n := |pieces| - 1;
      assert Numeric(pieces[..n]) == Numeric(pieces)[..n];
      var front := ParsedNumbers(pieces[..n]);
      match ParseFloat(Trim(pieces[n]))
      case None => front
      case Some(v) => front + [v]
  }

  /** Pieces that all parse keep their count: each value is its piece's number. */
  lemma ParsedNumbersAll(pieces: seq<string>)
    requires forall j :: 0 <= j < |pieces| ==> ParseFloat(Trim(pieces[j])).Some?
    ensures |ParsedNumbers(pieces)| == |pieces|
    ensures forall j :: 0 <= j < |pieces| ==> Some(ParsedNumbers(pieces)[j]) == ParseFloat(Trim(pieces[j]))
  {
    KeptAll(Numeric(pieces));
  }

  /** The labels: the comma-separated pieces of the input, trimmed, blanks dropped, in order. */
  function Labels(labels: string): (r: seq<string>)
    ensures var pieces := Split(labels, ',');
      var idx := Kept(NonBlank(pieces));
      && Join(pieces, ',') == labels
      && |r| == |idx|
      && forall k :: 0 <= k < |r| ==> ',' !in pieces[idx[k]] && r[k] == Trim(pieces[idx[k]])
  {
    NonBlankTrimmed(Split(labels, ','))
  }

  /** The values: the numbers read from the comma-separated pieces of the input, `NaN`s dropped, in order. */
  function Values(values: string): (r: seq<Number>)
    ensures var pieces := Split(values, ',');
      var idx := Kept(Numeric(pieces));
      && Join(pieces, ',') == values
      && |r| == |idx|
      && forall k :: 0 <= k < |r| ==> ',' !in pieces[idx[k]] && Some(r[k]) == ParseFloat(Trim(pieces[idx[k]]))
  {
    ParsedNumbers(Split(values, ','))
  }

  /** The data for labels and values of equal count: datum `i` pairs them and takes colour `i mod 6`. */
  function Pair(labels: seq<string>, values: seq<Number>): (data: seq<ChartDatum>)
    requires |labels| == |values|
  {
    seq(|labels|, i requires 0 <= i < |labels| => ChartDatum(labels[i], values[i], Colors[i % |Colors|]))
  }

  /**
   * The parse effect: no labels and no values give no error and no data;
   * counts that differ give the mismatch error and no data; otherwise
   * there is no error and one datum per label.
   */
  function ParseChart(labels: string, values: string): (r: ChartParse)
    ensures var ls, vs := Labels(labels), Values(values);
      && (|ls| == 0 && |vs| == 0 ==> r == ChartParse("", []))
      && (|ls| != |vs| ==> r == ChartParse(MismatchMessage, []))
      && (|ls| == |vs| ==>
            && r.error == ""
            && |r.data| == |ls|
            && forall i :: 0 <= i < |ls| ==> r.data[i] == ChartDatum(ls[i], vs[i], Colors[i % 6]))
  {
    var ls, vs := Labels(labels), Values(values);
    if |ls| == 0 && |vs| == 0 then ChartParse("", [])
    else if |ls| != |vs| then ChartParse(MismatchMessage, [])
    else ChartParse("", Pair(ls, vs))
  }

  /** The error is set exactly when the counts differ, and data is only ever drawn without one. */
  lemma ErrorIffMismatch(labels: string, values: string)
    ensures ParseChart(labels, values).error != "" <==> |Labels(labels)| != |Values(values)|
    ensures ParseChart(labels, values).data != [] ==> ParseChart(labels, values).error == ""
  {
  }

  /** Every drawn datum has a non-empty label that does not start with whitespace, and a palette colour. */
  lemma DataShape(labels: string, values: string)
    ensures var d := ParseChart(labels, values).data;
      forall i :: 0 <= i < |d| ==> d[i].text != [] && !IsSpace(d[i].text[0]) && d[i].color in Colors
  {
    var ls, vs := Labels(labels), Values(values);
    if |ls| == |vs| {
      var d := ParseChart(labels, values).data;
      forall i | 0 <= i < |d|
        ensures d[i].text != [] && !IsSpace(d[i].text[0]) && d[i].color in Colors
      {
        assert d[i].text == ls[i];
      }
    }
  }

  /** Data coloured in palette order repeat their colours six data later. */
  lemma PaletteCycles(d: seq<ChartDatum>)
    requires forall i :: 0 <= i < |d| ==> d[i].color == Colors[i % 6]
    ensures forall i :: 0 <= i && i + 6 < |d| ==> d[i].color == d[i + 6].color
  {
    forall i | 0 <= i && i + 6 < |d|
      ensures d[i].color == d[i + 6].color
    {
      assert (i + 6) % 6 == i % 6;
    }
  }

  /** Colours repeat exactly six data later. */
  lemma ColorsCycle(labels: string, values: string)
    ensures var d := ParseChart(labels, values).data;
      forall i :: 0 <= i && i + 6 < |d| ==> d[i].color == d[i + 6].color
  {
    var ls, vs := Labels(labels), Values(values);
    if |ls| == |vs| {
      PaletteCycles(ParseChart(labels, values).data);
    }
  }

  /**
   * Labels and values whose pieces are all non-blank and all numeric, with
   * as many of one as of the other, are drawn piece by piece.
   */
  lemma WellFormedInput(labels: string, values: string)
    requires var lp, vp := Split(labels, ','), Split(values, ',');
      && |lp| == |vp|
      && (forall j :: 0 <= j < |lp| ==> !AllSpace(lp[j]))
      && (forall j :: 0 <= j < |vp| ==> ParseFloat(Trim(vp[j])).Some?)
    ensures var lp, vp := Split(labels, ','), Split(values, ',');
      var r := ParseChart(labels, values);
      && r.error == "" && |r.data| == |lp|
      && forall i :: 0 <= i < |lp| ==>
        r.data[i].text == Trim(lp[i]) && Some(r.data[i].value) == ParseFloat(Trim(vp[i]))
  {
    var lp, vp := Split(labels, ','), Split(values, ',');
    NonBlankTrimmedAll(lp);
    ParsedNumbersAll(vp);
    var ls, vs := Labels(labels), Values(values);
    assert ls == NonBlankTrimmed(lp) && vs == ParsedNumbers(vp);
    var r := ParseChart(labels, values);
    forall i | 0 <= i < |lp|
      ensures r.data[i].text == Trim(lp[i]) && Some(r.data[i].value) == ParseFloat(Trim(vp[i]))
    {
      assert r.data[i] == ChartDatum(ls[i], vs[i], Colors[i % 6]);
    }
  }
}
