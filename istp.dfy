/** The ISTP comparison view: every country's ISTP-A + ISTP-T total, ranked from the
    highest; the first ten as "Top Rank" bars; South Korea's rank and total; and South
    Korea merged into the chart, relabelled in place when it is already among the ten
    and appended below them otherwise. */
module Istp {
  import opened Frame
  import opened Ordering

  const IstpA: string := "ISTP-A"
  const IstpT: string := "ISTP-T"

  /** How many of the best-ranked countries the chart shows. */
  const TopN: nat := 10

  /** A row of the analysis frame: a country and its ISTP total. */
  datatype Ranked = Ranked(country: string, total: real)

  function ByTotal(r: Ranked): real {
    r.total
  }

  /** The two values of the chart's Label column: 'Top Rank' and 'South Korea'. */
  datatype Label = TopRank | KoreaLabel

  /** A row of the charted frame. */
  datatype ChartRow = ChartRow(country: string, total: real, tag: Label)

  /** South Korea's position in the ranking (1-based) and its ISTP total. */
  datatype Standing = Standing(rank: nat, value: real)

  /** The view's outputs: the charted rows, South Korea's standing when it is in the
      table, and the number of countries the message compares it against (`len(df)`). */
  datatype IstpView = IstpView(chart: seq<ChartRow>, korea: Option<Standing>, countryCount: nat)

  function Min(a: nat, b: nat): nat {
    if a <= b then a else b
  }

  ghost predicate HasIstpCells(rows: seq<Row>) {
    forall i :: 0 <= i < |rows| ==> IstpA in rows[i].cells && IstpT in rows[i].cells
  }

  /** The analysis frame before sorting: each country with ISTP-A + ISTP-T. */
  function Totals(rows: seq<Row>): (ranked: seq<Ranked>)
    requires HasIstpCells(rows)
    ensures |ranked| == |rows|
    ensures forall i :: 0 <= i < |rows| ==>
      ranked[i] == Ranked(rows[i].country, rows[i].cells[IstpA] + rows[i].cells[IstpT])
  {
    seq(|rows|, i requires 0 <= i < |rows| => Ranked(rows[i].country, rows[i].cells[IstpA] + rows[i].cells[IstpT]))
  }

  lemma {:induction false} IstpCellsPresent(t: Table)
    requires WellFormed(t) && IstpA in t.header && IstpT in t.header
    ensures HasIstpCells(t.rows)
  {
    HeaderColumnInRows(t, IstpA);
    HeaderColumnInRows(t, IstpT);
  }

  /** The analysis frame: every country with its total, sorted non-increasing by total. */
  function Analysis(rows: seq<Row>): (sorted: seq<Ranked>)
    requires HasIstpCells(rows)
    ensures SortedDesc(sorted, ByTotal)
    ensures multiset(sorted) == multiset(Totals(rows))
    ensures |sorted| == |rows|
  {
    SortDesc(Totals(rows), ByTotal)
  }

  /** The first TopN rows of the ranking, each labelled 'Top Rank'. */
  function TopRows(sorted: seq<Ranked>): (top: seq<ChartRow>)
    ensures |top| == Min(TopN, |sorted|)
    ensures forall i :: 0 <= i < |top| ==>
      top[i] == ChartRow(sorted[i].country, sorted[i].total, TopRank)
  {
    var n := Min(TopN, |sorted|);
    seq(n, i requires 0 <= i < n => ChartRow(sorted[i].country, sorted[i].total, TopRank))
  }

  /** The masked relabel: every South Korea row gets the 'South Korea' label, and no
      other row and no other column changes. */
  function Highlight(chart: seq<ChartRow>): (marked: seq<ChartRow>)
    ensures |marked| == |chart|
    ensures forall i :: 0 <= i < |chart| ==>
      marked[i].country == chart[i].country && marked[i].total == chart[i].total
    ensures forall i :: 0 <= i < |chart| ==>
      marked[i].tag == (if chart[i].country == SouthKorea then KoreaLabel else chart[i].tag)
  {
    seq(|chart|, i requires 0 <= i < |chart| =>
      if chart[i].country == SouthKorea then chart[i].(tag := KoreaLabel) else chart[i])
  }

  /** The same relabel done in place on the frame, as the source does with `.loc`. */
  method HighlightInPlace(chart: array<ChartRow>)
    modifies chart
    ensures chart[..] == Highlight(old(chart[..]))
  {
    var i := 0;
    while i < chart.Length
      invariant 0 <= i <= chart.Length
      invariant forall k :: 0 <= k < i ==> chart[k] == Highlight(old(chart[..]))[k]
      invariant forall k :: i <= k < chart.Length ==> chart[k] == old(chart[k])
    {
      if chart[i].country == SouthKorea {
        chart[i] := chart[i].(tag := KoreaLabel);
      }
      i := i + 1;
    }
  }

  /** Every South Korea row of the ranking, in ranking order, labelled 'South Korea'
      (`korea_row` with its label changed). */
  function KoreaRows(sorted: seq<Ranked>): (rows: seq<ChartRow>)
    ensures |rows| == Count(sorted, IsKorea)
    ensures forall i :: 0 <= i < |rows| ==> rows[i].country == SouthKorea && rows[i].tag == KoreaLabel
    ensures forall i :: 0 <= i < |rows| ==> Ranked(SouthKorea, rows[i].total) in sorted
  {
    if sorted == [] then []
    else
      var rest := KoreaRows(sorted[1..]);
      assert forall i :: 0 <= i < |rest| ==> Ranked(SouthKorea, rest[i].total) in sorted by {
        forall i | 0 <= i < |rest| ensures Ranked(SouthKorea, rest[i].total) in sorted {
          assert Ranked(SouthKorea, rest[i].total) in sorted[1..];
        }
      }
      if IsKorea(sorted[0]) then [ChartRow(SouthKorea, sorted[0].total, KoreaLabel)] + rest else rest
  }

  predicate IsKorea(r: Ranked) {
    r.country == SouthKorea
  }

  predicate IsKoreaBar(r: ChartRow) {
    r.country == SouthKorea
  }

  predicate HasKoreaLabel(r: ChartRow) {
    r.tag == KoreaLabel
  }

  /** The whole view. Without both ISTP columns it reports the missing columns and shows
      nothing; otherwise the chart is the top list, merged with South Korea when South
      Korea (hard-coded, whatever the sidebar selects) is in the table. */
  function IstpComparison(t: Table): (v: Result<IstpView>)
    requires WellFormed(t)
    ensures v.Err? <==> !(IstpA in t.header && IstpT in t.header)
    ensures v.Err? ==> v.failure == IstpColumnsMissing
    ensures v.Ok? ==> v.value.countryCount == |t.rows|
  {
    if !(IstpA in t.header && IstpT in t.header) then Err(IstpColumnsMissing)
    else
      IstpCellsPresent(t);
      var sorted := Analysis(t.rows);
      var top := TopRows(sorted);
      match FirstIndex(sorted, IsKorea)
      case None => Ok(IstpView(top, None, |t.rows|))
      case Some(p) =>
        var chart := if FirstIndex(top, IsKoreaBar).Some? then Highlight(top) else top + KoreaRows(sorted);
        Ok(IstpView(chart, Some(Standing(p + 1, sorted[p].total)), |t.rows|))
  }

  /** Country names are a key: no two rows share one. */
  ghost predicate UniqueCountries(rows: seq<Row>) {
    forall i, j :: 0 <= i < j < |rows| ==> rows[i].country != rows[j].country
  }

  /** South Korea is among the charted top rows exactly when its first ranking position
      is one of the first TopN. */
  lemma {:induction false} KoreaInTopIff(sorted: seq<Ranked>, p: nat)
    requires FirstIndex(sorted, IsKorea) == Some(p)
    ensures FirstIndex(TopRows(sorted), IsKoreaBar).Some? <==> p < Min(TopN, |sorted|)
  {
  }

  /** The ranking finds South Korea exactly when the table has a South Korea row. */
  lemma {:induction false} KoreaFoundIff(rows: seq<Row>)
    requires HasIstpCells(rows)
    ensures FirstIndex(Analysis(rows), IsKorea).Some? <==> SouthKorea in Countries(rows)
  {
    var sorted, totals := Analysis(rows), Totals(rows);
    if SouthKorea in Countries(rows) {
      var i :| 0 <= i < |rows| && Countries(rows)[i] == SouthKorea;
      assert totals[i] in multiset(sorted);
      var k :| 0 <= k < |sorted| && sorted[k] == totals[i];
      assert IsKorea(sorted[k]);
    }
    if FirstIndex(sorted, IsKorea).Some? {
      var k := FirstIndex(sorted, IsKorea).value;
      assert sorted[k] in multiset(totals);
      var i :| 0 <= i < |totals| && totals[i] == sorted[k];
      assert rows[i].country == SouthKorea;
      assert Countries(rows)[i] == SouthKorea;
    }
  }

  /** South Korea's standing: reported exactly when it has a row; its rank is a valid
      1-based position, at least one more than the number of countries with a strictly
      larger total and at most the number with a total at least as large; and its value
      is South Korea's own ISTP-A + ISTP-T. */
  lemma {:induction false} KoreaStanding(t: Table)
    requires WellFormed(t) && IstpA in t.header && IstpT in t.header
    requires HasIstpCells(t.rows)
    ensures IstpComparison(t).Ok?
    ensures IstpComparison(t).value.korea.Some? <==> SouthKorea in Countries(t.rows)
    ensures IstpComparison(t).value.korea.Some? ==>
      var s := IstpComparison(t).value.korea.value;
      && 1 <= s.rank <= |t.rows|
      && 1 + Count(Totals(t.rows), KeyAbove(ByTotal, s.value)) <= s.rank
      && s.rank <= Count(Totals(t.rows), KeyAtLeast(ByTotal, s.value))
      && Ranked(SouthKorea, s.value) in Totals(t.rows)
  {
    var sorted, totals := Analysis(t.rows), Totals(t.rows);
    KoreaFoundIff(t.rows);
    if FirstIndex(sorted, IsKorea).Some? {
      var p := FirstIndex(sorted, IsKorea).value;
      var v := sorted[p].total;
      RankBounds(sorted, ByTotal, p);
      CountPermutation(sorted, totals, KeyAbove(ByTotal, v));
      CountPermutation(sorted, totals, KeyAtLeast(ByTotal, v));
      assert sorted[p] in multiset(totals);
      assert sorted[p] == Ranked(SouthKorea, v);
    }
  }

  /** South Korea among the top ten: the chart is the top list, same length and order,
      with only South Korea's label changed to 'South Korea'. */
  lemma {:induction false} MergeWithinTop(t: Table)
    requires WellFormed(t) && IstpA in t.header && IstpT in t.header
    requires HasIstpCells(t.rows)
    requires IstpComparison(t).Ok? && IstpComparison(t).value.korea.Some?
    requires IstpComparison(t).value.korea.value.rank <= TopN
    ensures var top, chart := TopRows(Analysis(t.rows)), IstpComparison(t).value.chart;
      && |chart| == |top|
      && (forall i :: 0 <= i < |top| ==> chart[i].country == top[i].country && chart[i].total == top[i].total)
      && (forall i :: 0 <= i < |top| ==> chart[i].tag == (if top[i].country == SouthKorea then KoreaLabel else TopRank))
  {
    var sorted := Analysis(t.rows);
    var p := FirstIndex(sorted, IsKorea).value;
    KoreaInTopIff(sorted, p);
  }

  /** South Korea ranked below the top ten: the chart is the ten top rows followed by
      South Korea's rows, labelled 'South Korea'. */
  lemma {:induction false} MergeBelowTop(t: Table)
    requires WellFormed(t) && IstpA in t.header && IstpT in t.header
    requires HasIstpCells(t.rows)
    requires IstpComparison(t).Ok? && IstpComparison(t).value.korea.Some?
    requires IstpComparison(t).value.korea.value.rank > TopN
    ensures var top := TopRows(Analysis(t.rows));
      && |top| == TopN
      && IstpComparison(t).value.chart == top + KoreaRows(Analysis(t.rows))
  {
  }

  /** No South Korea row: the chart is the top list unchanged. */
  lemma {:induction false} MergeWithoutKorea(t: Table)
    requires WellFormed(t) && IstpA in t.header && IstpT in t.header
    requires HasIstpCells(t.rows)
    requires SouthKorea !in Countries(t.rows)
    ensures IstpComparison(t) == Ok(IstpView(TopRows(Analysis(t.rows)), None, |t.rows|))
  {
    KoreaFoundIff(t.rows);
  }

  /** With unique country names the ranking holds at most one South Korea row. */
  lemma {:induction false} AtMostOneKorea(rows: seq<Row>)
    requires HasIstpCells(rows) && UniqueCountries(rows)
    ensures Count(Analysis(rows), IsKorea) <= 1
  {
    var totals := Totals(rows);
    CountAtMostOne(totals, IsKorea);
    CountPermutation(Analysis(rows), totals, IsKorea);
  }

  /** With at most one South Korea row, relabelling a top list that holds it marks exactly one row. */
  lemma {:induction false} HighlightedOnce(sorted: seq<Ranked>, p: nat)
    requires FirstIndex(sorted, IsKorea) == Some(p) && p < Min(TopN, |sorted|)
    requires Count(sorted, IsKorea) <= 1
    ensures Count(Highlight(TopRows(sorted)), HasKoreaLabel) == 1
  {
    var top := TopRows(sorted);
    var head := sorted[..|top|];
    CountPointwise(Highlight(top), HasKoreaLabel, head, IsKorea);
    assert sorted == head + sorted[|top|..];
    CountAppend(head, sorted[|top|..], IsKorea);
    assert head[p] == sorted[p];
    CountPositive(head, IsKorea);
  }

  /** With exactly one South Korea row, the rows appended below the top list are that one row. */
  lemma {:induction false} AppendedOnce(sorted: seq<Ranked>, p: nat)
    requires FirstIndex(sorted, IsKorea) == Some(p)
    requires Count(sorted, IsKorea) <= 1
    ensures KoreaRows(sorted) == [ChartRow(SouthKorea, sorted[p].total, KoreaLabel)]
  {
    var extra := KoreaRows(sorted);
    CountPositive(sorted, IsKorea);
    assert |extra| == 1;
    assert Ranked(SouthKorea, extra[0].total) in sorted;
    var k :| 0 <= k < |sorted| && sorted[k] == Ranked(SouthKorea, extra[0].total);
    CountDistinctPositions(sorted, IsKorea, k, p);
  }

  /** With unique country names: the chart has at most eleven rows; exactly one of them
      carries the 'South Korea' label when South Korea is in the table and none otherwise;
      and below the top ten, the one appended row is South Korea with its own total. */
  lemma {:induction false} ChartWithUniqueCountries(t: Table)
    requires WellFormed(t) && IstpA in t.header && IstpT in t.header
    requires HasIstpCells(t.rows) && UniqueCountries(t.rows)
    ensures IstpComparison(t).Ok?
    ensures var v := IstpComparison(t).value;
      && |v.chart| <= TopN + 1
      && Count(v.chart, HasKoreaLabel) == (if v.korea.Some? then 1 else 0)
      && (v.korea.Some? && v.korea.value.rank > TopN ==>
            v.chart == TopRows(Analysis(t.rows)) + [ChartRow(SouthKorea, v.korea.value.value, KoreaLabel)])
  {
    var sorted := Analysis(t.rows);
    var top := TopRows(sorted);
    AtMostOneKorea(t.rows);
    CountNone(top, HasKoreaLabel);
    match FirstIndex(sorted, IsKorea)
    case None =>
    case Some(p) =>
      KoreaInTopIff(sorted, p);
      if p < |top| {
        HighlightedOnce(sorted, p);
      } else {
        AppendedOnce(sorted, p);
        var extra := KoreaRows(sorted);
        CountAll(extra, HasKoreaLabel);
        CountAppend(top, extra, HasKoreaLabel);
      }
  }

  /** Two different positions satisfying p make the count at least two. */
  lemma {:induction false} CountDistinctPositions<T>(s: seq<T>, p: T -> bool, i: nat, j: nat)
    requires i < |s| && j < |s| && p(s[i]) && p(s[j]) && Count(s, p) <= 1
    ensures i == j
  {
    if i != j {
      var lo, hi := if i < j then i else j, if i < j then j else i;
      assert s == s[..hi] + s[hi..];
      CountAppend(s[..hi], s[hi..], p);
      assert s[..hi][lo] == s[lo];
      CountPositive(s[..hi], p);
    }
  }
}
