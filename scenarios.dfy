/** Concrete tables worked through the ISTP view. */
module Scenarios {
  import opened Frame
  import opened Ordering
  import opened Istp

  const IstpHeader: seq<string> := [CountryColumn, IstpA, IstpT]

  lemma {:induction false} IstpHeaderCategories()
    ensures CategoryColumns(IstpHeader) == [IstpA, IstpT]
  {
    assert IstpA != CountryColumn && IstpT != CountryColumn;
    assert [IstpT][1..] == [];
    assert CategoryColumns([IstpT]) == [IstpT];
    assert [IstpA, IstpT][1..] == [IstpT];
    assert CategoryColumns([IstpA, IstpT]) == [IstpA, IstpT];
    assert IstpHeader[1..] == [IstpA, IstpT];
  }

  function TwoCountries(): Table {
    Table(IstpHeader, [
      Row(SouthKorea, map[IstpA := 0.05, IstpT := 0.03]),
      Row("Japan", map[IstpA := 0.10, IstpT := 0.02])])
  }

  lemma {:induction false} TwoCountriesWellFormed()
    ensures WellFormed(TwoCountries())
  {
  }

  lemma {:induction false} TwoCountriesTotals()
    ensures HasIstpCells(TwoCountries().rows)
    ensures Totals(TwoCountries().rows) == [Ranked(SouthKorea, 0.08), Ranked("Japan", 0.12)]
  {
  }

  lemma {:induction false} TwoCountriesRanking()
    ensures HasIstpCells(TwoCountries().rows)
    ensures Analysis(TwoCountries().rows) == [Ranked("Japan", 0.12), Ranked(SouthKorea, 0.08)]
  {
  }

  /** South Korea at 0.08 behind Japan at 0.12 ranks 2nd of 2; both fit in the top list,
      so South Korea is relabelled in place and nothing is appended. */
  lemma {:induction false} KoreaSecondOfTwo()
    ensures WellFormed(TwoCountries())
    ensures IstpComparison(TwoCountries()) == Ok(IstpView(
      [ChartRow("Japan", 0.12, TopRank), ChartRow(SouthKorea, 0.08, KoreaLabel)],
      Some(Standing(2, 0.08)),
      2))
  {
    TwoCountriesWellFormed();
    TwoCountriesRanking();
    var t := TwoCountries();
    var sorted := Analysis(t.rows);
    assert "Japan" != SouthKorea;
    assert FirstIndex(sorted[1..], IsKorea) == Some(0);
    assert FirstIndex(sorted, IsKorea) == Some(1);
    var top := TopRows(sorted);
    assert top == [ChartRow("Japan", 0.12, TopRank), ChartRow(SouthKorea, 0.08, TopRank)];
    assert FirstIndex(top, IsKoreaBar) == Some(1) by {
      assert !IsKoreaBar(top[0]) && IsKoreaBar(top[1]);
      assert top[1..][0] == top[1];
    }
    assert Highlight(top) == [ChartRow("Japan", 0.12, TopRank), ChartRow(SouthKorea, 0.08, KoreaLabel)];
    assert IstpA in t.header && IstpT in t.header by {
      assert t.header[1] == IstpA && t.header[2] == IstpT;
    }
  }

  /** A table holding South Korea alone: it ranks 1st of 1, the top list has that one
      row, and the merge relabels it without appending anything. */
  lemma {:induction false} KoreaAlone(t: Table)
    requires WellFormed(t) && IstpA in t.header && IstpT in t.header
    requires |t.rows| == 1 && t.rows[0].country == SouthKorea
    ensures HasIstpCells(t.rows)
    ensures var total := t.rows[0].cells[IstpA] + t.rows[0].cells[IstpT];
      IstpComparison(t) == Ok(IstpView([ChartRow(SouthKorea, total, KoreaLabel)], Some(Standing(1, total)), 1))
  {
    IstpCellsPresent(t);
    var total := t.rows[0].cells[IstpA] + t.rows[0].cells[IstpT];
    var totals := Totals(t.rows);
    assert totals == [Ranked(SouthKorea, total)];
    var sorted := Analysis(t.rows);
    assert |sorted| == 1 && sorted[0] in multiset(totals);
    assert sorted == [Ranked(SouthKorea, total)];
    assert FirstIndex(sorted, IsKorea) == Some(0);
    var top := TopRows(sorted);
    assert top == [ChartRow(SouthKorea, total, TopRank)];
    assert IsKoreaBar(top[0]);
    assert Highlight(top) == [ChartRow(SouthKorea, total, KoreaLabel)];
  }
}
