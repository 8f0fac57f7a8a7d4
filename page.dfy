/** One run of the page script: load the table, and unless it is empty, derive the
    category columns, the sidebar's country list and default, and the three views. */
module Page {
  import opened Frame
  import opened Categories
  import opened Istp

  /** What the page shows. With an empty table only the "no data" message. Otherwise
      the sidebar, then the per-country view; when that view fails the run stops there
      (an uncaught `IndexError`), and the later views never appear. A failing ISTP view
      is reported in place and does not affect the two views before it. */
  datatype PageView =
    | NoData
    | Halted(
        categories: seq<string>,
        countries: seq<string>,
        defaultIndex: nat,
        failure: Failure)
    | Views(
        categories: seq<string>,
        countries: seq<string>,
        defaultIndex: nat,
        distribution: CountryView,
        average: seq<Entry>,
        istp: Result<IstpView>)

  /** The loader: the parsed file when there is one, and an empty table when the file
      is missing. Reading and parsing the file is not part of this model. */
  function Load(file: Option<Table>): (t: Table)
    ensures file.None? ==> IsEmpty(t)
    ensures file.Some? ==> t == file.value
  {
    match file
    case None => Table([], [])
    case Some(parsed) => parsed
  }

  /** The page for a loaded table and the country the sidebar currently selects. */
  function Render(t: Table, selected: string): (page: PageView)
    requires IsEmpty(t) || WellFormed(t)
    ensures page.NoData? <==> IsEmpty(t)
    ensures !page.NoData? ==>
      && page.categories == CategoryColumns(t.header)
      && page.countries == CountryList(t)
      && page.defaultIndex == DefaultIndex(page.countries)
      && page.defaultIndex < |page.countries|
    ensures page.Halted? <==>
      !IsEmpty(t) && (FirstIndex(t.rows, CountryIs(selected)).None? || CategoryColumns(t.header) == [])
    ensures page.Halted? ==> Err(page.failure) == CountryDistribution(t, selected)
    ensures page.Views? ==>
      && Ok(page.distribution) == CountryDistribution(t, selected)
      && page.average == GlobalAverage(t)
      && page.istp == IstpComparison(t)
  {
    if IsEmpty(t) then NoData
    else
      var countries := CountryList(t);
      match CountryDistribution(t, selected)
      case Err(failure) =>
        Halted(CategoryColumns(t.header), countries, DefaultIndex(countries), failure)
      case Ok(view) =>
        Views(CategoryColumns(t.header), countries, DefaultIndex(countries),
              view, GlobalAverage(t), IstpComparison(t))
  }

  /** The country the sidebar preselects has a row, so on a table with category columns
      the whole page renders. The preselection is South Korea whenever the table has it,
      and otherwise the country of the table's first row. */
  lemma {:induction false} DefaultSelectionRenders(t: Table)
    requires WellFormed(t) && !IsEmpty(t)
    requires CategoryColumns(t.header) != []
    ensures var page := Render(t, CountryList(t)[DefaultIndex(CountryList(t))]);
      && page.Views?
      && (SouthKorea in CountryList(t) ==> page.countries[page.defaultIndex] == SouthKorea)
      && (SouthKorea !in CountryList(t) ==> page.countries[page.defaultIndex] == t.rows[0].country)
  {
  }
}
