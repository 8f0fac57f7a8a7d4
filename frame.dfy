/** The survey table as the page loads it, and the lookups the page does on it:
    the category columns, the de-duplicated country list, the default selection
    and the first row of a country. */
module Frame {

  datatype Option<T> = None | Some(value: T)

  /** Why a view could not be computed. The first two are where the source raises an
      IndexError (`iloc[0]` on no matching row, `index[0]` on no category); the third is
      its reported error for a table without the ISTP columns. */
  datatype Failure = CountryNotFound | NoCategoryColumns | IstpColumnsMissing

  datatype Result<T> = Ok(value: T) | Err(failure: Failure)

  /** Name of the key column; every other column is a category ratio. */
  const CountryColumn: string := "Country"

  /** The country the page prefers: the sidebar's default and the ISTP comparison's subject. */
  const SouthKorea: string := "South Korea"

  /** One country's row: its name and its ratio for each category column. */
  datatype Row = Row(country: string, cells: map<string, real>)

  /** The loaded table: its header in file order, and its rows in file order. */
  datatype Table = Table(header: seq<string>, rows: seq<Row>)

  /** What the table library calls an empty frame: no columns or no rows. The loader's
      answer to a missing file is such a table, and the page then shows nothing else. */
  predicate IsEmpty(t: Table) {
    |t.header| == 0 || |t.rows| == 0
  }

  /** The header names the key column and every row has a value for every other column. */
  ghost predicate WellFormed(t: Table) {
    var cols := CategoryColumns(t.header);
    && CountryColumn in t.header
    && forall k, i :: 0 <= k < |cols| && 0 <= i < |t.rows| ==> cols[k] in t.rows[i].cells
  }

  /** In a well-formed table a header column other than the key has a value in every row. */
  lemma {:induction false} HeaderColumnInRows(t: Table, c: string)
    requires WellFormed(t)
    requires c in t.header && c != CountryColumn
    ensures forall i :: 0 <= i < |t.rows| ==> c in t.rows[i].cells
  {
    var cols := CategoryColumns(t.header);
    var k :| 0 <= k < |cols| && cols[k] == c;
  }

  /** a can be obtained from b by deleting elements, so a keeps b's order. */
  ghost predicate IsSubsequence<T>(a: seq<T>, b: seq<T>)
    decreases |b|
  {
    a == [] || (b != [] && ((a[0] == b[0] && IsSubsequence(a[1..], b[1..])) || IsSubsequence(a, b[1..])))
  }

  /** The category columns: every header name except the key column. */
  function CategoryColumns(header: seq<string>): (cols: seq<string>)
    ensures forall c :: c in cols <==> c in header && c != CountryColumn
    ensures multiset(cols) == multiset(header)[CountryColumn := 0]
  {
    if header == [] then []
    else
      assert header == [header[0]] + header[1..];
      (if header[0] == CountryColumn then [] else [header[0]]) + CategoryColumns(header[1..])
  }

  /** The category columns come in header order. Together with the multiset in the
      contract above, this fixes them exactly: the header with the key column struck out. */
  lemma {:induction false} CategoryColumnsInHeaderOrder(header: seq<string>)
    ensures IsSubsequence(CategoryColumns(header), header)
  {
    if header != [] {
      CategoryColumnsInHeaderOrder(header[1..]);
      var cols := CategoryColumns(header);
      if header[0] != CountryColumn {
        assert cols[0] == header[0] && cols[1..] == CategoryColumns(header[1..]);
      } else {
        assert cols == CategoryColumns(header[1..]);
        SubsequenceOfTail(cols, header);
      }
    }
  }

  lemma {:induction false} SubsequenceOfTail<T>(a: seq<T>, b: seq<T>)
    requires b != [] && IsSubsequence(a, b[1..])
    ensures IsSubsequence(a, b)
  {
  }

  /** Position of the first occurrence of x in s (the list method `index`). */
  function IndexOf<T(==)>(s: seq<T>, x: T): (i: nat)
    requires x in s
    ensures i < |s| && s[i] == x
    ensures forall j :: 0 <= j < i ==> s[j] != x
  {
    if s[0] == x then 0 else 1 + IndexOf(s[1..], x)
  }

  /** The key column, row by row. */
  function Countries(rows: seq<Row>): (names: seq<string>)
    ensures |names| == |rows|
    ensures forall i :: 0 <= i < |rows| ==> names[i] == rows[i].country
  {
    seq(|rows|, i requires 0 <= i < |rows| => rows[i].country)
  }

  /** The distinct values of s in order of first appearance. */
  function Unique(s: seq<string>): (r: seq<string>)
    ensures forall x :: x in r <==> x in s
    ensures forall i, j :: 0 <= i < j < |r| ==> r[i] != r[j]
    ensures forall i, j :: 0 <= i < j < |r| ==> IndexOf(s, r[i]) < IndexOf(s, r[j])
  {
    if s == [] then []
    else
      var init, x := s[..|s| - 1], s[|s| - 1];
      assert s == init + [x];
      var u := Unique(init);
      forall y | y in init ensures IndexOf(s, y) == IndexOf(init, y) {
        FirstIndexInPrefix(init, [x], y);
      }
      if x in init then u
      else
        assert IndexOf(s, x) == |init|;
        u + [x]
  }

  lemma {:induction false} FirstIndexInPrefix<T>(a: seq<T>, b: seq<T>, y: T)
    requires y in a
    ensures IndexOf(a + b, y) == IndexOf(a, y)
  {
    var k := IndexOf(a, y);
    assert (a + b)[k] == y;
  }

  /** The sidebar's country list: the table's countries without repetition, in file order,
      so the first row's country comes first. */
  function CountryList(t: Table): (names: seq<string>)
    ensures names == Unique(Countries(t.rows))
    ensures forall c :: c in names <==> exists i :: 0 <= i < |t.rows| && t.rows[i].country == c
    ensures forall i, j :: 0 <= i < j < |names| ==> names[i] != names[j]
    ensures |t.rows| > 0 ==> |names| > 0 && names[0] == t.rows[0].country
  {
    var all := Countries(t.rows);
    if |t.rows| > 0 then
      UniqueStartsWithFirst(all);
      Unique(all)
    else
      Unique(all)
  }

  /** De-duplication keeps the first value in front: nothing appears before it in s. */
  lemma {:induction false} UniqueStartsWithFirst(s: seq<string>)
    requires s != []
    ensures Unique(s) != [] && Unique(s)[0] == s[0]
  {
    assert s[0] in Unique(s);
  }

  /** The sidebar's default: the first position of South Korea in the list, else 0. */
  function DefaultIndex(names: seq<string>): (i: nat)
    ensures SouthKorea in names ==> i < |names| && names[i] == SouthKorea
    ensures SouthKorea in names ==> forall j :: 0 <= j < i ==> names[j] != SouthKorea
    ensures SouthKorea !in names ==> i == 0
    ensures |names| > 0 ==> i < |names|
  {
    if SouthKorea in names then IndexOf(names, SouthKorea) else 0
  }

  /** Position of the first element that satisfies p: a boolean mask followed by its
      first hit (`df[mask].iloc[0]`, `index[0]`). */
  function FirstIndex<T>(s: seq<T>, p: T -> bool): (found: Option<nat>)
    ensures found.None? <==> forall i :: 0 <= i < |s| ==> !p(s[i])
    ensures found.Some? ==> found.value < |s| && p(s[found.value])
    ensures found.Some? ==> forall j :: 0 <= j < found.value ==> !p(s[j])
  {
    if s == [] then None
    else if p(s[0]) then Some(0)
    else match FirstIndex(s[1..], p)
      case None => None
      case Some(i) => Some(i + 1)
  }

  /** The mask `df['Country'] == c`. */
  function CountryIs(c: string): Row -> bool {
    (r: Row) => r.country == c
  }

  /** Whatever country the sidebar offers, and in particular the default one, has a row. */
  lemma {:induction false} OfferedCountryHasRow(t: Table, k: nat)
    requires k < |CountryList(t)|
    ensures FirstIndex(t.rows, CountryIs(CountryList(t)[k])).Some?
  {
  }
}
