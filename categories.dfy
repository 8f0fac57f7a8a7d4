/** The two category views of the page: the selected country's ratios sorted from the
    highest, with the highest singled out, and the mean of every category over all
    countries, sorted the same way. */
module Categories {
  import opened Frame
  import opened Ordering

  /** One bar of a chart: a category column and its ratio. */
  datatype Entry = Entry(category: string, ratio: real)

  function ByRatio(e: Entry): real {
    e.ratio
  }

  /** The row restricted to the given columns, in column order (`country_data[mbti_cols]`). */
  function Project(row: Row, cols: seq<string>): (entries: seq<Entry>)
    requires forall c :: c in cols ==> c in row.cells
    ensures |entries| == |cols|
    ensures forall i :: 0 <= i < |cols| ==> entries[i] == Entry(cols[i], row.cells[cols[i]])
  {
    seq(|cols|, i requires 0 <= i < |cols| => Entry(cols[i], row.cells[cols[i]]))
  }

  /** The per-country chart and the category it reports as the most common. */
  datatype CountryView = CountryView(entries: seq<Entry>, top: Entry)

  /** The first row of the selected country, its category ratios sorted non-increasing,
      and the head of that order as the top type. */
  function CountryDistribution(t: Table, selected: string): (v: Result<CountryView>)
    requires WellFormed(t)
    ensures v == Err(CountryNotFound) <==> FirstIndex(t.rows, CountryIs(selected)).None?
    ensures v == Err(NoCategoryColumns) <==> FirstIndex(t.rows, CountryIs(selected)).Some? && CategoryColumns(t.header) == []
    ensures v.Ok? <==> FirstIndex(t.rows, CountryIs(selected)).Some? && CategoryColumns(t.header) != []
    ensures v.Ok? ==>
      var row := t.rows[FirstIndex(t.rows, CountryIs(selected)).value];
      var cols := CategoryColumns(t.header);
      && SortedDesc(v.value.entries, ByRatio)
      && multiset(v.value.entries) == multiset(Project(row, cols))
      && v.value.top == v.value.entries[0]
      && v.value.top.category in cols && v.value.top.ratio == row.cells[v.value.top.category]
      && forall c :: c in cols ==> v.value.top.ratio >= row.cells[c]
  {
    match FirstIndex(t.rows, CountryIs(selected))
    case None => Err(CountryNotFound)
    case Some(i) =>
      var row, cols := t.rows[i], CategoryColumns(t.header);
      var projected := Project(row, cols);
      var sorted := SortDesc(projected, ByRatio);
      if sorted == [] then
        Err(NoCategoryColumns)
      else
        TopIsLargest(row, cols, sorted);
        Ok(CountryView(sorted, sorted[0]))
  }

  /** The head of a sorted arrangement of a row's ratios is a ratio of that row, and no
      category of the row has a larger one. */
  lemma {:induction false} TopIsLargest(row: Row, cols: seq<string>, sorted: seq<Entry>)
    requires forall c :: c in cols ==> c in row.cells
    requires SortedDesc(sorted, ByRatio)
    requires multiset(sorted) == multiset(Project(row, cols))
    requires sorted != []
    ensures sorted[0].category in cols && sorted[0].ratio == row.cells[sorted[0].category]
    ensures forall c :: c in cols ==> sorted[0].ratio >= row.cells[c]
  {
    var projected := Project(row, cols);
    assert sorted[0] in multiset(projected);
    var k :| 0 <= k < |projected| && projected[k] == sorted[0];
    forall c | c in cols ensures sorted[0].ratio >= row.cells[c] {
      var j :| 0 <= j < |cols| && cols[j] == c;
      assert projected[j] in multiset(sorted);
      var m :| 0 <= m < |sorted| && sorted[m] == projected[j];
      assert ByRatio(sorted[0]) >= ByRatio(sorted[m]);
    }
  }

  /** Sum of one column over the rows. */
  function ColumnSum(rows: seq<Row>, c: string): real
    requires forall i :: 0 <= i < |rows| ==> c in rows[i].cells
  {
    if rows == [] then 0.0 else rows[0].cells[c] + ColumnSum(rows[1..], c)
  }

  /** Arithmetic mean of one column (`df[c].mean()`); the page only asks on a non-empty table. */
  function ColumnMean(rows: seq<Row>, c: string): real
    requires |rows| > 0
    requires forall i :: 0 <= i < |rows| ==> c in rows[i].cells
  {
    ColumnSum(rows, c) / (|rows| as real)
  }

  /** The mean of every category column, in column order (`df[mbti_cols].mean()`). */
  function Means(t: Table): (means: seq<Entry>)
    requires WellFormed(t) && |t.rows| > 0
    ensures |means| == |CategoryColumns(t.header)|
    ensures forall i :: 0 <= i < |means| ==>
      means[i] == Entry(CategoryColumns(t.header)[i], ColumnMean(t.rows, CategoryColumns(t.header)[i]))
  {
    var cols := CategoryColumns(t.header);
    seq(|cols|, i requires 0 <= i < |cols| => Entry(cols[i], ColumnMean(t.rows, cols[i])))
  }

  /** The global average chart: one bar per category column carrying that column's mean,
      sorted non-increasing. */
  function GlobalAverage(t: Table): (avg: seq<Entry>)
    requires WellFormed(t) && |t.rows| > 0
    ensures SortedDesc(avg, ByRatio)
    ensures multiset(avg) == multiset(Means(t))
    ensures |avg| == |CategoryColumns(t.header)|
    ensures forall c :: c in CategoryColumns(t.header) <==> exists i :: 0 <= i < |avg| && avg[i].category == c
    ensures forall i :: 0 <= i < |avg| ==>
      avg[i].category in CategoryColumns(t.header) && avg[i].ratio == ColumnMean(t.rows, avg[i].category)
  {
    var means := Means(t);
    var avg := SortDesc(means, ByRatio);
    forall c | c in CategoryColumns(t.header)
      ensures exists i :: 0 <= i < |avg| && avg[i].category == c
    {
      var j :| 0 <= j < |means| && CategoryColumns(t.header)[j] == c;
      assert means[j] in multiset(avg);
    }
    forall i | 0 <= i < |avg|
      ensures avg[i].category in CategoryColumns(t.header) && avg[i].ratio == ColumnMean(t.rows, avg[i].category)
    {
      assert avg[i] in multiset(means);
    }
    avg
  }

  /** A column sum lies between the row count times the column's lower and upper bound. */
  lemma {:induction false} ColumnSumBounds(rows: seq<Row>, c: string, lo: real, hi: real)
    requires forall i :: 0 <= i < |rows| ==> c in rows[i].cells && lo <= rows[i].cells[c] <= hi
    ensures lo * (|rows| as real) <= ColumnSum(rows, c) <= hi * (|rows| as real)
  {
    if rows != [] {
      ColumnSumBounds(rows[1..], c, lo, hi);
      assert lo * (|rows| as real) == lo + lo * (|rows[1..]| as real);
      assert hi * (|rows| as real) == hi + hi * (|rows[1..]| as real);
    }
  }

  /** A mean stays within the bounds of its column: ratios in [0, 1] average to a ratio in [0, 1]. */
  lemma {:induction false} MeanWithinBounds(rows: seq<Row>, c: string, lo: real, hi: real)
    requires |rows| > 0
    requires forall i :: 0 <= i < |rows| ==> c in rows[i].cells && lo <= rows[i].cells[c] <= hi
    ensures lo <= ColumnMean(rows, c) <= hi
  {
    ColumnSumBounds(rows, c, lo, hi);
    var n := |rows| as real;
    assert lo * n / n == lo && hi * n / n == hi;
  }
}
