# MBTI-by-country dashboard page, modelled in Dafny

The page `pages/mbti.py` loads a table of per-country MBTI ratios. The table has a
`Country` column and 32 category columns such as `ISTP-A` and `ISTP-T`. The page
derives three views from it:

1. **Per-country distribution.** For the country picked in the sidebar (South Korea by
   default), the page takes its first row and sorts that row's category ratios from the
   highest. The head of that order is reported as the most common type.
2. **Global average.** The page takes the mean of every category column over all
   countries and sorts the means from the highest.
3. **ISTP comparison.** For every country, the page adds `ISTP-A` and `ISTP-T` and ranks
   the countries by that total. It charts the ten best as "Top Rank" and reports South
   Korea's rank and total. If South Korea is among the ten, it relabels that row
   "South Korea"; otherwise it appends the South Korea row below them.

The model treats all of this as functions over an immutable table. There are six
modules:

- `Ordering` (ordering.dfy) holds the descending sort and counting, with the
  permutation and rank lemmas.
- `Frame` (frame.dfy) holds the table, the category columns, the sidebar's country
  list and default, and row lookup.
- `Categories` (categories.dfy) holds views 1 and 2.
- `Istp` (istp.dfy) holds view 3 and its merge rules.
- `Page` (page.dfy) holds the loader's outcome and the whole page.
- `Scenarios` (scenarios.dfy) holds worked examples.

Ratios are `real`. The source sorts with the table library's default sort, which is not
stable, so no contract depends on how ties are ordered. Sorted outputs are specified as
"a permutation of the input, non-increasing". The rank of South Korea is bounded by
counts that hold for every such order.

Three behaviours of the code shape the model:

- The sort is unstable.
- South Korea is hard-coded at lines 101 and 115, whatever the sidebar selects.
- A missing row (`iloc[0]`, line 47) or a row without category columns (`index[0]`,
  line 60) raises an uncaught `IndexError`, which ends the script run. The model
  reports these as `CountryNotFound` and `NoCategoryColumns`, and the page then stops
  after the sidebar: it shows neither the global average nor the ISTP comparison.

## Model

| member | source | states |
|---|---|---|
| `Frame.CategoryColumns` | pages/mbti.py:29 | a name is a category column iff it is in the header and is not `Country`; the columns are the header's names with every `Country` removed, counted with multiplicity |
| `Frame.CategoryColumnsInHeaderOrder` | pages/mbti.py:29 | the category columns are a subsequence of the header, so they keep header order |
| `Frame.Unique` | pages/mbti.py:35 | the de-duplicated list has the same members as the input, no repeats, and lists values in the order of their first appearance |
| `Frame.CountryList` | pages/mbti.py:35 | the sidebar offers the de-duplicated country column: exactly the countries that have a row, without repeats, with the first row's country first |
| `Frame.UniqueStartsWithFirst` | pages/mbti.py:35-38 | the de-duplicated list begins with the input's first value, which makes that country the fallback default |
| `Frame.DefaultIndex` | pages/mbti.py:37-38 | the default is the first position of "South Korea" when it is listed and 0 otherwise, and it is a valid index of any non-empty list |
| `Frame.FirstIndex` | pages/mbti.py:47 | finds the first position whose row matches (the selected country's row here, South Korea's ranking position at lines 101-104), and finds none exactly when no row matches |
| `Frame.OfferedCountryHasRow` | pages/mbti.py:35-47 | every country the sidebar offers has a row, so the row lookup for a selection does not fail |
| `Ordering.SortDesc` | pages/mbti.py:55 | the result is a permutation of the input that is non-increasing by the key |
| `Ordering.CountPermutation` | pages/mbti.py:93 | re-ordering the rows does not change how many of them satisfy a condition |
| `Ordering.RankBounds` | pages/mbti.py:104 | in any non-increasing order, position + 1 is at least 1 + #(keys strictly greater) and at most #(keys at least as large) |
| `Categories.CountryDistribution` | pages/mbti.py:47-61 | the view succeeds iff the country has a row and there is a category column, and otherwise fails with the matching error; on success the chart is the first matching row's category ratios, permuted and non-increasing; the top type is its head, is one of the row's categories with that row's ratio, and no category of the row has a larger ratio |
| `Categories.TopIsLargest` | pages/mbti.py:60-61 | the head of a sorted arrangement of a row's ratios is a category of that row with its ratio, and it is at least every ratio of the row |
| `Categories.GlobalAverage` | pages/mbti.py:72-73 | there is one bar per category column, and each bar is that column's sum divided by the row count; the bars are a permutation of the column means, non-increasing |
| `Categories.MeanWithinBounds` | pages/mbti.py:72 | a column mean lies between any lower and upper bounds of the column's values, so ratios in [0, 1] average to a ratio in [0, 1] |
| `Istp.Totals` | pages/mbti.py:89-90 | one analysis row per table row, in table order, carrying the country and ISTP-A + ISTP-T |
| `Istp.Analysis` | pages/mbti.py:93 | the analysis frame is a permutation of the per-country totals, non-increasing by total |
| `Istp.TopRows` | pages/mbti.py:96-98 | the top list is the first min(10, n) rows of the ranking, in ranking order, each labelled 'Top Rank' |
| `Istp.Highlight` | pages/mbti.py:116 | the relabel keeps length, order, countries and totals; a row gets the 'South Korea' label iff its country is South Korea, and every other label is unchanged |
| `Istp.HighlightInPlace` | pages/mbti.py:116 | updating the frame in place leaves it equal to the relabel of its old contents |
| `Istp.KoreaRows` | pages/mbti.py:101-109 | the South Korea rows of the ranking, one per occurrence, each labelled 'South Korea' with a total the ranking has for South Korea |
| `Istp.IstpComparison` | pages/mbti.py:87-123 | the view fails (missing ISTP columns) exactly when `ISTP-A` or `ISTP-T` is not a column; otherwise it reports the table's row count as the number of countries |
| `Istp.KoreaInTopIff` | pages/mbti.py:115 | South Korea is among the charted top rows iff its first ranking position is below min(10, n) |
| `Istp.KoreaFoundIff` | pages/mbti.py:101-103 | the ranking finds South Korea iff the table has a South Korea row |
| `Istp.KoreaStanding` | pages/mbti.py:101-105 | South Korea's standing is reported iff it has a row; then 1 ≤ rank ≤ n, 1 + #(totals strictly greater) ≤ rank ≤ #(totals at least as large), and the value is South Korea's own ISTP-A + ISTP-T |
| `Istp.MergeWithinTop` | pages/mbti.py:115-117 | when the rank is at most 10, the chart has the top list's length, order, countries and totals, and only South Korea rows get the 'South Korea' label |
| `Istp.MergeBelowTop` | pages/mbti.py:118-120 | when the rank is above 10, the top list has 10 rows and the chart is the top list followed by South Korea's rows |
| `Istp.MergeWithoutKorea` | pages/mbti.py:121-123 | without a South Korea row, no standing is reported and the chart is exactly the top list |
| `Istp.AtMostOneKorea` | pages/mbti.py:101 | with unique country names, the ranking holds at most one South Korea row |
| `Istp.HighlightedOnce` | pages/mbti.py:115-116 | with at most one South Korea row, relabelling a top list that contains it marks exactly one row |
| `Istp.AppendedOnce` | pages/mbti.py:108-120 | with at most one South Korea row, the appended rows are exactly that row, with its ranking total |
| `Istp.ChartWithUniqueCountries` | pages/mbti.py:96-123 | with unique country names, the chart has at most 11 rows; exactly one row is labelled 'South Korea' when South Korea is present and none otherwise; below the top ten, the one appended row is South Korea with its reported total |
| `Page.Load` | pages/mbti.py:16-23 | a missing file yields an empty table, and a parsed file yields its table unchanged |
| `Page.Render` | pages/mbti.py:25-140 | the page shows only the no-data message iff the table is empty; otherwise it shows the category columns, the country list and the default index computed from that list; it stops after the sidebar, with the distribution's error, iff the selected country has no row or there is no category column; otherwise it shows the distribution, the global average and the ISTP view |
| `Page.DefaultSelectionRenders` | pages/mbti.py:35-61 | on a non-empty table with category columns, the page renders in full for the preselected country, which is South Korea whenever the table has it and otherwise the first row's country |
| `Scenarios.KoreaSecondOfTwo` | pages/mbti.py:87-117 | South Korea (0.05 + 0.03) and Japan (0.10 + 0.02): Japan ranks first, South Korea is 2nd of 2, and South Korea is relabelled in place with no row appended |
| `Scenarios.KoreaAlone` | pages/mbti.py:93-117 | a table holding South Korea alone: rank 1 of 1, a one-row top list, and the merge relabels it without appending |

## Left out

- The Streamlit calls are left out: page config, titles, the sidebar widget, charts, the expander, the info, warning and error texts, and percentage formatting. They are presentation only.
- Reading the CSV and the load cache are left out. `Page.Load` takes the parse outcome as a parameter: a table, or nothing when the file is missing.
- Floating-point rounding is not modelled. Ratios are `real`, because only addition, division by the row count and comparison are used.
- Missing or non-numeric cells (NaN) are not modelled. `Frame.WellFormed` requires a value in every category cell.
- A file without a `Country` column is not modelled. The source raises a `KeyError` there, and the model's `Render` requires such a table to be empty or well-formed.
- The tie order of the library's default sort is not modelled. `Ordering.SortDesc` fixes one order of its own, and no stated property depends on that choice.
- `Istp.HighlightInPlace` models only the in-place relabel at line 116 as an array update. Copying the frame, adding columns and concatenating (lines 89-90, 97-98 and 120) are modelled on sequence values.
- Re-running a view on the same inputs gives the same output by construction. All views are functions, so no separate lemma states this.
- Duplicate country names are followed as the code handles them. The lookups take the first match, the relabel marks every matching row, and the append adds every matching row. The length and label bounds are stated only for unique names, in `Istp.ChartWithUniqueCountries`.
