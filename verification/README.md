# Frequency summary of the university-locations dashboard, in Dafny

The dashboard in `Final.py` loads one table of postsecondary schools. Each
row has a state code, a position, and one identifier code for each of seven
statistical columns (`LOCALE`, `CBSA`, `CSA`, `NECTA`, `CD`, `SLDL`, `SLDU`).
The code `"N"` means the school is not classified under that column. The
script draws three pictures. This project models the logic behind them and
leaves out the drawing:

- the **frequency summary** inside `freq_graph`: keep the schools of the
  chosen state; sort their codes under the chosen column; drop repeated
  codes to get `unique_data`; then count, code by code, how many of those
  schools carry each code, giving `temp_list`;
- the **state selector list** built in `main`: the same sort-then-drop-repeats
  idiom applied to the `STATE` column;
- the **heatmap row filter** in `heatmap`: drop the rows whose code under the
  chosen column is `"N"`, then keep their longitude and latitude.

Modules, one concept each:

| file | module | what it holds |
|---|---|---|
| `strorder.dfy` | `StrOrder` | Python's `<` on `str`, proved irreflexive, asymmetric, transitive and total |
| `sortdedup.dfy` | `SortDedup` | `sort_values(ascending=True)` as an insertion sort; the `if i not in …: append` loop as `Dedup`; the loop itself as the method `SortUnique` |
| `schools.dfy` | `Schools` | the row datatype, the seven columns, the sentinel, and the error type |
| `frequency.dfy` | `Frequency` | the state filter, the counts, the summary `Tabulate`, the chart input `FreqGraph`, and the nested loops as methods |
| `heatmap.dfy` | `Heatmap` | the `!= 'N'` row filter and the points handed to the density layer |
| `selector.dfy` | `StateSelector` | `states_list` and its link to the chart |
| `scenarios.dfy` | `Scenarios` | worked examples: Massachusetts locales, a missing New York, Texan `"N"` codes |

Each operation has a partner definition that does not depend on how it is
computed:

- The summary is pinned down by `TabulateCharacterised`. A pair of lists
  meets the description of `unique_data` and `temp_list` (the predicate
  `IsSummary`) if and only if it equals the computed `Tabulate`.
- The distinct-code list is pinned down by `SortedDistinctCharacterised`. A
  list equals `SortedDistinct(xs)` if and only if it is strictly ascending and
  holds exactly the values of `xs`.
- The insertion sort is pinned down by `SortIsTheSortedPermutation`. Any
  sorted rearrangement of the input equals it, so the choice of sorting
  algorithm does not matter.
- The row-by-row count is pinned down by `CountIsMultiplicity`. It equals the
  multiplicity of the code in the column's multiset of values.
- The heatmap filter is pinned down by `ClassifiedKeepsExactly`. It returns
  the rows at the increasing positions whose code is not `"N"`, and only those.

Two behaviours of the program are worth stating plainly:

- **A state with no schools.** `freq_dict[curstate]` is written only inside
  the counting loop (Final.py:145). For a state with no schools that loop
  never runs, so the read at Final.py:149 raises `KeyError`. `FreqGraph`
  returns `Err(KeyError(state))` exactly in that case, and `NewYorkMissing`
  shows it on the example data.
- **The sentinel.** The summary counts `"N"` like any other code
  (Final.py:125-145). Only the heatmap drops it (Final.py:52).
  `TexasSentinelCounted` and `ClassifiedPlusSentinel` state both behaviours.

## Model

| member | source | states |
|---|---|---|
| `StrOrder.BelowTotal` | Final.py:126 | any two distinct strings are ordered one way or the other, so the ascending sort of the codes is well defined |
| `StrOrder.BelowTransitive` | Final.py:126 | the string order used for sorting is transitive |
| `SortDedup.Sort` | Final.py:126 | the sorted column is in ascending order and is a rearrangement of the column's values (same multiset) |
| `SortDedup.SortIsTheSortedPermutation` | Final.py:126 | a sequence equals the sort of `xs` if and only if it is sorted and has the same multiset as `xs`, so any sorting algorithm yields the same column |
| `SortDedup.Dedup` | Final.py:127-132 | appending each value not yet collected keeps exactly the set of input values and never repeats one |
| `SortDedup.DedupOfSortedAscending` | Final.py:126-132 | collecting from a sorted column yields a strictly ascending list |
| `SortDedup.AscendingUnique` | Final.py:126-132 | two strictly ascending lists with the same values are equal, so `unique_data` is determined by its set of codes |
| `SortDedup.SortedDistinctCharacterised` | Final.py:125-132 | `unique_data` is the one strictly ascending list that holds exactly the codes of the input: nothing missing, nothing extra, no repeats |
| `SortDedup.SortUnique` | Final.py:126-132 | the sort-then-collect loop returns a strictly ascending list whose elements are exactly the input values |
| `Schools.ColumnNamed` | Final.py:35 | a selector name resolves to a column if and only if it is one of `STATISTICAL_QUERIES`, and the column carries that name |
| `Schools.ColumnNameRoundTrip` | Final.py:35 | every column is offered under its own name and looking that name up gives the column back |
| `Frequency.InStateMembers` | Final.py:125 | a record is in the state subset if and only if it is in the data and its `STATE` equals the selected state |
| `Frequency.StateCodesMembers` | Final.py:125-126 | a code is among the subset's column values if and only if some row of the selected state carries it |
| `Frequency.CountIsMultiplicity` | Final.py:138-143 | counting matching rows one by one gives the code's multiplicity among the column's values |
| `Frequency.CountPositive` | Final.py:138-143 | a code is counted at least once if and only if some row carries it |
| `Frequency.SumOfCounts` | Final.py:137-144 | the counts of distinct codes add up to the number of rows whose code is one of them |
| `Frequency.TabulateIsSummary` | Final.py:125-145 | `unique_data` is strictly ascending; a code is in it if and only if some school of the state carries it; `temp_list` has one entry per code; entry i is the number of the state's schools with code i, `"N"` included |
| `Frequency.SummaryUnique` | Final.py:125-145 | any pair of lists with those four properties is the computed summary, so the description fixes the result completely |
| `Frequency.TabulateCharacterised` | Final.py:125-145 | a pair of lists meets the description above if and only if it equals the computed summary |
| `Frequency.SummaryCounts` | Final.py:137-145 | in a summary every count is at least 1 and the counts add up to the number of the state's schools, `"N"` included |
| `Frequency.FreqGraph` | Final.py:145-149 | the chart's read of `freq_dict[curstate]` fails with `KeyError(curstate)` if and only if no row has that state; otherwise it yields a table that meets the summary description, has at least one code, and equals the computed summary |
| `Frequency.ForeignRecordIgnored` | Final.py:125 | inserting a record of another state anywhere in the data changes neither the summary nor the chart result |
| `Frequency.OnlyStateMatters` | Final.py:125 | summarising only the selected state's records gives the same table as summarising all records |
| `Frequency.TabulateIgnoresRowOrder` | Final.py:125-145 | two data sets holding the same rows in a different order give the same summary |
| `Frequency.FreqGraphLoops` | Final.py:125-145 | the nested loops return a pair that meets the summary description (strictly ascending codes, exactly the state's codes, one count per code, entry i counting the state's schools with code i); every count is at least 1 and the counts sum to the size of the subset |
| `Frequency.CountEach` | Final.py:137-144 | the outer loop appends one count per code, in code order, each the multiplicity of that code among the rows' values |
| `Frequency.CountCode` | Final.py:138-144 | the inner loop's count equals the multiplicity of the code among the subset's column values |
| `Heatmap.ClassifiedKeepsExactly` | Final.py:52 | row j is kept if and only if its code is not `"N"`; kept rows come out in their original order at strictly increasing positions; no other row appears |
| `Heatmap.ClassifiedPlusSentinel` | Final.py:52 | kept rows plus rows coded `"N"` make up the whole input, so the filter never adds a row and drops only sentinel rows |
| `Heatmap.ClassifiedIdempotent` | Final.py:52 | applying the filter to its own output changes nothing |
| `Heatmap.HeatmapPoints` | Final.py:52-53 | one (lon, lat) point per row not coded `"N"`, in row order, taken from that row |
| `StateSelector.StatesList` | Final.py:236-242 | `states_list` is strictly ascending and holds exactly the state codes present in the data |
| `StateSelector.SelectedStateHasChart` | Final.py:244-249 | every state the selector offers has at least one school, so the chart's dictionary read succeeds |
| `Scenarios.MassachusettsLocales` | Final.py:125-149 | three MA schools coded 11, 12, 11 and one CA school give codes `["11", "12"]` with counts `[2, 1]` for MA |
| `Scenarios.NewYorkMissing` | Final.py:145-149 | on the same data, the NY chart fails with `KeyError("NY")` rather than showing an empty table |
| `Scenarios.TexasSentinelCounted` | Final.py:125-145 | two TX schools both coded `"N"` under CBSA give codes `["N"]` with counts `[2]` |

## Left out

- Loading the CSV file with pandas (Final.py:39-45) and renaming `LAT`/`LON` (Final.py:223-224) are file I/O and library calls. The data set is a parameter of every operation.
- All Streamlit, pydeck, mapbox and matplotlib calls are rendering over libraries outside this model. This covers subheaders, layers, decks, bar-chart drawing, widgets, and the descriptive text (Final.py:51, 86-116, 147-159, 166-215, 226-266).
- `freq_dict` (Final.py:135, 145, 149) only holds `temp_list` under the state key. The model keeps the pair of lists, and `FreqGraph` models the failing read.
- Centring the map on the mean latitude and longitude (Final.py:87-88, 182-183) is floating-point arithmetic. Latitude and longitude are `real` fields that are only passed through.
- The colour ramps and tooltip colours (Final.py:57-76, 167-178) are constant lookup tables. Their only logic is that a scheme other than Red, Green or Blue falls through to the purple branch.
- The `worldmap` scatter map (Final.py:163-215) draws the whole data set with no logic of its own.
- Codes are strings ordered like Python `str`. Two cases are not modelled: pandas sorting a purely numeric column as numbers, and missing cells (NaN) in a column. A NaN code never equals itself at Final.py:140, so the program would give it a count of 0. The two lines below follow from this.
- Frequency.SummaryCounts: describes data without missing cells. On data with a NaN code the program would give that code a count of 0, so "every count is at least 1" and "the counts sum to the subset size" would not hold for it.
- Frequency.FreqGraphLoops: the same restriction applies to its last two ensures clauses (counts at least 1, counts summing to the subset size).
- Schools.ColumnNamed: the seven-constructor `Column` type is a restriction of this model. The selector (Final.py:245) only ever offers the names in `STATISTICAL_QUERIES`, so no other name reaches `freq_graph`. pandas would read any column of the frame (for example `STATE`), or raise `KeyError(column)` for a name absent from the frame. `UnknownColumn` stands for every name outside the offered list, including frame columns the program could read.
