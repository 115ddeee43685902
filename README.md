# Bike-rental dashboard: preparation and cumulative query

A Dafny model of the data logic of a small Dash dashboard over bike-rental trip records (`Code/app.py`).
The dashboard does two things with the data:

* **Preparation** runs once at start-up (lines 11-21). Each record's `started_at` text loses every non-overlapping `.510` found in one left-to-right scan. The text is then parsed as a timestamp; a value that does not parse becomes missing (NaT). Records with a missing timestamp are dropped, and a `year` column is derived from the timestamp.
* **Aggregation** is `update_graph(selected_year, selected_column)` (lines 59-67). It keeps the records whose year is at most `selected_year`. It counts them per `(year, key)` pair, where the key is the `rideable_type` or `member_casual` value, and pandas returns the groups sorted by pair. Within each key it adds `cumulative_count`, the running sum of the counts over ascending years.

Modules:

* `Wrappers` (`wrappers.dfy`): the `Option` datatype.
* `Ordering` (`ordering.dfy`): Python's string order, which is lexicographic by code point with a proper prefix first. Also the `(year, key)` order the group-by sorts by, with irreflexivity, transitivity and totality.
* `Preparation` (`preparation.dfy`):
  * `Strip` is the single left-to-right deletion of `.510`.
  * `Clean` is the prepared table as a function of the raw records and a timestamp parser.
  * `PrepareTable` is the same work done the way the source does it: one whole column per step, one loop per source line 12, 15, 18 and 21. It is proved equal to `Clean`.
* `Aggregation` (`aggregation.dfy`):
  * `UpTo` is the year filter.
  * `Insert` and `GroupCount` build the sorted group-count table by ordered insertion.
  * `RunningSums` adds the per-key running total. It walks the rows with one running total per key, as pandas' per-group cumulative sum does.
  * `Query` is the whole callback body.
* `QueryProperties` (`query_properties.dfy`): independent counting functions over records and over groups, and the lemmas that tie the query's rows to them.

The timestamp parser is not re-implemented. This is pandas' parser, told to turn failures into a missing value. Every preparation member takes it as a parameter `parse: string -> Option<Timestamp>`, and the lemmas hold for every such parser.

The comment on line 11 speaks of removing `.510` "if present", as if it were a single suffix. The model follows the code instead. Line 12 is a regular-expression replacement, so it deletes every non-overlapping occurrence anywhere in the text, in one pass. A deletion can therefore join the surrounding text into a new `.510` that stays (`StripIsSinglePass`).

## Model

| member | source | states |
|---|---|---|
| `Preparation.Strip` | Code/app.py:12 | the replacement never lengthens the text |
| `Preparation.StripLength` | Code/app.py:12 | each deletion shortens the text by exactly the four characters of `.510` |
| `Preparation.RemovalsZeroIff` | Code/app.py:12 | the scan deletes something if and only if the text contains `.510` |
| `Preparation.NoMarkerUnchanged` | Code/app.py:12 | a text without `.510` is left as it is |
| `Preparation.StripUnchangedIff` | Code/app.py:12 | the text is unchanged if and only if it contains no `.510` |
| `Preparation.StripTrailingMarker` | Code/app.py:11-12 | a text ending in `.510` becomes exactly what the text without that suffix becomes |
| `Preparation.StripIsSinglePass` | Code/app.py:12 | the replacement is one pass: `..510510` becomes `.510`, which still contains the pattern |
| `Preparation.StripExample` | Code/app.py:11-12 | `2021-05-01 10:00:00.510` is cleaned to `2021-05-01 10:00:00` |
| `Preparation.Clean` | Code/app.py:12-21 | the prepared table is no longer than the input, and every record's `year` is the year of its parsed timestamp |
| `Preparation.PrepareTable` | Code/app.py:12-21 | stripping the column, parsing it, dropping missing timestamps and adding the year column, step by step, yields exactly `Clean` |
| `Preparation.CleanAppend` | Code/app.py:18 | preparation is a per-record filter: it distributes over concatenation, so surviving records keep their relative order |
| `Preparation.CleanDropsUnparsed` | Code/app.py:15-18 | a record whose stripped text fails to parse is removed and leaves the rest as they were |
| `Preparation.CleanKeepsParsed` | Code/app.py:15-21 | a record whose stripped text parses is kept in its place, with its categorical fields unchanged and its year from the parsed timestamp |
| `Preparation.CleanSound` | Code/app.py:12-21 | every prepared record comes from an input record whose stripped text parsed to its timestamp and that has the same `rideable_type` and `member_casual` |
| `Preparation.CleanKeepsAllIff` | Code/app.py:15-18 | no record is dropped if and only if every record's stripped text parses |
| `Preparation.MarkerSuffixIgnored` | Code/app.py:12-21 | a record whose text carries the `.510` suffix prepares exactly like the record without it |
| `Ordering.StrLessIrreflexive` | Code/app.py:64 | no key sorts before itself |
| `Ordering.StrLessTransitive` | Code/app.py:64 | the key order is transitive |
| `Ordering.StrLessTotal` | Code/app.py:64 | any two different keys are ordered one way or the other |
| `Aggregation.UpTo` | Code/app.py:61 | the filter keeps a record if and only if it is in the table and its year is at most the selected year, and keeps it exactly as many times as the table holds it |
| `Aggregation.Insert` | Code/app.py:64 | counting one more record adds its pair to the set of pairs with a group and no other pair |
| `Aggregation.InsertPositive` | Code/app.py:64 | counting one more record keeps every group size positive |
| `Aggregation.GroupCount` | Code/app.py:64 | the pairs with a group are exactly the (year, key) pairs of the records, and every group has a positive size |
| `Aggregation.Query` | Code/app.py:59-67 | the callback's rows: filter, group count and per-key running total; every output row has a year at most the selected year |
| `Aggregation.RunningSums` | Code/app.py:67 | adding `cumulative_count` leaves the year, key and count of every row as they were |
| `QueryProperties.InsertKeepsOrder` | Code/app.py:64 | counting one more record keeps the groups in strictly ascending (year, key) order |
| `QueryProperties.GroupCountOrdered` | Code/app.py:64 | the group-count table is strictly ascending by (year, key) |
| `QueryProperties.InsertSums` | Code/app.py:64 | counting a record adds one to its own pair's tally, to the key totals of its key from its year on, and to the grand total, and changes no other tally |
| `QueryProperties.GroupCountSums` | Code/app.py:64 | the group sizes count the records: per pair, per key up to a year, and in total |
| `QueryProperties.TallyOfOrdered` | Code/app.py:64 | in the sorted table a group's size is the whole tally of its pair |
| `QueryProperties.RunningSumsAt` | Code/app.py:67 | a row's running total is the key's earlier total plus the counts of that key in the rows up to and including it |
| `QueryProperties.PrefixIsUpTo` | Code/app.py:67 | in the sorted table, the rows of a key up to row i are exactly the rows of that key with a year at most row i's year |
| `QueryProperties.KeyTotalMonotone` | Code/app.py:67 | a key's total up to a year does not decrease as the year grows |
| `QueryProperties.KeyTotalGrows` | Code/app.py:67 | a later group of the key adds its whole count to the key's total |
| `QueryProperties.UpToKeepsAll` | Code/app.py:61 | the filter returns the whole table, in order, when no record lies past the selected year |
| `QueryProperties.CountsUnderCutoff` | Code/app.py:61 | for years within the cutoff, counting in the filtered records equals counting in the whole table |
| `QueryProperties.QueryEmptyIff` | Code/app.py:61-64 | the output is empty if and only if the selected year is below every record's year |
| `QueryProperties.QueryOrdered` | Code/app.py:64 | rows are strictly ascending by (year, key), so no (year, key) pair occurs twice |
| `QueryProperties.QueryCounts` | Code/app.py:61-64 | every row's count is at least 1 and equals the number of table records with its year and key; every record within the cutoff has the row of its pair |
| `QueryProperties.QueryConservesCount` | Code/app.py:61-64 | the counts of all rows add up to the number of records with a year at most the selected year |
| `QueryProperties.QueryCumulative` | Code/app.py:61-67 | a row's `cumulative_count` equals the sum of the counts of the rows with its key and a year at most its year, which is the number of table records with that key and a year at most its year |
| `QueryProperties.QueryMonotone` | Code/app.py:67 | `cumulative_count` is at least the row's own count; within a key it grows with the year by at least the later row's count |
| `QueryProperties.UnparsedNeverCounted` | Code/app.py:15-64 | a record whose timestamp text fails to parse changes no query's output |
| `QueryProperties.QueryExample` | Code/app.py:59-67 | two 2019 records with keys c < e and one 2020 record with key e, cutoff 2020, give (2019, c, 1, 1), (2019, e, 1, 1), (2020, e, 1, 2) |
| `QueryProperties.ClassicBeforeElectric` | Code/app.py:64 | `classic_bike` sorts before `electric_bike`, so the ride types `classic_bike` and `electric_bike` are an instance of `QueryExample` |

## Left out

- Loading the CSV file from a fixed path, with the station identifiers read as text (lines 8-9). This is file I/O. The station identifier columns are never used by the logic, so records carry only `started_at`, `rideable_type` and `member_casual`.
- `astype(str)` on line 12. Each raw `started_at` is already text in the model. A missing cell reaches the parser as the text `nan`, and what happens to it is up to the parser parameter.
- pandas' timestamp parser (line 15). It is a foreign library routine, so it is a parameter that returns a timestamp or nothing. Only the year of a timestamp is used.
- The parser works on one text at a time in the model. pandas parses the whole column at once: it infers one format from the first non-null text, and with coercion a row in another format becomes missing. Whether a row survives can therefore depend on the other rows. The lemmas `CleanAppend`, `CleanDropsUnparsed`, `CleanKeepsParsed`, `MarkerSuffixIgnored` and `UnparsedNeverCounted` hold only for a parser that works row by row.
- The Dash application, its layout, the dropdown options, the slider bounds and marks (lines 24-52), the callback binding (lines 55-58), the Plotly bar chart (lines 70-71) and the server start (lines 76-77). These are UI wiring and rendering by external libraries.
- Missing `rideable_type` or `member_casual` values. pandas' `groupby` silently leaves such records out of every group. The model's keys are always strings, so `QueryConservesCount` and `QueryCounts` hold only for tables without missing categorical values.
- A `selected_column` other than the two dropdown values. The source would fail with a missing-column error; here the column is a two-valued datatype, so that case cannot arise.
- Integer widths. Years and counts are unbounded integers rather than pandas' fixed-width integers, which cannot overflow at this data size.
- Running preparation a second time on an already prepared table. That would need the timestamps rendered back to text, which the source never does. `CleanKeepsAllIff` states the nearest property: nothing is dropped when every text parses.
- A count of dropped records. The source does not expose one, so the model does not either.
