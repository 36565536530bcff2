# PoolmonViz `PoolEntries` in Dafny

This project models the `PoolEntries` class of PoolmonViz (`visualize.py`) and proves its contracts. The class reads Windows poolmon snapshot files, one per moment in time, and merges them into one time-ordered table of kernel memory-pool usage per tag. It then ranks tags by peak, average or growth, and prepares the plot of the selected tags.

The model works on snapshots that are already parsed, one table each. A table has:
- a schema, which is a sequence of named columns, each integer, datetime (as integer ticks) or string;
- a sequence of rows, each mapping column names to values.

Modules:

- `Results`: the `Option`/`Result` wrappers and the `Error` type. `Error` has one constructor per kind of failure; `MissingColumn` stands for every KeyError on an absent column. It also has `SchemaMismatch`, which the model raises itself (see "## Left out").
- `Seqs`: sequence helpers.
  - `Unique` behaves like pandas `unique()`: distinct values, in order of first appearance.
  - `SortBy` is an insertion sort that promises only a sorted permutation.
  - `Head` is Python's `[:n]`, including the negative `n` that `DataFrame.head` accepts.
- `Tables`: columns, values, rows, well-formedness, and the column names the core uses.
- `Encoding`: the byte-order-mark sniffer `get_encoding`.
- `Totals`: `add_totals_row`, and the concatenation of augmented snapshots.
- `Aggregate`: the later steps of `digest`.
  - It keeps scanning the columns and ends up with the *last* datetime column.
  - It sorts by that column.
  - It derives the `TotalDiff` column.
- `Ranking`: the three rankings as pure functions. Scores are exact reals: maximum, mean, and the percentage change `((last - first) * 100) / (last + 0.001)`.
- `Plotting`: the data side of `show_plot`: the row filter, the MB rescale, the title, and a pivot keyed by (`DateTimeUTC`, `Tag`).
- `TagSelection`: the `VALID_COLUMNS` and `VALID_TIME_COLUMNS` constants, one ranking call's outcome, and the tag union of `do_plot`.
- `Pool`: the stateful class `PoolEntries`.
  - Fields: the snapshot buffer (`individual_data_frames`), the aggregated table (`pool_entries`) and the `digest_called` flag.
  - Methods: `Digest`, `GetDf`, `GetAllTags`, the three rankings, `ShowPlot` and `DoPlot`.
  - The caller's ignore list is a `TagList` object that the rankings append to in place.

Three points of the code that a reader might expect otherwise:
- The endpoint-delta ranking has only a percentage mode (visualize.py:282-285).
- The scan over the column types keeps the *last* datetime column, not the first, as the sort column (visualize.py:173-174).
- `sort_values` runs with its default, unstable sort (visualize.py:176-180), so the model promises order up to ties only.

## Model

| member | source | states |
|---|---|---|
| Encoding.Leading | visualize.py:66 | the bytes read are the file's first min(64, size) bytes: the whole file when it is shorter than 64 bytes |
| Encoding.MatchesFirst | visualize.py:76-77 | the comprehension's first element is the encoding of the first mark in table order that starts the bytes |
| Encoding.MatchesNone | visualize.py:76-79 | when no mark matches, the comprehension is empty, so indexing it fails and the fallback runs |
| Encoding.MatchesSound | visualize.py:76-77 | every encoding the comprehension lists belongs to an entry whose mark starts the bytes |
| Encoding.SniffSpec | visualize.py:65-79 | the answer is the encoding of the first entry whose mark is a prefix of the first 64 bytes, and "utf-8" when none is |
| Encoding.GetEncoding | visualize.py:50-79 | get_encoding answers "utf-8" or the encoding of an entry of the BOM table whose mark starts the file's first 64 bytes |
| Encoding.NoLittleEndianAnswer | visualize.py:67-77 | with FF FE as the native UTF-16 mark, the sniffer never answers "utf-32le" or "utf-16le" |
| Encoding.Utf32LeFileReadAsUtf16 | visualize.py:67-77 | a file starting FF FE 00 00 (the UTF-32-LE mark) is classed "utf-16", whose mark is shorter than the matching UTF-32-LE mark |
| Encoding.IntendedMarks | visualize.py:67-74 | in the reordered table each encoding is answered by its own entry's mark |
| Encoding.AnswerFromFirst | visualize.py:76-77 | the answer carries the first matching entry's mark, so it is the longest once no later match is longer |
| Encoding.IntendedPrefersLongestMark | visualize.py:67-74 | with UTF-32 tried before UTF-16, the answer's mark is at least as long as every mark that matches |
| Tables.KindOf | visualize.py:135 | a column has a declared kind exactly when its name is in the schema |
| Tables.KindOfAt | visualize.py:135 | with distinct column names, the kind looked up for a schema column is that column's own kind |
| Tables.KindCell | visualize.py:182-183 | with distinct column names, a row that fits the schema holds a cell of the declared kind in every schema column, so `df[col]` of an integer column reads an integer |
| Totals.TotalsRowCells | visualize.py:135-142 | Tag is "TOTAL"; every integer column holds its column sum; every other column copies row 0 |
| Totals.TotalsRow | visualize.py:135-140 | the TOTAL row has row 0's columns; integer columns hold their column sums, a non-integer Tag holds "TOTAL", other columns copy row 0 |
| Totals.TotalsRowSpec | visualize.py:135-142 | the TOTAL row fits the schema, so the augmented snapshot is well-formed; it has one more row, the original rows untouched and the TOTAL row last |
| Totals.WithTotals | visualize.py:141 | `df.append` keeps the schema and every original row and adds the TOTAL row last |
| Totals.AugmentedFits | visualize.py:141 | every row of a snapshot with its TOTAL row appended, the TOTAL row included, fits the snapshot's schema |
| Totals.TotalsRowIs | visualize.py:138-140 | a row with row 0's keys whose every schema column holds the total cell is the TOTAL row |
| Totals.TotalStep | visualize.py:138-140 | one pass of the column loop sets that column to its final value and touches no other column |
| Totals.AddTotalsRow | visualize.py:135-142 | an empty snapshot fails (no row 0); otherwise the column loop builds exactly the TOTAL row and appends it |
| Totals.WithTotalsAll | visualize.py:161-164 | one augmented table per buffered snapshot, entry i being snapshot i with its TOTAL row |
| Totals.WithTotalsAllSnoc | visualize.py:161-164 | augmenting one more snapshot extends the augmented list by that snapshot |
| Totals.ConcatRows | visualize.py:165 | `pd.concat` holds exactly the rows of the given tables |
| Totals.ConcatWithTotalsLength | visualize.py:161-165 | the concatenation has the sum over snapshots of (rows + 1) rows |
| Totals.ConcatWithTotalsContains | visualize.py:161-165 | every snapshot's rows and its TOTAL row occur in the concatenation, counting repeats |
| Totals.ConcatContains | visualize.py:165 | every table's rows occur in `pd.concat` of the tables, counting repeats |
| Totals.ConcatHoldsAll | visualize.py:161-165 | every snapshot row and every TOTAL row is a row of the concatenation (the membership reading of ConcatWithTotalsContains) |
| Aggregate.LastTimeColumnSpec | visualize.py:171-174 | no sort column iff no datetime column; otherwise it is a datetime column with no datetime column after it |
| Aggregate.FindSortColumn | visualize.py:171-174 | the scan over the column types ends holding the last datetime column, or None |
| Aggregate.SortByTime | visualize.py:176-180 | the sorted rows are a permutation of the input, ascending on the sort column |
| Aggregate.AddTotalDiff | visualize.py:182-183 | the column assignment keeps the row count and gives each row, in order, its TotalDiff cell |
| Aggregate.TotalDiffHolds | visualize.py:182-183 | every row gains TotalDiff = PagedDiff + NonPagedDiff and no other cell changes |
| Aggregate.WithTotalDiffSpec | visualize.py:182-183 | one row gains exactly the TotalDiff cell, equal to PagedDiff + NonPagedDiff, and keeps every other cell |
| Aggregate.TotalDiffKeepsOrder | visualize.py:176-183 | deriving TotalDiff keeps the rows sorted on any other column |
| Aggregate.SortedAggregate | visualize.py:176-183 | after sorting and deriving TotalDiff there are as many rows, each input row appears with TotalDiff set, TotalDiff = PagedDiff + NonPagedDiff everywhere, and the time order holds unless the sort column is TotalDiff |
| Aggregate.WithTotalDiffColumn | visualize.py:182-183 | the schema gains TotalDiff as an integer column, and no other name |
| Aggregate.WithTotalDiffColumnShape | visualize.py:182-183 | the extended schema keeps distinct names, holds TotalDiff as an integer column and otherwise only columns of the old schema |
| Aggregate.WithTotalDiffFits | visualize.py:182-183 | a row that fits the schema still fits it after gaining its TotalDiff cell |
| Aggregate.AddTotalDiffWellFormed | visualize.py:182-183 | deriving TotalDiff on rows that fit the schema gives a well-formed table under the extended schema |
| Seqs.Unique | visualize.py:215 | the result has no repeats and holds exactly the input's elements |
| Seqs.UniqueFirstSeenOrder | visualize.py:215 | the distinct values come in order of first appearance |
| Seqs.UniqueCardinality | visualize.py:248 | there are as many distinct values as elements in the input's set (one group per tag) |
| Seqs.UniqueSnoc | visualize.py:489-491 | appending a value keeps the distinct list, or extends it by that value when it is new |
| Seqs.UniqueOfDistinct | visualize.py:479 | a list without repeats is its own distinct list |
| Seqs.UniqueOfUniquePrefix | visualize.py:495-506 | taking distinct values after each stage equals taking them once over the whole concatenation |
| Seqs.FirstIndex | visualize.py:284 | the position of a value's first occurrence |
| Seqs.LastIndex | visualize.py:284 | the position of a value's last occurrence |
| Seqs.FirstIndexUnique | visualize.py:284 | an occurrence with none before it is the first occurrence |
| Seqs.Insert | visualize.py:250 | inserting adds exactly the one element, counting repeats |
| Seqs.InsertAscending | visualize.py:250 | inserting into an ascending list keeps it ascending |
| Seqs.InsertDistinct | visualize.py:250 | inserting a new element into a repeat-free list keeps it repeat-free |
| Seqs.SortBy | visualize.py:250 | the sort is a permutation, ascending by the key, and keeps a repeat-free list repeat-free |
| Seqs.PrefixOfAscending | visualize.py:250-251 | in an ascending list, nothing outside a prefix has a key below anything inside it |
| Seqs.HeadOfAscending | visualize.py:250-251 | head(n) of an ascending list stays ascending and repeat-free, and no dropped element has a key below a kept one |
| Seqs.Head | visualize.py:251 | head(n) is a prefix of length min(n, size) for n >= 0, and drops \|n\| elements from the end for n < 0 |
| Ranking.Tags | visualize.py:246 | the tag column, position by position |
| Ranking.KeptTags | visualize.py:245-246 | the tags left after the isin filter are exactly the table's tags that are not ignored |
| Ranking.EligibleCount | visualize.py:245-248 | the groups are exactly the distinct unignored tags, one per tag |
| Ranking.GroupValues | visualize.py:248 | a tag's group is non-empty exactly when the tag occurs |
| Ranking.GroupValuesMembers | visualize.py:247-248 | a group holds exactly the by_col values of the rows carrying its tag |
| Ranking.GroupValuesComplete | visualize.py:247-248 | every row of the tag contributes its by_col value to the group |
| Ranking.GroupValuesSound | visualize.py:247-248 | every value of the group is the by_col of some row of the tag |
| Seqs.LastIndexSnoc | visualize.py:284 | after appending a value, its last occurrence is the new position, and any other value's last occurrence is unchanged |
| Ranking.GroupFirst | visualize.py:284 | a group's first value is the by_col of the tag's first row in table order |
| Ranking.GroupLast | visualize.py:284 | a group's last value is the by_col of the tag's last row in table order |
| Ranking.MaxOf | visualize.py:249 | the maximum is a member of the group and no member exceeds it |
| Ranking.PeakIsTagMaximum | visualize.py:248-249 | the peak score bounds every row of the tag and is attained by one of them |
| Ranking.ChangeUsesEndpoints | visualize.py:282-285 | the change score is the percentage change between the tag's first and last rows in table order |
| Ranking.PercentChange | visualize.py:282-285 | get_change: for a non-negative last value the change is positive iff the value grew, and zero iff it stayed |
| Ranking.SumAtMost | visualize.py:341 | a group's sum is at most its size times any upper bound |
| Ranking.MeanAtMostMax | visualize.py:341 | a group's mean never exceeds its maximum |
| Ranking.MeanAtMostPeak | visualize.py:339-343 | a tag's average score never exceeds its peak score |
| Ranking.TagRows | visualize.py:339-341 | the rows of one tag, in table order: a row is kept iff it carries the tag |
| Ranking.GroupCount | visualize.py:339-343 | a tag's group has one value per row carrying the tag, as many as the tag's occurrences |
| Ranking.GroupSum | visualize.py:339-343 | the sum of a tag's group is the by_col sum over the tag's rows |
| Ranking.MeanIsTagAverage | visualize.py:339-343 | the mean score of a present tag is the by_col sum over its rows divided by the number of its rows |
| Ranking.SortedEligible | visualize.py:245-250 | the sorted groups hold each eligible tag once, in descending score order |
| Ranking.RankedPrefix | visualize.py:248-251 | head of the descending sort: repeat-free, unignored present tags, all groups counted, scores non-increasing, nothing left out scores above anything kept |
| Ranking.RankTags | visualize.py:245-252 | the ranking holds distinct present unignored tags and no more than head(n) allows (min(n, groups), or groups + n for n < 0); scores are non-increasing along it; no eligible tag left out scores above a tag kept |
| Plotting.UnitsAgree | visualize.py:395-401 | the title ends " (MB)" exactly for columns ending "Bytes" (" (n_allocs)" otherwise), and then values are divided by 1024 * 1024 |
| Plotting.PlotRows | visualize.py:391 | the rows kept are exactly the rows whose tag is selected |
| Plotting.PivotCells | visualize.py:403-406 | the pivot exists iff no two rows share (DateTimeUTC, Tag), and then its keys are exactly the rows' keys |
| Plotting.PivotCellValues | visualize.py:403-406 | each row's rescaled value sits in the cell of its key |
| Plotting.SelectedCells | visualize.py:391-406 | every selected row has a cell holding its rescaled value, and every cell comes from a selected row |
| TagSelection.RankOutcome | visualize.py:242-252 | a ranking fails on a table that is still None, and on a by_col that is not an integer column; otherwise it returns distinct present unignored tags |
| TagSelection.AddRanking | visualize.py:480-492 | select_tags passes an earlier failure on; it fails itself only when it runs (n > 0) on an unrankable table; the list's first tag stays first |
| TagSelection.AddRankingStep | visualize.py:480-492 | one select_tags step on a distinct list is the distinct list of that list followed by the ranking |
| TagSelection.Union | visualize.py:479-506 | all_tags fails only on an unrankable table with some ranking asked for, and otherwise starts with TOTAL |
| TagSelection.UnionSpec | visualize.py:479-506 | on a rankable table, the tag list is the first-seen distinct order of TOTAL, then most changed, highest, highest average; TOTAL leads and nothing repeats |
| TagSelection.UnionMembers | visualize.py:479-506 | the tag list holds TOTAL and every tag of every ranking that ran, and nothing else; every tag but TOTAL is present and unignored |
| TagSelection.UniqueLeads | visualize.py:479 | TOTAL, put first, stays first |
| TagSelection.UnionFails | visualize.py:484-488 | on an unrankable table the first ranking that runs fails the union; with no ranking run the list is ["TOTAL"] |
| TagSelection.RankingsRun | visualize.py:484-488 | no more appends than rankings; at most one on an unrankable table; none exactly when no n is positive |
| TagSelection.RunsOfThree | visualize.py:495-506 | do_plot's three rankings append once per positive n, or once in all when the first one that runs fails |
| TagSelection.RunsOfUnion | visualize.py:495-506 | the number of TOTAL appends counts the rankings with positive n that run after no earlier failure |
| TagSelection.TotalCopies | visualize.py:244 | n appends of TOTAL |
| TagSelection.IgnoredAfterTotals | visualize.py:244-246 | repeated TOTAL appends leave the ignored set unchanged |
| TagSelection.AppendUnseen | visualize.py:489-491 | the append loop yields the distinct first-seen order of the tags so far followed by the ranking, keeping the earlier tags as a prefix |
| TagSelection.AppendStep | visualize.py:489-491 | one pass of the append loop: a tag not yet listed is appended, a listed one is skipped, and the result is still the first-seen order with the earlier tags as a prefix |
| Pool.AugmentAll | visualize.py:161-164 | the loop fails with the empty-snapshot error exactly when some snapshot is empty, and otherwise yields every augmented snapshot in order |
| Pool.PoolEntries.constructor | visualize.py:43-46 | a new instance has an empty buffer, no table and the flag clear |
| Pool.PoolEntries.AddSnapshot | visualize.py:109 | the snapshot is appended to the buffer; refused once digest has discarded the buffer, or when its columns differ from the first snapshot's |
| Pool.PoolEntries.Digest | visualize.py:157-184 | a second call fails and changes nothing; a first call sets the flag and then fails or succeeds exactly as the code does: on an empty snapshot (buffer kept), on no snapshots, on no datetime column (table unsorted), or on a missing PagedDiff/NonPagedDiff (table sorted); from the concatenation on the buffer is gone; a successful first call returns a well-formed table |
| Pool.PoolEntries.SortAndDerive | visualize.py:171-184 | after the concatenation: no datetime column fails with the table unsorted; otherwise the table is sorted by the last datetime column, then a missing PagedDiff or NonPagedDiff fails with it sorted, else TotalDiff is derived and the table returned |
| Pool.PoolEntries.DigestIfNeeded | visualize.py:199 | digests only when the flag is clear and passes that digest's failure on |
| Pool.PoolEntries.GetDf | visualize.py:199-200 | the lazy digest's failure, or the table as it stands (None, or half done after an earlier failure) |
| Pool.PoolEntries.GetAllTags | visualize.py:214-215 | the lazy digest's failure, a failure on a None table, or the distinct tags of the table in first-seen order |
| Pool.PoolEntries.Rank | visualize.py:242-252 | a shared ignore list gains exactly one TOTAL first; the result is the ranking on the table as it stands, filtered by the list plus TOTAL, and never contains TOTAL |
| Pool.PoolEntries.HighestTags | visualize.py:242-252 | the peak ranking on the table, with the ignore-list append |
| Pool.PoolEntries.MostChangedTags | visualize.py:282-301 | the percentage-change ranking on the table, with the ignore-list append |
| Pool.PoolEntries.HighestAverageTags | visualize.py:331-345 | the mean ranking on the table, with the ignore-list append |
| Pool.PoolEntries.ShowPlot | visualize.py:382-401 | the timestamp selector is checked first, then the column name, before the table is touched; a plot exists only for valid selectors and a digested table, titled and formatted by by_col |
| Pool.PoolEntries.SelectTags | visualize.py:480-492 | with n > 0 the ranking runs and its unseen tags are appended; with n <= 0, or after an earlier failure, nothing happens |
| Pool.PoolEntries.SelectAll | visualize.py:495-506 | the three rankings in do_plot's order give exactly the union, and a shared list gains one TOTAL per ranking run |
| Pool.PoolEntries.DoPlot | visualize.py:468-509 | an invalid timestamp or column name fails before anything changes; then the lazy digest; then the union of rankings goes to show_plot; a shared ignore list gains one TOTAL per ranking run |
| Pool.DigestedRows | visualize.py:161-183 | a successful digest has sum(rows + 1) rows, holds every snapshot row and TOTAL row (with TotalDiff), satisfies TotalDiff = PagedDiff + NonPagedDiff on every row and is time-ordered |
| Pool.AggregatedOk | visualize.py:171-183 | when the steps after the concatenation succeed, the table has as many rows, each concatenated row with TotalDiff derived, the sum on every row, and time order unless the sort column is TotalDiff |
| Pool.DigestedWellFormed | visualize.py:161-183 | a successful digest of a buffer of well-formed snapshots sharing one schema is a well-formed table whose schema is that schema plus TotalDiff, and every row holds integer PagedDiff, NonPagedDiff and TotalDiff cells |
| Pool.PermutationFits | visualize.py:176-180 | sorting keeps every row fitting the schema |
| Pool.ConcatRowsFit | visualize.py:161-165 | every row of the concatenation of augmented snapshots sharing one schema fits that schema |
| Pool.DiffCellsPresent | visualize.py:182-183 | with PagedDiff and NonPagedDiff integer columns, every row holds integer PagedDiff, NonPagedDiff and, once derived, TotalDiff cells |
| Pool.ShowPlotSpec | visualize.py:382-406 | show_plot succeeds iff the selectors are valid, the table and its columns exist and no (DateTimeUTC, Tag) pair repeats; its cells are exactly the selected rows' rescaled values; the units agree; the timestamp selector makes no difference |

## Left out

- CSV reading and parsing (`read_csv`, `to_datetime`, dtype inference, visualize.py:98-108): snapshots arrive as typed tables. The model assumes appending the TOTAL row keeps each column's type, as the code relies on.
- File discovery, the command line, and all matplotlib/seaborn rendering: `rcParams`, formatters, styles, `plt.show`, and the `print` of each ranking. The plot is modelled as its data: title, y format and pivot cells.
- IEEE floating point: the mean, the percentage change and the MB rescale are exact reals.
- 64-bit integer overflow of column sums and of TotalDiff: integers are unbounded.
- Tie order: the sort and the rankings promise order up to equal keys only. The model's own insertion sort fixes one order among the allowed ones.
- Pool.PoolEntries.AddSnapshot: refuses a snapshot whose schema differs from the first snapshot's as a sequence of (name, type) columns. That includes a snapshot with the same columns in another order, which `pd.concat` would align by name, and one with a column of another type, which pandas would convert to a common type. A snapshot with other column names would be outer-joined with NaN fill, and the model has no value for NaN.
- Pool.PoolEntries.Digest: a PagedDiff or NonPagedDiff column that exists but is not integer-typed is refused like a missing one. pandas would add strings or fail with a TypeError.
- TagSelection.RankOutcome: a by_col that exists but is not integer-typed is refused like a missing one. pandas would rank strings or datetimes.
- Pool.PoolEntries.ShowPlot: a by_col or DateTimeUTC column that exists with the wrong type is refused like a missing one. The pivot is a map from (DateTimeUTC, Tag) to a value, so it says nothing about the order of the pivot's rows or columns.
- `include_tags` of do_plot: normalised but never read (visualize.py:474-475), so the model drops the parameter.
- The mutable default `ignore_tags=[]` of the ranking methods: the list persists across calls and keeps collecting TOTAL. That changes nothing a ranking returns, so a call without a list is modelled as `NoList`. A caller-shared list is the `Shared` case, mutated in the caller's object.
- The exceptions are typed `Error` values. An exception raised inside a nested call is modelled as that call's `Err` being passed on unchanged.

## Findings

| source | as written | input that shows it | evidently intended | confidence | as-written member | corrected member |
|---|---|---|---|---|---|---|
| visualize.py:67-77 | the BOM table tries the two-byte native UTF-16 mark FF FE before the four-byte UTF-32-LE mark FF FE 00 00, so the first match wins with the shorter mark | a file starting FF FE 00 00 (UTF-32-LE with BOM) is classed "utf-16"; "utf-32le" and "utf-16le" are never returned | try the UTF-32 marks before the UTF-16 marks, so the longest matching mark decides | not executed; medium | Encoding.Utf32LeFileReadAsUtf16 | Encoding.IntendedPrefersLongestMark |
