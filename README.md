# Data quality reports, modelled in Dafny

The repository profiles the columns of a pandas data frame. For each column it records:
- the type label;
- the number of present (non-missing) values;
- the percentage of missing values;
- the number of distinct present values.

A column with exactly two distinct values is relabelled `"object"`, because it is read as a boolean. The columns are then split into two tables:
- a continuous table, for every label other than `"object"`;
- a categorical table, for `"object"`.

The continuous rows gain summary statistics. The categorical rows gain:
- the mode, with its frequency and its share of the rows;
- the second most frequent value, with its frequency and share.

There are two versions:
- the `DQR` class (`data_quality_reports/dqr.py`), which also sorts both tables by missing percentage, highest first;
- the earlier script function `dqr(df)` (`data_quality_report.py`), which does not sort and does not guard the second mode.

The model has these modules:
- `Frame` (frame.dfy): a frame is a row count and a sequence of named columns. Each column's cells are `Option<V>`, where `None` is a missing value. Columns are found by name.
- `ColumnStats` (columns.dfy): `Count`, `Cardinality` and `Occurrences` of a column's cells. `Percent` and `MissingPercent` are exact rationals.
- `ValueCounts` (value_counts.dfy): pandas' `value_counts()` is the distinct present values, each with its frequency, sorted by frequency, highest first. `mode()` is a present value of highest frequency.
- `DataTypes` (data_types.dfy): the `data_types` table, built by the method `GetDataTypes`. Its first loop records each column's metadata. Its second loop overwrites the labels of cardinality-2 rows in place.
- `Partition` (partition.dfy): boolean-mask selection, which keeps rows in order. It holds the class's two masks and the draft's two masks.
- `Summaries` (summaries.dfy): the statistics appended to the rows. The continuous statistics are an opaque `describe`. The categorical statistics are `ModeStats`.
- `Sorting` (sorting.dfy): the in-place sort of a report table by `missing`, descending, on an `array`.
- `Report` (report.dfy): the class `DQR`. Its constructor fills `dataTypes`, `continuousData` and `categoricalData`, and two getters return the tables.
- `Draft` (draft.dfy): the function `dqr(df)`. It returns `Err(RoundError)` when `round()` raises on a continuous column's statistics, and `Err(LookupError)` when a value-count lookup has no entry. These are the two failures modelled. `round()` always raises on a datetime column, whose minimum is a Timestamp. For other labels, the caller-supplied predicate `raises(label, cells)` decides.

Points where the code's behaviour is easy to misread, and what the model does:
- **Sort stability.** `sort_values` with its default algorithm is not stable. The model promises only that the table is non-increasing in `missing` and is a permutation of the selected rows. It says nothing about the order of rows with equal `missing`.
- **Datetime columns.** The class's masks carry a clause for `"datetime64[ns]"`, but that label is never `"object"`. So both masks reduce to plain comparisons with `"object"`, and datetime columns go to the continuous table. `Partition.ContinuousMask`, `Partition.CategoricalMask` and `Partition.MasksAgree` prove this.
- **Zero columns.** A frame with no columns gives two empty tables, in the code and in the model.
- **All-missing categorical columns.** On a categorical column with no present value, the code raises, because `mode().values[0]` has nothing to index. The model makes a present value in every categorical column a precondition of the class. In the draft, such a column has cardinality 0, so the draft's `Err(LookupError)` covers it.

## Model

| member | source | states |
|---|---|---|
| Frame.IndexOf | data_quality_reports/dqr.py:172 | Returns the position of the first column bearing the name. No earlier column has that name. |
| Frame.ColumnNamed | data_quality_reports/dqr.py:172 | `df[name]` is a column of the frame, and that column has the name. |
| Frame.ColumnNamedFindsColumn | data_quality_reports/dqr.py:68 | In a valid frame (names distinct), looking up any column's name finds that column. |
| ColumnStats.Count | data_quality_reports/dqr.py:66 | `count()` is at most the row count. It equals the row count iff no cell is missing, and it is 0 iff every cell is missing. |
| ColumnStats.Distinct | data_quality_reports/dqr.py:68 | The set of values of the present cells, which `nunique()` counts. Missing cells contribute nothing. `ColumnStats.InDistinct` proves membership: a value is in the set iff some cell holds it. |
| ColumnStats.Cardinality | data_quality_reports/dqr.py:68 | `nunique()` is the size of `Distinct`. `ColumnStats.CardinalityBounds` proves it is at most `count()`, and 0 iff `count()` is 0. |
| ColumnStats.InDistinct | data_quality_reports/dqr.py:68 | A value is among the distinct values counted by `nunique` iff it occurs as a present cell. |
| ColumnStats.DistinctCons | data_quality_reports/dqr.py:68 | The distinct values of a column are those of its first cell plus those of the rest. |
| ColumnStats.CardinalityBounds | data_quality_reports/dqr.py:66-68 | `nunique() <= count()`, and `nunique() == 0` iff `count() == 0`. |
| ColumnStats.Occurrences | data_quality_reports/dqr.py:173 | A value's frequency is at most `count()`, and it is positive iff the value occurs. |
| ColumnStats.OccurrencesOfTwo | data_quality_reports/dqr.py:173-180 | The frequencies of two different values add up to at most `count()`. |
| ColumnStats.Percent | data_quality_reports/dqr.py:174 | `k / n * 100` is non-negative. It is 0 iff k is 0, at most 100 when k <= n, and exactly 100 iff k == n. |
| ColumnStats.PercentAdd | data_quality_reports/dqr.py:67 | Percentages of the same row count add up. |
| ColumnStats.PercentMonotone | data_quality_reports/dqr.py:174 | A larger count never gives a smaller percentage. |
| ColumnStats.MissingPercent | data_quality_reports/dqr.py:67 | `missing` lies in [0, 100]. It is 0 iff nothing is missing and 100 iff everything is. It and the present share sum to 100. |
| ValueCounts.Keys | data_quality_reports/dqr.py:173 | Lists each present value exactly once, so there are `nunique()` keys. |
| ValueCounts.InsertByFrequency | data_quality_reports/dqr.py:173 | Inserting a key into a frequency-descending list keeps it frequency-descending and adds exactly that key. |
| ValueCounts.TailOrdered | data_quality_reports/dqr.py:173 | The tail of a frequency-ordered key list is frequency-ordered and no more frequent than its head. |
| ValueCounts.ConsUnique | data_quality_reports/dqr.py:173 | Putting a new key in front of a repeat-free list keeps it repeat-free. |
| ValueCounts.ConsByFrequency | data_quality_reports/dqr.py:173 | A key at least as frequent as all keys of a frequency-ordered list can go in front. |
| ValueCounts.SortByFrequency | data_quality_reports/dqr.py:173 | The result has the same keys, each once, ordered by frequency, highest first. |
| ValueCounts.ValueCountsOf | data_quality_reports/dqr.py:173-180 | `value_counts()` has one entry per distinct present value. Each entry holds that value's frequency, which is positive, and the frequencies never increase. |
| ValueCounts.EntriesCoverKeys | data_quality_reports/dqr.py:173 | Every key has an entry in the value counts built from it. |
| ValueCounts.TopIsMaximal | data_quality_reports/dqr.py:173 | With a present value, entry 0 exists, and no present value is more frequent than it. |
| ValueCounts.SecondIsRunnerUp | data_quality_reports/dqr.py:176-180 | With at least two distinct values, no value other than entry 0's is more frequent than entry 1. |
| ValueCounts.FirstOfFrequency | data_quality_reports/dqr.py:172 | The value returned occurs among the cells with the requested frequency. |
| ValueCounts.Mode | data_quality_reports/dqr.py:172 | `mode().values[0]` is a present value, and no value occurs more often than it. |
| DataTypes.Metadata | data_quality_reports/dqr.py:65-69 | The row keeps the column's name and dtype and records `count`, `missing` and `cardinality`. The bounds hold: count <= n, cardinality <= count, cardinality 0 iff count 0, missing in [0, 100]. Missing is 0 iff there are no gaps and 100 iff everything is missing. |
| DataTypes.Relabel | data_quality_reports/dqr.py:70 | A cardinality-2 row gets the label `"object"`. Every other row is unchanged, and no field except the label ever changes. |
| DataTypes.DataTypesOf | data_quality_reports/dqr.py:65-70 | The `data_types` table: for each column in order, its relabelled metadata. `DataTypes.DataTypesRows` and `DataTypes.RowOfColumn` state its contents, and `DataTypes.GetDataTypes` computes it. |
| DataTypes.GetDataTypes | data_quality_reports/dqr.py:57-72 | The table built column by column and then relabelled in place is `DataTypesOf`. |
| DataTypes.DataTypesRows | data_quality_reports/dqr.py:65-70 | `data_types` has one row per column, in order. Each row has the column's name, count, missing and cardinality, and its label is `"object"` if the cardinality is 2, else the column's dtype. |
| DataTypes.RowOfColumn | data_quality_reports/dqr.py:65-70 | Every row of `data_types` is the relabelled metadata of the column it names. |
| Partition.Where | data_quality_reports/dqr.py:82-84 | A mask selection holds exactly the rows the mask accepts, and no more rows than it started with. |
| Partition.Positions | data_quality_report.py:33-34 | The selected rows sit at strictly increasing positions of the input, and every accepted row is among them. Selection keeps input order and drops nothing. |
| Partition.JoinPositions | data_quality_report.py:33-34 | The positions of a selection are built from those of its tail. |
| Partition.Shift | data_quality_report.py:33-34 | The tail's positions shifted by one index the whole table. |
| Partition.ShiftCovers | data_quality_report.py:33-34 | Every accepted row after the first keeps its position, moved by one, among the shifted positions. Selection drops nothing. |
| Partition.MasksAgree | data_quality_reports/dqr.py:82-101 | The class's masks select exactly what the draft's plain `!= "object"` / `== "object"` masks select. |
| Partition.MasksPartition | data_quality_reports/dqr.py:82-101 | The two tables' rows add up, as multisets, to `data_types`, so their sizes add up. Each row is in exactly one of the two. |
| Partition.MasksSplit | data_quality_reports/dqr.py:82-101 | The contents of the two selections add up to the whole table. |
| Partition.WhereSplit | data_quality_reports/dqr.py:82-101 | Two complementary masks share out the rows between them. |
| Partition.SplitStep | data_quality_reports/dqr.py:82-101 | One more row goes to exactly one of the two selections. |
| Partition.WhereAll | data_quality_report.py:34 | A property holds of every selected row iff it holds of every row the mask accepts. |
| Partition.MembersAll | data_quality_report.py:34 | For any selection whose members are the accepted rows, a property holds at every position iff it holds of every accepted row. |
| Partition.ContinuousMask | data_quality_reports/dqr.py:82-84 | The class's continuous mask accepts exactly the rows whose label is not `"object"`. Its datetime clause changes nothing. |
| Partition.CategoricalMask | data_quality_reports/dqr.py:99-101 | The class's categorical mask accepts exactly the rows labelled `"object"`. Its datetime clause changes nothing. |
| Partition.DraftContinuousMask | data_quality_report.py:33 | The draft's continuous mask accepts exactly what the class's continuous mask accepts, and exactly what the class's categorical mask rejects. |
| Partition.DraftCategoricalMask | data_quality_report.py:34 | The draft's categorical mask accepts exactly what the class's categorical mask accepts. |
| Summaries.UpdateContinuous | data_quality_reports/dqr.py:108-157 | The statistics columns are appended without changing the rows, their order or their metadata. Each row's statistics are those of its own column. |
| Summaries.IsModeSummary | data_quality_reports/dqr.py:172-183 | Defines a correct categorical summary. The mode is a present value of highest frequency, and its percentage is `freq / n * 100`. The three `mode_2` fields are all NaN iff cardinality <= 1. Otherwise `mode_2` is a present value with its own frequency and percentage, and no value except one of mode frequency outnumbers it. |
| Summaries.Summarize | data_quality_reports/dqr.py:172-183 | The class's summary of one column, read off `value_counts()` with the cardinality guard. `Summaries.SummaryIsModeSummary` proves that it meets `IsModeSummary`. |
| Summaries.SummaryIsModeSummary | data_quality_reports/dqr.py:172-183 | The mode is a value of highest frequency, and `mode_percent = mode_freq / n * 100`. The three `mode_2` fields are NaN iff cardinality <= 1. Otherwise `mode_2` is the most frequent value apart from one that attains `mode_freq`, so `mode_2_freq <= mode_freq` and `mode_2_perc = mode_2_freq / n * 100`. |
| Summaries.UpdateCategorical | data_quality_reports/dqr.py:159-191 | Rows, their order and their metadata are kept. |
| Summaries.UpdateCategoricalSummarizes | data_quality_reports/dqr.py:172-190 | Each row gains the mode summary of its own column. |
| Summaries.ContinuousRows | data_quality_reports/dqr.py:82-86 | The unsorted continuous table holds exactly the rows the continuous mask selects, in order. |
| Summaries.CategoricalRows | data_quality_reports/dqr.py:99-103 | The unsorted categorical table holds exactly the rows the categorical mask selects, in order. |
| Summaries.CategoricalColumnsNonEmpty | data_quality_reports/dqr.py:172 | Every column that lands in the categorical table has a present value. This is what `mode().values[0]` needs in order not to raise. |
| Summaries.SelectionSummarizable | data_quality_reports/dqr.py:99-103 | When every categorical column has a present value, every selected row can be summarised. |
| Summaries.CategoricalRowsSummarize | data_quality_reports/dqr.py:172-183 | Each row of the categorical table carries the mode summary of the column it names. |
| Summaries.SelectedLocatable | data_quality_reports/dqr.py:82-101 | Every selected row names a column, and its count and cardinality are that column's. |
| Sorting.SortByMissing | data_quality_reports/dqr.py:87 | After the in-place sort the table is non-increasing in `missing` and is a permutation of what it was. Nothing is said about ties. |
| Sorting.InsertAt | data_quality_reports/dqr.py:104 | One insertion step extends the descending prefix from `i` rows to `i + 1`. The new prefix holds the old prefix and the old `a[i]`, the rows after `i` are untouched, and the table keeps its contents. |
| Sorting.DescendingTo | data_quality_reports/dqr.py:104 | The first `n` rows are ordered by `missing`, highest first. |
| Sorting.SwapStep | data_quality_reports/dqr.py:104 | Swapping the moving row with a lower row before it keeps the rest of the prefix ordered and moves the gap one place left. It changes neither the contents nor the rows after `i`. |
| Sorting.Inserted | data_quality_reports/dqr.py:104 | Once the moving row is no lower than the row before it, the prefix up to `i` is descending. |
| Sorting.SuffixKept | data_quality_reports/dqr.py:104 | With the contents kept and the suffix after `i` unchanged, the prefix holds the old prefix and the old `a[i]`. |
| Sorting.Swap | data_quality_reports/dqr.py:104 | Exchanges two rows, leaves every other row as it was, and keeps the table's contents. |
| Report.DQR.constructor | data_quality_reports/dqr.py:44-55 | After construction, `data_types` is the table of the frame's columns. Each report table is a `missing`-descending permutation of its selected rows with their statistics. |
| Report.DQR.Valid | data_quality_reports/dqr.py:44-55 | The object's invariant: `data_types` is the frame's table, and each stored table is a `missing`-descending permutation of its selected rows with their statistics. Every categorical column has a present value. |
| Report.DQR.CreateContinuousDf | data_quality_reports/dqr.py:74-89 | Returns the continuous rows with their statistics, sorted by `missing` descending, as a permutation. |
| Report.DQR.CreateCategoricalDf | data_quality_reports/dqr.py:91-106 | Returns the categorical rows with their mode summaries, sorted by `missing` descending, as a permutation. |
| Report.DQR.GetContinuousDf | data_quality_reports/dqr.py:193-201 | Returns the stored continuous table: sorted by `missing`, holding exactly the rows of `data_types` whose label is not `"object"`, each once. |
| Report.DQR.GetCategoricalDf | data_quality_reports/dqr.py:203-211 | Returns the stored categorical table: sorted by `missing`, holding exactly the `"object"` rows of `data_types`, each once, each with the mode summary of its own column. |
| Report.DQR.CategoricalTableSummarizes | data_quality_reports/dqr.py:172-183 | Every row of the stored categorical table names a column and summarises it. |
| Report.DQR.TablesPartitionColumns | data_quality_reports/dqr.py:82-101 | The two tables together have one row per column, and each column's row is in exactly one of them. |
| Report.DQR.TableHoldsSelection | data_quality_reports/dqr.py:82-104 | A sorted table holds the selected metadata rows and nothing else. |
| Draft.DraftSummarize | data_quality_report.py:46-53 | The draft's summary of a column succeeds iff the column has at least two distinct present values, and then the column has a present value. |
| Draft.DraftSummaryAgrees | data_quality_report.py:46-53 | When the draft's summary succeeds, it equals the class's guarded summary. |
| Draft.SingleValueColumn | data_quality_report.py:47 | A text column holding `"a"` twice makes the draft fail. The class reports mode `"a"`, frequency 2, 100 percent, and a NaN second mode. |
| Draft.DraftCategorical | data_quality_report.py:45-53 | The draft's categorical table succeeds iff every selected column has at least two distinct values. It then equals the class's unsorted categorical update of the same rows. |
| Draft.DraftResultsFail | data_quality_report.py:47 | A row whose summary fails has a column with fewer than two distinct values. |
| Draft.DraftResultsAgree | data_quality_report.py:46-53 | When every row's summary succeeds, each column has two distinct values and a present value, and its summary is the class's. |
| Draft.DraftRowsAgree | data_quality_report.py:48-53 | A table whose rows carry the class's summaries is the class's unsorted categorical update. |
| Draft.RoundRaises | data_quality_report.py:37-43 | `round()` raises on a column's statistics when the column is a datetime column, or when the caller-supplied `raises` says so. |
| Draft.DraftDescribe | data_quality_report.py:37-43 | One column's draft statistics succeed iff `round()` does not raise on them, and always fail on a datetime column. |
| Draft.DraftContinuous | data_quality_report.py:36-43 | The draft's continuous table succeeds iff `round()` raises on no selected column. Any datetime column among the rows makes it `Err(RoundError)`. On success it equals the class's unsorted continuous update of the same rows: each row keeps its metadata and gains the statistics of its own column. |
| Draft.ContinuousColumnsRound | data_quality_report.py:33-43 | No row of `data_types` that the draft's continuous mask accepts makes `round()` raise. |
| Draft.DatetimeColumnFails | data_quality_report.py:33-37 | Consider a frame whose only column holds three distinct timestamps. It is valid, its column keeps the label `"datetime64[ns]"` and lands in the continuous table, and so `ContinuousColumnsRound` fails whatever `raises` says. By `Draft.Dqr`'s contract the draft then returns `Err(RoundError)`. |
| Draft.AllRound | data_quality_report.py:33-43 | The success condition of the continuous table over the selected rows is the same as the one stated over the rows of `data_types`. |
| Draft.ObjectColumnsTwoValued | data_quality_report.py:34-47 | Every `"object"` row of `data_types` has at least two distinct values. This is the condition under which the draft's unguarded `value_counts()[1]` finds an entry for every categorical column. |
| Draft.Dqr | data_quality_report.py:15-58 | `dqr(df)` succeeds iff two things hold: `round()` raises on no continuous column, and every `"object"` row of `data_types` has cardinality >= 2. The continuous table is computed first, so a failure is `RoundError` exactly when a continuous column fails. On success it returns the `!= "object"` and `== "object"` rows, unsorted and in column order, and they equal the class's tables before sorting. |
| Draft.AllSummarizable | data_quality_report.py:34-53 | The draft's success condition over the selected rows is the same as the one stated over the rows of `data_types`, and it implies the class's precondition. |
| Draft.ObjectRowsNonEmpty | data_quality_report.py:27-34 | If every `"object"` row has two distinct values, every categorical column has a present value. |

## Left out
- Continuous statistics (`min`, quartiles, `mean`, `median`, `max`, `std dev`) are floating-point pandas and numpy routines. They are the caller-supplied function `describe(label, cells)`, so the model states only which rows receive them and that the metadata is unchanged.
- The `<M8[ns]` branch of the class's continuous statistics only chooses rounded or unrounded values, so it sits inside `describe`.
- Report.DQR.CreateContinuousDf: takes `describe` to be total. The class applies `round()` to every continuous label other than `<M8[ns]`. So it raises a `TypeError` on a column whose statistics are not numbers, such as a `timedelta64[ns]` column, whose minimum is a Timedelta. That failure is not modelled for the class.
- Draft.Dqr: decides only for datetime columns whether `round()` raises. For every other label, the caller-supplied predicate `raises(label, cells)` decides it, because the answer depends on pandas' scalar types, which are not modelled.
- Rounding to two decimals is left out. Percentages are exact rationals (`real`).
- pandas dtype inference: a column's dtype label is an input string.
- Summaries.Summarize: does not fix which of several equally frequent values `mode()` or `value_counts()` reports first. `mode()` returns the tied values sorted, and the model's values carry no order. `value_counts()` does not document its order among ties. The contract allows any value of highest frequency, and `mode_2` may equal `mode` under a tie.
- Draft.DraftSummarize: models `value_counts()[0]` and `[1]` as positional lookups. pandas may instead look up the labels `0` and `1`, and that label lookup is not modelled. This happens with numeric keys: integer, floating point, and boolean, because `0 == False` and `1 == True`. Whether a boolean index falls back to position depends on the pandas version. Two examples: for `[1.5, 2.5, 1.5]`, `value_counts()[0]` raises a `KeyError`; for `[True, True, False]`, a label lookup reads the count of `False` (1) as the mode frequency and the count of `True` (2) as the second. `Draft.DraftSummaryAgrees` depends on this positional reading, and so do `Draft.Dqr`'s success condition and its equality with the class's tables. They hold for keys that are neither numbers nor booleans, and for pandas versions that look up by position.
- A frame with zero rows gives NaN percentages in pandas. Frames here have at least one row.
- Column names are distinct in a valid frame. pandas' behaviour with duplicate labels is not modelled.
- The class requires every categorical column to have a present value. On an all-missing categorical column the code raises, and that failure is not modelled for the class.
- The chained assignment at data_quality_report.py:30 is taken to update `data_types`. Under pandas' copy-on-write mode it would update a copy and leave the labels unchanged.
- CSV export (`write_to_csv`, data_quality_reports/dqr.py:213-233, and data_quality_report.py:55-56) is file I/O.
- tests/test_dqr.py is not part of this model: it compares frames against fixture CSV files.

## Findings

| source | as written | input that shows it | evidently intended | confidence | as-written member | corrected member |
|---|---|---|---|---|---|---|
| data_quality_report.py:47 | reads entry 1 of every categorical column's value counts with no cardinality guard, so the whole report fails | a text column whose only present value is `"a"` (cardinality 1) | the second mode is NaN, as the class does (data_quality_reports/dqr.py:175-183); `Summaries.SummaryIsModeSummary` proves that summary correct | high; not executed | Draft.SingleValueColumn | Summaries.Summarize |
