# Global air-pollution dashboard: the cleaning pipeline, in Dafny

`hello.py` loads an air-quality dataset and shows it on a dashboard. Between
the loading and the rendering sits a small, deterministic pipeline, and that
pipeline is what this project models and proves things about:

1. every column label has its blanks and dots replaced by underscores
   (line 16);
2. the PM2.5 column is the first column whose label contains `PM2_5`
   (line 23);
3. the rest runs only if a `Country` column exists and a PM2.5 column was
   found; otherwise the available labels are listed (lines 25, 86-87);
4. the PM2.5 column is coerced to numbers (unparsable text becomes missing),
   and rows with a missing country or PM2.5 value are dropped (lines 26-27);
5. the per-country mean and max are computed and shown by decreasing mean
   (lines 30-32);
6. `Year`, `Latitude` and `Longitude` are coerced in place. The year-wise
   mean and the map points are derived from rows with a present year or
   coordinates; no row leaves the main frame (lines 39-49);
7. rows whose PM2.5 value is strictly above the slider's threshold are kept
   (line 78).

A frame (`Frames.Frame`) is a sequence of column labels plus a sequence of
rows. Each row holds one cell per column, by position, as a pandas frame
keeps its labels apart from its data. A cell is `Option<Value>`: `None` is
pandas' NaN/None, and a value is a string or a number. Numbers are Dafny
`real`s: exact arithmetic, not IEEE doubles. Parsing text as a number inside
`pd.to_numeric` is not shown, so it is a parameter `parse: string ->
Option<real>`. The loaded dataset (`get_df`) and the slider's value are
parameters of `Dashboard.RunDashboard`.

Modules: `Wrappers` (Option), `Sequences` (order-preserving selection and
mapping), `Frames` (the data model and label lookup), `Columns` (lines 16
and 23), `Cleaning` (lines 26-27, 40, 47-49), `Stats` (mean and max),
`Summary` (grouping and sorting, lines 30-32 and 41) and `Dashboard` (the
guard, the threshold filter and the run itself).

Three facts about the code shape the contracts:
- Rows with equal means are not ordered: `sort_values` at line 32 promises
  no order among them. The model proves non-increasing means and that the
  table is a permutation of the grouped rows.
- The summary has exactly one row per distinct country of the cleaned rows,
  and that is what is proved.
- `groupby("Year")` at line 41 returns its groups in ascending year order,
  and line 42 draws the line along that order. The model proves the
  year-wise trend strictly ascending in year.

## Model

| member | source | states |
|---|---|---|
| `Columns.Replace` | hello.py:16 | `str.replace` of one character: same length; each position holds the replacement where the input had the replaced character, and the input character elsewhere |
| `Columns.NormalizeName` | hello.py:16 | the two chained replaces together: same length, every blank or dot becomes `_`, every other character is unchanged, and no blank or dot remains |
| `Columns.NormalizeColumns` | hello.py:16 | the list comprehension: as many labels as before, each the renamed label at the same position |
| `Columns.NormalizedColumnsClean` | hello.py:16 | after renaming, the labels keep their number, order and lengths, and none contains a blank or a dot |
| `Columns.NormalizeNameIdempotent` | hello.py:16 | renaming an already renamed label changes nothing |
| `Columns.NormalizeColumnsIdempotent` | hello.py:16 | renaming the already renamed label list changes nothing |
| `Columns.HasSubstring` | hello.py:23 | Python's `sub in s`: true exactly when `sub` occurs at some position of `s` |
| `Columns.DetectTarget` | hello.py:23 | `next(..., None)`: None exactly when no label contains `PM2_5`; otherwise a label that contains it and is at the first such position |
| `Columns.DetectedTargetNonEmpty` | hello.py:25 | a detected label is never empty, so the truthiness test `and pm_col` is the same as "a target was found" |
| `Columns.NormalizeKeepsOccurrence` | hello.py:16 | renaming turns an occurrence of `w` in a label into an occurrence of the renamed `w` at the same place |
| `Columns.DottedTargetFound` | hello.py:16-23 | detection runs on renamed labels, so a source label containing `PM2.5`, `PM2 5` or `PM2_5` is found |
| `Frames.NumAt` | hello.py:26 | the number in a cell: present exactly when the cell holds a number, and then equal to it |
| `Frames.ColumnIndex` | hello.py:25-26 | label lookup (`name in df.columns`, `df[name]`): present exactly when the label occurs, and then the position of its first occurrence |
| `Dashboard.Guard` | hello.py:23-25 | present exactly when `Country` is a label and a target was detected; it then gives the first `Country` column and the first column containing `PM2_5`, which is also the first column with the detected label |
| `Dashboard.Exceeds` | hello.py:78 | the comparison `df[pm_col] > threshold`: true exactly when the target cell holds a number strictly above the threshold; a missing cell (NaN) never exceeds it, and after line 26 the target holds no text |
| `Cleaning.ToNumeric` | hello.py:26 | `to_numeric(errors="coerce")` on one cell: never fails, yields a number or missing, keeps numbers, turns text into its parse or into missing, keeps missing |
| `Cleaning.ToNumericIdempotent` | hello.py:26 | coercing an already coerced cell changes nothing |
| `Cleaning.CoerceCell` | hello.py:26 | one row of the column assignment: same length; the cell of the coerced column converted, every other cell unchanged |
| `Cleaning.CoerceColumn` | hello.py:26 | the in-place column assignment: labels, row count, row order and row lengths unchanged; cells of the coerced column converted, every other cell unchanged |
| `Cleaning.DropNa` | hello.py:27 | `dropna(subset=...)`: an order-preserving subsequence that holds every row complete in the listed columns, with its multiplicity, and no other row |
| `Cleaning.Survivors` | hello.py:26-27 | the input rows that have a country and a target that coerces to a number, in order, each with its multiplicity, and no others |
| `Cleaning.CleanTargetExact` | hello.py:26-27 | coercing then dropping yields exactly the surviving input rows, in order, each with its target coerced |
| `Cleaning.CleanTargetSound` | hello.py:26-27 | after lines 26-27 every row has a present country and a numeric target, and there are no more rows than before |
| `Cleaning.CoerceAgrees` | hello.py:40-48 | coercing another column in place leaves the key column alone and leaves an already numeric target the same number |
| `Cleaning.CoercedColumnNumeric` | hello.py:40 | every cell of a coerced column is a number or missing |
| `Cleaning.CoercePreservesCleaned` | hello.py:40-48 | coercing `Year`, `Latitude` or `Longitude` keeps every row, its country and its target, so the cleaned frame stays cleaned |
| `Stats.Max` | hello.py:30 | the `max` aggregate: one of the values, and no value exceeds it |
| `Stats.Min` | hello.py:30 | the smallest value: one of the values, and none is below it (used to bound the mean) |
| `Stats.SumBounds` | hello.py:30 | values between `lo` and `hi` sum to between `n*lo` and `n*hi` |
| `Stats.QuotientBetween` | hello.py:30 | dividing such a sum by `n > 0` lands between `lo` and `hi` |
| `Stats.Mean` | hello.py:30 | the `mean` aggregate: mean times count is the sum, and the mean lies between the smallest and the largest value |
| `Summary.Keys` | hello.py:30 | the groups of `groupby`: no key twice, and a key is listed exactly when some row holds it (missing keys form no group) |
| `Summary.TargetsOf` | hello.py:30 | a number is among a group's targets exactly when some row of that key carries it |
| `Summary.TargetsCount` | hello.py:30 | each row of a key contributes one entry to its targets: a number is listed as often as rows of that key carry it, which is what the mean weighs |
| `Summary.TargetsNonEmpty` | hello.py:30 | in cleaned rows, every present country has at least one target |
| `Summary.MeanMaxAggregate` | hello.py:30 | `Mean` and `Max` meet every requirement on the `Average_PM2_5` and `Max_PM2_5` of a group |
| `Summary.GroupOf` | hello.py:30-31 | one summary row: its key, and a mean and max that are correct for that key's targets |
| `Summary.Aggregate` | hello.py:30-31 | `groupby(...).agg(["mean", "max"])`: one row per distinct present country, no country twice, each row's max the largest target of its country (and attained) and its mean between that country's smallest and largest target |
| `Summary.InsertBy` | hello.py:32 | inserting into a table sorted by non-increasing rank keeps it sorted and adds exactly that row |
| `Summary.SortDesc` | hello.py:32 | a permutation of its input, sorted by non-increasing rank: by `Average_PM2_5` for `sort_values(..., ascending=False)`, by earlier year for the sorted index of `groupby("Year")` |
| `Summary.DistinctKeysOccurOnce` | hello.py:30 | in a summary with distinct keys, each row occurs once |
| `Summary.PermutationKeepsDistinctKeys` | hello.py:32 | reordering the summary keeps its countries distinct |
| `Summary.DisplayedSummary` | hello.py:30-32 | the displayed table: non-increasing means, one correct row per distinct country of the cleaned rows, no country twice |
| `Summary.SortKeepsGroups` | hello.py:32 | reordering a grouped aggregation leaves it one: the same correct groups, still no key twice |
| `Summary.SameGroups` | hello.py:40-48 | grouping reads only the key column and the numeric target, so rows that agree on those give the same groups |
| `Summary.KeyedRowsSuffice` | hello.py:41 | dropping the rows whose key is missing before grouping changes no group |
| `Summary.DatedGroups` | hello.py:41 | grouping the rows with a present coerced year gives the groups of all rows, each keyed by a number |
| `Summary.YearTrend` | hello.py:40-42 | the year-wise trend: one row per distinct present year, each a number, each with the correct mean of its targets, in strictly ascending year order, the order in which line 42 joins the points |
| `Summary.SortedYearsAscend` | hello.py:41 | groups with distinct numeric keys, sorted earlier year first, have strictly ascending years |
| `Summary.GroupsOfCarry` | hello.py:41 | the grouped aggregation depends only on which keys are present and on each key's targets |
| `Summary.GroupsOfTransfers` | hello.py:47-48 | the year-wise trend stays correct for the frame after the coordinate coercions |
| `Dashboard.CoordinatesCoerced` | hello.py:47-48 | after both in-place coercions, both coordinate columns hold only numbers or missing cells |
| `Dashboard.Exported` | hello.py:39-48 | the frame after the in-place coercions: same labels and row count; in each row, `Year` (when present) and both coordinates (when both are present) coerced, every other cell unchanged |
| `Dashboard.MapPointsNumeric` | hello.py:49 | `df_map` is an order-preserving subsequence of the frame; all its rows, and only those, have numeric latitude and longitude |
| `Dashboard.Above` | hello.py:78 | `df[df[pm_col] > threshold]`: an order-preserving subsequence holding every row whose target is strictly above the threshold, with its multiplicity, and no other row |
| `Dashboard.AboveMonotone` | hello.py:77-78 | for `t1 <= t2`, the rows kept at `t2` are a subsequence of those kept at `t1` |
| `Dashboard.RunDashboard` | hello.py:8-87 | a missing dataset gives the load failure. With the renamed labels, the guard chooses between the column listing and the report. The stages run in the script's order on one frame variable. A report satisfies every property of lines 26-84 (`ReportHolds`): the cleaned rows are, position by position, the surviving input rows with their target coerced; the summary is sorted with one correct row per country of those rows; the exported frame is `Exported` of the cleaned one, so it keeps every row, country and target; the year-wise trend is correct for it and ascending; the map points are its `dropna` on both coordinates, exactly the rows with numeric coordinates; the filtered rows are those above the threshold |
| `Sequences.Filter` | hello.py:27 | order-preserving selection: a subsequence, only elements meeting the condition, every such element kept with its multiplicity |
| `Sequences.Map` | hello.py:26 | element-wise conversion: same length, each element converted |
| `Sequences.FilterWeaker` | hello.py:78 | a weaker condition keeps a superset: the stronger condition's result is a subsequence of the weaker one's |
| `Sequences.FilterMap` | hello.py:26-27 | selecting after converting equals converting after selecting on the converted condition |
| `Sequences.SubsequenceShorter` | hello.py:27 | a subsequence is never longer than its source |

## Left out

- The preswald calls `connect`, `text`, `table` and `plotly` (hello.py:7, 13, 19-20, 32, 36, 43, 59, 67-68, 71, 73, 76, 79, 84, 87) are display plumbing and are not modelled. `get_df` is the `loaded` parameter, where `None` is the failure at line 11. `slider` is the `threshold` parameter: any real, since the pipeline itself sets no range.
- The message texts (emoji, `", ".join(df.columns)`) are not modelled. `MissingColumns` carries the list of renamed labels that the message joins.
- The plotly figures (histogram at line 35, line chart at 42, map at 50-58 with its `hover_name` choice, scatter at 83) are not modelled: they are rendering by a library that is not shown. The model keeps the data each is given: `cleaned` for the histogram, the ascending `yearwise` groups for the line chart, `mapPoints` for the map and `exported` for the scatter.
- The CSV export and `os.makedirs` (lines 62-64) are file I/O. The frame that would be written is `Report.exported`. The round trip through the file is not modelled.
- The SQL query (lines 68-73) runs on an external engine and is not modelled.
- The parsing inside `pd.to_numeric` is not modelled: it is the `parse` parameter. Booleans, infinities and other pandas conversions are folded into it.
- Floating point is not modelled: numbers are exact reals, NaN is `None`, and the mean is exact.
- `head(n)` truncations (lines 19, 71, 79) affect display only.
- SortDesc: does not fix the order of rows with equal rank, because `sort_values` at line 32 does not promise one. Years are distinct, so the year-wise order is fully fixed.
- Aggregate: lists groups in first-seen order, not in the sorted key order of `groupby`. Both uses reorder it (the summary by mean at line 32, the year-wise trend by year in `YearTrend`), so what the model leaves open is only the order of countries with equal means, which `sort_values` does not promise either.
- YearTrend: also computes each year's maximum, which line 41 does not ask for and nothing reads.
- Duplicate labels after renaming (for example `PM2.5` and `PM2 5` in one dataset) are not modelled. pandas would return a sub-frame for `df[label]`; the model reads the first column with that label.
- Non-string column labels are not modelled: the renaming at line 16 calls `str.replace` on every label.
