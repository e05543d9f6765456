# NobleDash table pipeline, modelled in Dafny

NobleDash is a Streamlit dashboard over two tables of Nobel laureates scraped from
Wikipedia. It has a laureate table (`data_wo_uni`: a `Year` column, then one column per
prize category) and an affiliation table (`data_w_uni`: string columns, one of them
`Affiliation`). This project models the table logic of `app.py`:

- `clean_data`: it rewrites the category labels, then drops incomplete and duplicate
  affiliation rows. The laureate table's labels are reassigned in place (line 15); the
  name `data_w_uni` is rebound to a new table twice (lines 16-17).
- The year-range filter and the category projection behind the trend chart and the
  winners table.
- The affiliation selector behind the affiliation chart and the affiliation table.
- The two aggregations fed to the charts: the top-10 affiliation counts, and the
  per-(Year, Category) laureate counts of the melted laureate table.

The pandas calls are given explicit meanings:

- `dropna` drops a row with any missing cell.
- `drop_duplicates` keeps the first occurrence.
- `value_counts` counts non-missing values and sorts them by descending count.
- `melt` stacks the category columns one after another.
- `groupby(...).count()` counts the non-missing `Laureate` cells of every
  (Year, Category) pair that occurs.

A missing cell is `None`. A column lookup of an absent label is the `KeyError` case of
`Result`.

Files:

- `results.dfy`: `Option` and `Result`.
- `seqs.dfy`: the generic boolean-mask filter and first-occurrence deduplication, with
  subsequence, multiplicity and order lemmas.
- `labels.dfy`: Python's `str.replace` and `str.strip`, and the label normaliser.
- `tables.dfy`: the two table types.
- `cleaning.dfy`: `dropna`, `drop_duplicates`, and the class `NobelData`, whose method
  `CleanData` is `clean_data`.
- `filters.dfy`: the year filter, the projection and the affiliation selector.
- `aggregates.dfy`: the top-10 count, `melt` and the group count.
- `dashboard.dfy`: how the selector and the counter combine, plus small worked examples.

Two behaviours of the code worth knowing:

- The label rewrite replaces every occurrence of the marker "(The Sveriges Riksbank
  Prize)" inside a label, not only a label equal to it.
- `groupby(...).count()` keeps a (Year, Category) group whose cells are all missing,
  with count 0.

## Model

| member | source | states |
|---|---|---|
| Labels.TrimLeft | app.py:15 | the result is a suffix of the label, all that was dropped in front is whitespace (Python `isspace`), and the result does not begin with whitespace |
| Labels.TrimRight | app.py:15 | the result is a prefix of the label, all that was dropped behind is whitespace, and the result does not end with whitespace |
| Labels.Strip | app.py:15 | the result neither begins nor ends with whitespace, and the label is the result with runs of whitespace only on either side |
| Labels.ReplaceWithoutMatch | app.py:15 | `replace` changes nothing in a string holding no occurrence of the pattern |
| Labels.Replace | app.py:15 | Python's `str.replace`: replacing the pattern by itself changes nothing, and a replacement of the same length keeps the length |
| Labels.ReplaceAtFirst | app.py:15 | the first occurrence of the pattern becomes the replacement, the text before it is kept and the scan resumes after it; with `ReplaceWithoutMatch` this fixes the result on every string |
| Labels.ReplaceLeavesNoMarker | app.py:15 | after replacing the marker by "Economics" no occurrence of the marker is left anywhere in the label |
| Labels.NormaliseLabel | app.py:15 | a normalised label contains no marker and has no surrounding whitespace; a label without the marker is only stripped |
| Labels.NormaliseLabels | app.py:15 | the comprehension keeps the number and order of the labels, and each is the normalised form of the label at its position |
| Labels.NormaliseIdempotent | app.py:15 | normalising a normalised label gives it back unchanged |
| Labels.NormaliseLabelsIdempotent | app.py:15 | normalising the whole label list a second time changes nothing |
| Labels.YearLabelUnchanged | app.py:15 | the label "Year" survives the rewrite, so the `Year` column keeps its name |
| Seqs.FilterFacts | app.py:16 | a boolean mask keeps exactly the elements satisfying the predicate, each as often as it occurs, in their original order, and yields nothing when none satisfies it |
| Seqs.FilterAll | app.py:16 | a mask that every element passes keeps the sequence as it is |
| Seqs.Dedup | app.py:17 | first-occurrence deduplication has no repeated element, keeps the same set of elements, and is no longer than its input |
| Seqs.DedupKeepsFirst | app.py:17 | deduplication is a subsequence of the input whose elements appear in the order of their first occurrences |
| Seqs.DedupDistinct | app.py:17 | a sequence without repeats is its own deduplication |
| Seqs.SubsequenceTransitive | app.py:16-17 | a subsequence of a subsequence is a subsequence, so the two cleaning steps together keep the original order |
| Cleaning.DropNa | app.py:16 | the result keeps the columns, has no missing cell, holds every complete row exactly as often as the input does and no other row, is a subsequence of the input, and is no longer |
| Cleaning.DropDuplicates | app.py:17 | the result keeps the columns, has no two equal rows, holds every input row and no other, is a subsequence ordered by first occurrence, and is no longer |
| Cleaning.CleanAffiliations | app.py:16-17 | the cleaned rows are exactly the complete input rows, without repeats, in their original order |
| Cleaning.CleanLaureates | app.py:15 | the number and order of the category labels are kept, each label is replaced by its normalised form, and the rows are untouched |
| Cleaning.CleanIsClean | app.py:13-18 | after cleaning, every label is normalised and the affiliation rows are complete and distinct |
| Cleaning.CleanOnClean | app.py:13-18 | cleaning tables that are already clean changes nothing |
| Cleaning.CleanIdempotent | app.py:13-18 | cleaning twice gives the same tables as cleaning once |
| Cleaning.NobelData.CleanData | app.py:13-18 | the method updates both tables to their cleaned versions, leaves them clean, and leaves already clean tables unchanged |
| Filters.FilterYears | app.py:51 | the rows kept are exactly those with `lo <= Year <= hi`, as often as they occur and in their original order; the table never lengthens and is empty when no row is in range (the same mask is at line 65) |
| Filters.Positions | app.py:53 | the positions listed are exactly the columns carrying the label, in increasing order |
| Filters.PositionsDistinct | app.py:53 | with distinct labels the only position of a label is its first occurrence |
| Filters.ProjectRow | app.py:53 | the cut row keeps its year and holds, in order, exactly the cells at the selected column positions |
| Filters.Project | app.py:52-53 | "All" leaves the table unchanged; an absent category is a `KeyError`; otherwise every column labelled with the category is kept, and every row keeps its year and exactly those cells (the same selection is at lines 66-67) |
| Filters.ProjectDistinct | app.py:52-53 | with distinct category labels the projection has the single column `category` after `Year`, and every row keeps its year and its `category` cell |
| Filters.NobelView | app.py:51-53 | the winners table is well formed, has only rows in the year range, is no longer than the input, is the year filter itself for "All", and is a `KeyError` exactly for an unknown category (the same chain is at lines 65-67) |
| Filters.AffiliationColumn | app.py:41 | the Affiliation column is found exactly when the table has a column of that label, and it is the first one |
| Filters.SelectAffiliation | app.py:41 | "All" returns the table; a table without an Affiliation column is a `KeyError`; otherwise the rows kept are exactly those whose Affiliation equals the selection, as often as they occur and in order, and none when no row carries it (the same selection is at lines 71-74) |
| Aggregates.ColumnValues | app.py:42 | each value of the Affiliation column occurs in the value list once per row carrying it |
| Aggregates.Tally | app.py:42 | one entry per distinct value, with no affiliation twice, each counting the value's occurrences, and every occurring value listed |
| Aggregates.Insert | app.py:42 | inserting an entry adds it and nothing else |
| Aggregates.SortByCount | app.py:42 | the sort is a permutation of its input |
| Aggregates.SortByCountSpec | app.py:42 | the sort keeps the length, orders entries by non-increasing count, and keeps distinct affiliations distinct |
| Aggregates.Head | app.py:42 | `head(n)` is the first `n` entries, or all of them when there are fewer |
| Aggregates.TopValues | app.py:42 | at most ten entries, distinct, in non-increasing order of count, each with its exact count; a value left out occurs no more often than every listed one, and then ten are listed |
| Aggregates.TopAffiliations | app.py:42 | without an Affiliation column the result is a `KeyError`; otherwise it has the `TopValues` properties, with each count the number of rows carrying that affiliation |
| Aggregates.MeltFirst | app.py:54 | melting the first `n` category columns yields `n` long rows per wide row |
| Aggregates.Melt | app.py:54 | the long table has one row per (wide row, category column) pair |
| Aggregates.MeltCell | app.py:54 | the cell of row `i` in column `j` is long row `j * rows + i`, with its year, its column's label and its value |
| Aggregates.MeltIndex | app.py:54 | every long row is the cell of some wide row in some category column |
| Aggregates.MeltFirstSources | app.py:54 | every long row carries the year of a wide row and the label of a category column |
| Aggregates.GroupCounts | app.py:55 | the groups are exactly the (Year, Category) keys that occur, and each count is the number of non-missing Laureate cells of its key, which is at most the number of long rows of that key |
| Aggregates.AbsentKey | app.py:55 | a key that does not occur has no long rows and no laureates |
| Aggregates.TrendCounts | app.py:51-55 | the trend counts are a `KeyError` exactly for an unknown category; otherwise the keys are exactly the pairs of an in-range row's year with a column label of the view (for a chosen category, only that label), and each count is the number of non-missing cells of the view with that year and label |
| Aggregates.MeltKeys | app.py:54-55 | the groups of the melted table are exactly the pairs of a wide row's year with a category label |
| Aggregates.MeltFirstNonMissing | app.py:54-55 | melting keeps every non-missing cell, under its year and column label |
| Aggregates.TrendCountIsCellCount | app.py:54-55 | with distinct labels, the count of (y, c) is the number of wide rows of year y with a non-missing c cell, and 0 for a label that is not a column |
| Dashboard.CountAfterSelect | app.py:41-42 | selecting an affiliation keeps its count and leaves every other affiliation with none |
| Dashboard.SelectedTop | app.py:41-42 | for a selected affiliation that occurs, the chart has one bar: that affiliation with the number of rows carrying it |
| Dashboard.SelectAbsent | app.py:41-42 | a selected affiliation that no row carries gives an empty table and an empty chart |
| Dashboard.ExampleView | app.py:51-53 | on a three-row table, "All" with the range 1901-1901 keeps the two 1901 rows |
| Dashboard.ExampleTrend | app.py:51-55 | the trend of that view counts one laureate for each of (1901, Physics) and (1901, Chemistry), and the 1902 laureate is not counted |
| Dashboard.ExampleClean | app.py:16-17 | cleaning an affiliation table with a repeated row and an incomplete row keeps the two distinct complete rows, in order |

## Left out

- Fetching the two tables with `pd.read_html` (app.py lines 7 and 10): network I/O and an HTML parser outside the program. The tables are the arguments of the `NobelData` constructor.
- `save_data` (lines 21-25) and the download buttons (lines 78-80): file output only. No value they produce is used by the model.
- The Streamlit page, sidebar and layout (lines 29-37, 64, 68, 70, 75). The slider's `(lo, hi)` pair and the selectbox values are parameters. Building the selectbox options (`columns[1:]` and `unique()`) is UI and is not modelled.
- Plotting with matplotlib and seaborn (lines 43-47 and 56-62): rendering and floating-point graphics.
- Aggregates.SortByCount: the order of entries with equal counts is that of the insertion sort. pandas does not define it, so no contract depends on it.
- Aggregates.GroupCounts: the result is a map from (Year, Category) to count. The row order of `reset_index()` is not modelled.
- pandas dtypes: NaN as a float, non-numeric `Year` cells and MultiIndex labels are not modelled. `Year` is an `int` field of each laureate row, and every other cell is an optional string.
- Labels.NormaliseLabel: the `Year` label is kept as a fixed field and not rewritten. `Labels.YearLabelUnchanged` shows the rewrite would leave it unchanged anyway.
- Filters.AffiliationColumn: when several columns are labelled "Affiliation", pandas returns a sub-table for `df['Affiliation']`. The model reads the first such column.
