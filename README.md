# Algo-trading pipeline: a verified model of its core logic

This project models the core of a small pandas/scikit-learn pipeline for
trading datasets. Under its file handling, the pipeline has five stages:

- **Ingestion** (`ingest.py`): appends one empty row to a dataset's current
  table, after adding any schema columns the table lacks.
- **Cleaning** (`clean.py`):
  - validates that required columns are present;
  - drops duplicate rows and then rows that are entirely missing, and
    renumbers what is left;
  - fills missing values with one of four strategies.
- **Feature engineering** (`features.py`):
  - lag columns;
  - the up/down day flag and the length of its runs;
  - placeholder indicator columns;
  - calendar columns;
  - the previous close;
  - a final trim of empty rows.
- **Normalisation** (`norm.py`): scales the normalisable columns of a
  current table with a scaler fitted on the training split. It first copies
  the first three of those columns to `…Orig` columns.
- **Prediction** (`pred.py`):
  - discovers candidate features from column names;
  - runs a bounded exhaustive search over feature combinations of sizes 2 to 5;
  - builds the per-dataset summary.

How the model represents things:

- **Tables** (`tables.dfy`) are column-major, like a DataFrame:
  - an ordered list of distinct column names;
  - one column of cells per name;
  - the row labels.
- **Cells** are missing (NaN/None), a number (a Dafny `real`) or a string.
- **In-place DataFrame changes** are methods of the class `Tables.Frame`
  (`df[c] = …`, `df.drop`). The source changes its DataFrames in place in
  `addlagfeatures`, `handlemissing`, the feature steps, the `…Orig` copy loop
  and the schema alignment. The model does the same, and each such method is
  proved equal to a specification function on table values.
- **Pure parts** are functions:
  - list comprehensions;
  - `dropduplicatesandtrim`;
  - the column filters.
- **Library computations** are parameters:
  - the classifier is an oracle that counts the correct predictions;
  - the scaler is a `fit` function and a per-cell `scale` function;
  - the median and mean are functions from a column to a number, or to none
    (NaN) when the column holds no number;
  - the calendar functions map a date cell to its ISO year, ISO week and
    weekday name.

The source as shown has its underscores stripped. For example,
`validatecolumns` takes `requiredcols` but reads `required_cols`
(clean.py:54-55), and `TARGET_COL` stands beside `TARGETCOL` (config.py:34,
49). The model reads these as the same identifier. pandas method names are
written with their real underscores (`drop_duplicates`, `reset_index`).

Accuracy is modelled as a count of correct predictions. The test split is
the same for every combination, so comparing counts with `>` is the same as
comparing accuracies.

## Model

| member | source | states |
|---|---|---|
| Combinations.Combos | pred.py:56 | `itertools.combinations` on positions: every generated sequence has `size` positions, strictly increasing and in range. |
| Combinations.CombosComplete | pred.py:56 | Every strictly increasing choice of `size` indices in range is among the generated combinations. |
| Combinations.CombosSorted | pred.py:56 | The combinations of one size are generated in strictly increasing lexicographic order of their indices, as `itertools.combinations` yields them. |
| Combinations.Choose | pred.py:56 | Every combination of one size keeps the candidates' order: each has `size` elements and is a subsequence of the candidates. |
| Combinations.ChooseComplete | pred.py:56 | Picking the candidates at any strictly increasing index list of length `size` gives a combination that `Choose` yields. |
| Pred.Candidates | pred.py:33-43 | The candidate filter as a comprehension over the columns. Its properties are stated by `CandidatesSpec`. |
| Pred.Visits | pred.py:55-56 | The visit order of the search: the combinations of size 2, then 3, up to min(5, n). Its shape is stated by `VisitsShape` and `VisitsComplete`. |
| Pred.Scan | pred.py:50-77 | The running best over a visit order: strict `>` update starting from no model at 0. `ScanIsFirstArgmax` states what it selects. |
| Pred.SelectFeatures | pred.py:45-79 | `trainandselectfeatures` as a value: the scan of the visit order. `SelectFeaturesSpec` states its result. |
| Pred.EvaluateDataset | pred.py:97-158 | The processing of one dataset: skipped without a test file, a target or candidates, otherwise the search and the current-split count. `EvaluateDatasetSpec` states its outcomes. |
| Pred.DiscoverCandidateFeatures | pred.py:28-43 | The filter loop returns exactly the candidates the specification filter `Candidates` selects. |
| Pred.CandidatesSpec | pred.py:33-43 | The candidates are a subsequence of the columns, in input order. A column is a candidate iff it is present, not in the exclusion list, and either ends with "Lag1" or starts with a candidate prefix. Each candidate occurs as often as in the input, so distinct columns give distinct candidates. |
| Pred.TrainAndSelectFeatures | pred.py:45-79 | The nested loops give the same selection as the scan of the visit order with a strict `>` update starting from 0. |
| Pred.ScanCombos | pred.py:56-77 | The inner loop over the combinations of one size carries the running best on from the combinations already visited. It ends where the scan of the visits so far plus these combinations ends. |
| Pred.ScanIsFirstArgmax | pred.py:50-77 | The scan gives no model iff every visited usable combination scores 0. Otherwise it returns the first visited usable combination with the maximal score, and that score is positive. |
| Pred.VisitsShape | pred.py:55-56 | With fewer than 2 candidates nothing is visited. Each visited combination has size 2 to 5 and is a subsequence of the candidates. Sizes never decrease along the visit order. |
| Pred.VisitsComplete | pred.py:55-56 | Every combination of 2 to 5 candidates, taken in candidate order, is visited. |
| Pred.SelectFeaturesSpec | pred.py:50-79 | Fewer than 2 candidates give no model, and so does an all-zero score. A result is a size 2-5 subsequence of the candidates, present in both splits, with a positive count equal to its oracle score. It is the first visited combination with the maximal count. |
| Pred.RunPredictions | pred.py:90-158 | The driver loop returns exactly the summary entries of the evaluated datasets, in processing order. |
| Pred.EvaluateDatasetSpec | pred.py:97-158 | A dataset yields an entry iff its test file exists, both splits have the target and the search finds a model. The entry holds the name, the best features and their positive test count. Its current accuracy is present iff the current split exists and holds every best feature and the target. |
| Pred.EntriesOrder | pred.py:139-158 | The entries are the evaluated outcomes, one each, in order. |
| Pred.SummaryOrder | pred.py:83-158 | There is at most one entry per dataset, in processing order. Every evaluated dataset has an entry, and no skipped dataset has one. |
| Clean.DropDuplicates | clean.py:29 | `drop_duplicates(subset=keys)`: the rows that are the first of their key group, in order. `TrimRows` and `DropDuplicatesAndTrimSpec` state the rows kept. |
| Clean.Trim | clean.py:30 | `dropna(how="all").reset_index(drop=True)`. `TrimSpec` states the rows kept. |
| Clean.DropDuplicatesAndTrim | clean.py:28-31 | `dropduplicatesandtrim`: an empty table passes unchanged, a subset naming an absent column is a KeyError, otherwise deduplication and trim. `DropDuplicatesAndTrimSpec` states its result. |
| Clean.FFill | clean.py:51 | `ffill()`: a missing cell takes the filled value above it. `FFillSpec` states its cells. |
| Clean.FillColumn | clean.py:44-51 | The new contents of one targeted column under each strategy. `FillColumnSpec` states its cells. |
| Clean.FillTarget | clean.py:43-51 | One pass of the loop on a column, in place: it fails on an absent column or on median or mean of a column holding text, and otherwise fills the column as `FillStep` describes. |
| Clean.ValidateColumns | clean.py:54-59 | True iff every required column is a column of the table. |
| Clean.TrimSpec | clean.py:30 | `dropna(how="all").reset_index(drop=True)`: the kept rows are exactly the rows that are not all missing, in their original order, relabelled 0..k-1. Cells are copied, columns are unchanged, and no resulting row is all missing. |
| Clean.TrimKeepsAll | clean.py:30 | If some column has no missing cell, trimming drops no row and only renumbers. |
| Clean.KeysPresent | clean.py:29 | The absent-key list is empty iff every comparison key is a column. |
| Clean.TrimRows | clean.py:29-30 | Deduplicating and then dropping empty rows selects exactly the rows that are the first of their key group and not all missing, in increasing position. |
| Clean.KeptRowsDistinct | clean.py:29-30 | The kept rows differ pairwise on the keys, and none is all missing. |
| Clean.DropDuplicatesAndTrimSpec | clean.py:28-31 | An empty table (no rows or no columns) gives an empty table with the same columns, whatever the subset. Otherwise the result is an error iff some comparison key is not a column. When every key is a column, it keeps exactly the first occurrence of every key group, minus the all-missing rows, in original order, relabelled densely. No two result rows agree on the keys, and no result row is all missing. |
| Clean.DropDuplicatesAndTrimIdempotent | clean.py:28-31 | Applying `dropduplicatesandtrim` to its own output gives the same output. |
| Clean.LastPresent | clean.py:50-51 | Gives the nearest present cell at or above a row, and nothing when every cell up to that row is missing. |
| Clean.FFillSpec | clean.py:50-51 | Forward filling gives each cell the nearest present value at or above it, and leading gaps stay missing. |
| Clean.FFillIdempotent | clean.py:50-51 | Forward filling twice is the same as forward filling once. |
| Clean.FillColumnIdempotent | clean.py:43-51 | Filling a column a second time with the same strategy changes nothing. |
| Clean.FillAll | clean.py:43-51 | The fill loop keeps the column list, the row labels and the set of columns. |
| Clean.HandleMissing | clean.py:33-52 | The in-place loop leaves `df` and the success flag as the specification loop `FillAll` gives them. Its targets are the given columns, or the numeric columns when none are given. It stops early on an absent target, or on a median or mean of a column holding text. |
| Clean.FillAllFrame | clean.py:41-51 | No untargeted column is modified. |
| Clean.FillAllOk | clean.py:43-51 | The loop completes iff the strategy is unknown or every target can be filled: it is a column and, for median and mean, holds no text. Otherwise it stops at the first target that cannot be filled, with a KeyError or a TypeError. |
| Clean.FillAllUnknown | clean.py:43-51 | An unknown strategy leaves the table unchanged. |
| Clean.FillAllTargets | clean.py:43-51 | When the loop completes, every targeted column holds the strategy's fill of its original cells. |
| Clean.FillColumnSpec | clean.py:44-51 | Present cells are kept. "zero" fills every missing cell with 0. "ffill" takes the nearest earlier present value. "median" and "mean" fill every gap with one value computed from the column. An unknown strategy changes nothing. |
| Clean.NumericTargets | clean.py:41-42 | With no column list, exactly the numeric columns are targeted, so the loop always completes. |
| Tables.Shift | features.py:24 | `Series.shift(lag)`: a column as long as its input. `LagAllValues` and `IndicatorsPreviousClose` state its cells where it is used. |
| Features.LagAll | features.py:21-25 | The loop of `addlagfeatures` as a value. `LagAllFrame`, `LagAllKeys` and `LagAllValues` state its result. |
| Features.RunLengths | features.py:67-68 | `groupby(grp).cumcount() + 1` over the change groups of a column, as long as the column. `RunLengthsStep` states its cells. |
| Features.Engineered | features.py:70-101 | The feature steps after the run length, up to the final trim. The `Engineered…` lemmas state what they keep and add. |
| Features.ProcessFile | features.py:57-103 | The table written for one current file, or the error that skips it. `ProcessFileError`, `ProcessFileRows` and `ProcessFileRunLength` state its result. |
| Features.LagNameInjective | features.py:24 | Different source columns get different lag-column names. |
| Features.AddLagFeatures | features.py:21-25 | The in-place loop leaves `df` as the specification `LagAll` gives it. |
| Features.LagStepFrame | features.py:22-24 | One iteration adds or overwrites only the lag column of a present source, holding its shifted cells. An absent source changes nothing. |
| Features.LagAllFrame | features.py:22-25 | Lagging keeps the row labels, keeps the existing columns in front, and leaves every column that is not a lag column of `cols` unchanged. Every new column is such a lag column. |
| Features.LagAllKeys | features.py:22-24 | Without name clashes, lagging adds exactly the lag columns of the sources that are present. Absent sources are ignored. |
| Features.LagAllValues | features.py:22-24 | Without name clashes, row i of the lag column of a present source c holds row i - lag of c, or is missing when there is no such row. |
| Features.LagSourcesNoClash | features.py:75-77 | The seven lag sources have lag names "<c>Lag1" and none of these is itself a source. |
| Features.DayPositive | features.py:66 | The flag is 1 or 0, and it is 1 iff the daily percentage is a number above 0. A missing value gives 0. |
| Features.RunLengthsStep | features.py:67-68 | The run length is 1 on row 0 and on every row whose flag differs from the previous row's. Otherwise it is the previous value plus 1, so it is always at least 1. |
| Features.CustomIndicator | features.py:27-33 | The indicator is a missing value on every row of the table. |
| Features.Difference | features.py:96 | A cell of the difference is missing iff an operand is not a number. Otherwise it is their difference. |
| Features.AddPlaceholders | features.py:57-62 | The in-place steps give the table `WithPlaceholders` describes. |
| Features.AddRunLength | features.py:64-68 | The in-place step fails iff `WithRunLength` does, and otherwise gives its table. |
| Features.AddCalendar | features.py:79-84 | The in-place steps give the table `WithCalendar` describes. |
| Features.AddIndicators | features.py:86-96 | The in-place steps give the table `WithIndicators` describes. |
| Features.DropYearWeek | features.py:98-101 | The in-place drops give the table `WithoutYearWeek` describes. |
| Features.ProcessCurrent | features.py:57-103 | The per-file steps, run on a local DataFrame, give exactly the specification result `ProcessFile`. |
| Features.ProcessFileError | features.py:58-66 | Processing fails iff the daily percentage comes from the input (open or close is missing) and holds a string, which makes `> 0` raise. |
| Features.LagSourcesKeep | features.py:74-77 | Lagging the sources leaves every column not ending in '1' present or absent as before, with the same cells. |
| Features.OpenExtremaFrame | features.py:70-72 | The open-to-extrema step changes only its two placeholder columns. |
| Features.LagSourcesFrame | features.py:74-77 | The lag step adds columns and changes none whose name does not end in '1'. |
| Features.CalendarFrame | features.py:79-84 | The calendar step changes only Year, Week and DayOfWeek. The weekday is the date's day name. |
| Features.IndicatorsFrame | features.py:86-96 | The indicator step changes only the indicator columns. The previous close is the close shifted by one, or all missing. The indicator and its difference are all missing. |
| Features.WithoutYearWeekFrame | features.py:98-101 | Year and Week are removed, and every other column is kept unchanged. |
| Features.EngineeredKeeps | features.py:70-101 | Every column that is neither derived nor a lag column passes the feature steps unchanged, present or absent. |
| Features.EngineeredDropsYearWeek | features.py:99-101 | Year and Week are absent after the feature steps, and every other input column is still present. |
| Features.EarlyStagesKeep | features.py:70-77 | The stages before the calendar keep every column that is neither a placeholder nor a lag column. |
| Features.MidStagesKeep | features.py:70-84 | The stages before the indicators keep every column that is neither derived nor a lag column. |
| Features.LateStagesKeep | features.py:86-101 | The stages after the calendar keep every column they neither assign nor drop. |
| Features.EngineeredWeekday | features.py:80-84 | With a date column, DayOfWeek is the day name of each date. |
| Features.IndicatorsPreviousClose | features.py:91 | PreviousClose is the close shifted by one row when there is a close, and all missing otherwise. |
| Features.LateStagesPreviousClose | features.py:98-101 | The final drops keep PreviousClose. |
| Features.EngineeredPreviousClose | features.py:91 | After the feature steps, PreviousClose is the close shifted by one row when there is a close, and all missing otherwise. |
| Features.EngineeredIndicator | features.py:94-96 | CustomIndicator and CustomIndicatorDiff are present and all missing. |
| Features.EngineeredLags | features.py:74-77 | For each present lag source c, the column "<c>Lag1" is c shifted down one row. |
| Features.ProcessFileRows | features.py:103 | The written rows are exactly the engineered rows that are not all missing, in order, numbered 0..k-1. No written row is all missing. |
| Features.RunLengthStage | features.py:64-68 | The run-length step adds DayPositive, the cell-by-cell flag of DailyPct, and ConsecutivePosNegDays, its run lengths. |
| Features.EngineeredFlag | features.py:70-101 | The flag and run-length columns pass the later feature steps unchanged. |
| Features.FlagRowsKept | features.py:103 | A flag column that is never missing keeps every row through the final trim, so its cells and the run lengths are written unchanged. |
| Features.EngineeredRunLength | features.py:64-103 | The flag and run length survive all later steps and the trim, which drops no row. |
| Features.ProcessFileRunLength | features.py:64-103 | With a daily percentage, no row is dropped. The written DayPositive is the flag of DailyPct, and the written ConsecutivePosNegDays is the run length of the written DayPositive. |
| Norm.Available | norm.py:32 | The comprehension `[c for c in wanted if c in df.columns]`, used at norm.py:32 and norm.py:41. `AvailableSpec` states its result. |
| Norm.CopyOriginals | norm.py:47-48 | The `…Orig` copy loop as a value: it keeps the row labels and every column. `CopyOriginalsKeys`, `CopyOriginalsUnchanged` and `CopyOriginalsValues` state the rest. |
| Norm.Normalize | norm.py:32-50 | The outcome for one dataset: skipped without a normalisable training column, otherwise the fitted outcome. `NormalizeOutcomes` and `NormalizedSpec` state it. |
| Norm.NormalizeFitted | norm.py:40-50 | The outcome once the scaler is fitted: skipped, `FeatureMismatch`, or the copied and scaled table. `FittedOutcomes` states it. |
| Norm.AvailableSpec | norm.py:32 | The available columns are the wanted ones that are present, in the wanted order, each once when wanted once. |
| Norm.FirstFew | norm.py:47 | `cols[:3]`: the first min(3, n) columns. |
| Norm.OrigNameInjective | norm.py:48 | Different columns get different `…Orig` names. |
| Norm.CopyOriginalsInPlace | norm.py:47-48 | The in-place copy loop gives the table the specification `CopyOriginals` describes. |
| Norm.CopyStepFrame | norm.py:48 | One copy adds the `…Orig` column holding the original's cells, and no other column changes. |
| Norm.CopyOriginalsKeys | norm.py:47-48 | Copying adds exactly the `…Orig` names of the copied columns. |
| Norm.CopyOriginalsUnchanged | norm.py:47-48 | No column other than the copies changes. |
| Norm.CopyOriginalsValues | norm.py:47-48 | Without clashes, each copy holds its original's cells from before the loop. |
| Norm.ScaleColumns | norm.py:50 | The transformed values: one column for each listed column and no other, each as long as the original, with every cell mapped by the fitted scaler. |
| Norm.NormalizeColsFacts | config.py:41-46 | The normalisable columns are distinct, and none is the `…Orig` copy of another. |
| Norm.NormalizeCurrent | norm.py:32-50 | The per-dataset steps give exactly the specification outcome `Normalize`. |
| Norm.NormalizeOutcomes | norm.py:32-50 | Four outcomes. No training column is normalisable: skipped. None of those columns is in the current table: skipped. Only some are: the scaler rejects the subset. All are: normalised. |
| Norm.NormalizeFittedCurrent | norm.py:40-50 | Once the scaler is fitted, the copy loop and the in-place transform on a local DataFrame give exactly the outcome `NormalizeFitted`. |
| Norm.FittedOutcomes | norm.py:40-50 | Once fitted on a non-empty training list: skipped iff no training column is in the current table, rejected iff only some are, and normalised iff all are. |
| Norm.WhereKeepsAll | norm.py:41 | When every wanted column is present, the current intersection is the whole training list. |
| Norm.NormalizedSpec | norm.py:37-50 | A normalised table has the current rows and gains exactly the min(3, n) `…Orig` copies, each equal to its original's pre-transform cells. Each normalisable column holds its cells scaled with parameters fitted on the training projection alone. Every other column, the copies included, is unchanged. |
| Norm.CopyThenScale | norm.py:46-50 | Copying the first few columns and then scaling all of them: the copies keep the unscaled cells, the scaled columns hold the scaled input cells, and nothing else changes. |
| Ingest.Align | ingest.py:38-40 | The alignment as a value: it keeps the row labels. `AlignSpec` and `AlignOrder` state its columns. |
| Ingest.AppendNewInfoSpec | ingest.py:35-45 | The table written back, as a value. `AppendNewInfoRows` and `AppendNewInfoColumns` state it. |
| Ingest.BuildNewRow | ingest.py:17-26 | The row has exactly the schema's names as keys, each mapped to a missing value. |
| Ingest.NewRowUnique | ingest.py:22-26 | The row the loop builds is the row `NewRow` describes. |
| Ingest.EmptyTable | ingest.py:42 | `pd.DataFrame(columns=schema)` has the schema's columns and no rows. |
| Ingest.AppendRow | ingest.py:45 | Concatenating a row whose keys are columns keeps the column list and the set of columns. |
| Ingest.AddEmptyStepFrame | ingest.py:40 | One `df[c] = None` makes c an all-missing column and changes no other column. |
| Ingest.AddEmptyColumnsFrame | ingest.py:39-40 | The loop adds exactly the listed names as all-missing columns, and leaves every other column unchanged. |
| Ingest.AddEmptyColumnsOrder | ingest.py:39-40 | New names are appended after the existing columns once each, at their first occurrence. A repeated name overwrites its own column in place. |
| Ingest.AlignInPlace | ingest.py:38-40 | The in-place alignment loop gives the table `Align` describes. |
| Ingest.AlignSpec | ingest.py:37-40 | After alignment every schema column is present. The existing columns keep their cells, and the added columns are missing on every existing row. |
| Ingest.AlignOrder | ingest.py:38-40 | The missing schema columns follow the existing ones once each, in the order the schema first names them. For a schema without repetitions, that is schema order. |
| Ingest.AppendNewInfo | ingest.py:28-48 | The steps give the specification table `AppendNewInfoSpec`, and the result flag is always true. |
| Ingest.AppendNewInfoRows | ingest.py:35-45 | The written table has one more row than the table read (exactly one when there is no file), labelled 0..n. It holds the read columns and every schema column. Earlier rows keep their cells, and are empty in the added columns. The new row is empty everywhere. |
| Ingest.AppendNewInfoColumns | ingest.py:35-45 | With a file, the read columns come first and each missing schema column follows once, in the order the schema first names it. Without a file, the columns are the schema and the only row is the new one. |

## Left out

- File and directory handling is not modelled. This covers listing
  directories, testing for files, creating directories, reading and writing
  CSV files, and joining paths and stripping suffixes. The drivers take the
  tables already read as inputs and return the tables they would write.
  - Prediction takes one `PredInput` per training file.
  - Normalisation takes the two tables of one dataset.
  - Ingestion takes `Option<Table>` for the current file.
- scikit-learn is not modelled: the logistic-regression fit and predict,
  `accuracy_score` and `classification_report`. The oracle counts correct
  predictions. The `Pred` columns written to the prediction files are not
  modelled, and neither is the rounding of accuracies to 4 decimals.
- MinMaxScaler arithmetic is not modelled, and neither are fit or transform
  failures on non-numeric data: the scaler is abstract.
- Norm.NormalizeCurrent: a current table holding only some of the training
  columns becomes `FeatureMismatch`. In the source, the scaler then raises a
  ValueError that nothing catches, so the rest of the normalisation run is
  abandoned. The loop over the other datasets is not modelled.
- Median and mean values are not computed: they are abstract functions from
  a column to a number, or to none when there is no number. Which columns
  hold text is modelled, so the TypeError they raise on text is modelled.
- Features.AddCalendar: the calendar functions are unconstrained on a missing
  date. In pandas a NaT date gives NaN in Year, Week and DayOfWeek; here those
  cells may hold any value, which only matters to the final trim of a row
  whose every other cell is missing.
- Date parsing (`to_datetime`), sorting by date, numeric coercion,
  `isocalendar` and `day_name` are not modelled.
  - `coercedates` and `coercenumerics` are not modelled.
  - Features.ProcessCurrent takes the table already sorted by date and
    relabelled.
  - The calendar fields come from a function parameter.
- Clean.IsNumeric: pandas' numeric dtype is approximated by "every cell is a
  number or missing". An all-missing object column therefore counts as
  numeric here.
- Clean.DropDuplicatesAndTrim: an empty `subset` list is modelled as
  comparing on no columns, so only the first row is kept. pandas' own
  behaviour for an empty subset is not modelled.
- Ingest.AppendNewInfo: without a file, the schema must have no repetitions.
  pandas builds a table with repeated column labels there, which this table
  model cannot represent.
- Ingest.EmptyTable: `pd.DataFrame(columns=schema)` (ingest.py:42) requires a
  schema without repetitions, for the same reason.
- Ingest.AppendRow: requires every key of the new row to be a column
  already. `appendnewinfo` always meets this after alignment. `concat`
  adding columns is not modelled.
- `try`/`except` over each current file is modelled as the `Err` result of
  `ProcessFile`. Logging and `print` output are not modelled.
- Placeholder columns that are constant NaN (daily percentage, true range,
  ATR, open-to-extrema percentages, weekly VWAP, gaps) are modelled as
  all-missing columns with no further meaning.
- Floating point is not modelled: numbers are exact reals.
