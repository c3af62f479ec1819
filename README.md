# Machine learning pipeline — a Dafny model

This project models the deterministic core of an agricultural crop-yield
pipeline and proves properties of it. The pipeline has five parts:

- **Feature table.** `DataProcessor` in `scripts/table_ML.py` reads four
  raw tables: rainfall, temperature, pesticides and yield. It filters each
  one, left-joins them on `(area, year)` starting from the yield table, and
  then keeps the canonical columns, drops rows without a target and drops
  duplicate rows.
- **Training and prediction.** `train.py` covers:
  - the paginated API fetch with retries and a CSV fallback;
  - column validation with fuzzy remapping;
  - numeric conversion and imputation;
  - the `rain_temp_interact` column;
  - target handling and the 100-sample guard;
  - the saved model bundle, `load_model` and `predict`;
  - the binary scores in `calculate_metrics`.
- **Feature loader.** `scripts/load_ml_features.py` drops and recreates the
  `ml_features` table with retries. It cleans and converts CSV rows, then
  inserts them in chunks. A chunk that fails is retried row by row.
- **Generic loader.** `database/load_mysql.py` normalises column names,
  cleans cells and inserts chunk by chunk. A chunk that fails is skipped.
- **Schema reset.** `database/reset_mysql.py` runs three fixed statements.
  It then splits the schema file on `;` and executes every statement that is
  not a database-level one, carrying on past failures.

Module layout:

| module | models |
|---|---|
| `Wrappers` | `Option` and `Result` |
| `Frames` | cells, `pd.to_numeric`, filtering, order-preserving deduplication, subsequences |
| `Text` | `str.strip`, `split`, `join`, `startswith`, `in`, `replace`, `lower` |
| `FeatureTable` | `scripts/table_ML.py` |
| `Fetch` | `fetch_ml_features_data` |
| `Stats` | the median and `calculate_metrics` |
| `Train` | `train_model` |
| `Inference` | the bundle, `load_model` and `predict` |
| `MlFeaturesLoader` | `scripts/load_ml_features.py` |
| `MysqlLoader` | `database/load_mysql.py` |
| `SchemaReset` | `database/reset_mysql.py` |

Everything outside the program is a function-typed parameter (an oracle):

- the HTTP API and the answer to each request attempt;
- `difflib.get_close_matches`, the fitted `StandardScaler` and the XGBoost
  fit and prediction;
- whether each `executemany` or `execute` call succeeds.

A method that holds a loop in the source is proved equal to a specification
function, and the properties are proved about that function. Where a
method's loop updates state, the method keeps the loop.

Cell values are `Cell = Num(real) | Text(string) | Null`. A text that
`pd.read_csv` would have parsed as a number is already a `Num`, so `Text`
stands for non-numeric text. `pd.to_numeric(errors="coerce")` is therefore
`Num(x) -> x` and anything else gives a missing value.

Two behaviours of the code are easy to get wrong, and the model follows the code:

- **Missing yield source.** With no yield source, `merge_datasets` does not
  stop. It starts from the first dataset read and then left-joins that
  dataset with itself, because the loop skips only the key `yield`
  (`scripts/table_ML.py:158-171`). See `FeatureTable.MergeWithoutYield` and
  `FeatureTable.SelfJoinWithoutYield`.
- **Failed chunk in the generic loader.** `database/load_mysql.py` rolls a
  failed chunk back and moves on to the next chunk. Only
  `scripts/load_ml_features.py` retries a failed chunk row by row.

## Model

| member | source | states |
|---|---|---|
| `FeatureTable.RainfallRows` | Machine_learning_pipeline/scripts/table_ML.py:59-65 | the rows are the rows of the records whose rainfall parses as a number > 0, in the records' order |
| `FeatureTable.RainfallRowsKept` | Machine_learning_pipeline/scripts/table_ML.py:59-65 | a record's row is present iff its rainfall parses as a number > 0; every row comes from such a record; no more rows than records |
| `FeatureTable.LoadRainfall` | Machine_learning_pipeline/scripts/table_ML.py:45-69 | None iff the file cannot be read; otherwise a well-formed table with columns area, year, rainfall whose rows are the kept records' rows in file order, and nothing else |
| `FeatureTable.TemperatureRows` | Machine_learning_pipeline/scripts/table_ML.py:85-88 | the rows are the rows of the records with -50 <= temperature <= 60 (both bounds inclusive), in the records' order |
| `FeatureTable.TemperatureRowsKept` | Machine_learning_pipeline/scripts/table_ML.py:85-88 | a record's row is present iff -50 <= temperature <= 60; every row comes from such a record |
| `FeatureTable.LoadTemperature` | Machine_learning_pipeline/scripts/table_ML.py:71-92 | None iff the file is missing or a text temperature makes the comparison raise; otherwise columns area, year, temperature whose rows are the kept records' rows in file order, and nothing else |
| `FeatureTable.TemperatureTextFails` | Machine_learning_pipeline/scripts/table_ML.py:85-92 | one non-numeric temperature makes the reader return None |
| `FeatureTable.PesticideRows` | Machine_learning_pipeline/scripts/table_ML.py:108-114 | the rows are the rows of the 'Pesticides (total)' records with a value >= 0, in the records' order |
| `FeatureTable.PesticideRowsKept` | Machine_learning_pipeline/scripts/table_ML.py:108-114 | among 'Pesticides (total)' records, a record's row is present iff its value is >= 0; every row comes from such a record |
| `FeatureTable.LoadPesticides` | Machine_learning_pipeline/scripts/table_ML.py:94-118 | None iff unreadable or the comparison on the filtered values raises; otherwise columns area, year, pesticide_usage whose rows are the kept total records' rows in file order |
| `FeatureTable.YieldRows` | Machine_learning_pipeline/scripts/table_ML.py:135-141 | the rows are the rows of the 'Yield' records with crop_yield > 0, in the records' order |
| `FeatureTable.YieldRowsKept` | Machine_learning_pipeline/scripts/table_ML.py:135-141 | among 'Yield' records, a record's row is present iff crop_yield > 0; every row comes from such a record |
| `FeatureTable.LoadYield` | Machine_learning_pipeline/scripts/table_ML.py:120-145 | None iff unreadable or the comparison raises; otherwise columns area, year, crop_type, crop_yield whose rows are the kept 'Yield' records' rows in file order, each with a positive crop_yield |
| `FeatureTable.AddedColumns` | Machine_learning_pipeline/scripts/table_ML.py:174-179 | the right table's columns the join adds are exactly those the left lacks, in the right table's order |
| `FeatureTable.Matches` | Machine_learning_pipeline/scripts/table_ML.py:176 | the right rows joined to a left row are exactly those with its (area, year) |
| `FeatureTable.OverlayExtends` | Machine_learning_pipeline/scripts/table_ML.py:174-179 | a joined row keeps every left column value |
| `FeatureTable.UniqueKeysAtMostOneMatch` | Machine_learning_pipeline/scripts/table_ML.py:176 | a right table with unique (area, year) keys matches each left row at most once |
| `FeatureTable.JoinRowShape` | Machine_learning_pipeline/scripts/table_ML.py:174-179 | one left row gives max(1, matches) rows, each extending that left row |
| `FeatureTable.JoinRowsKeepLeft` | Machine_learning_pipeline/scripts/table_ML.py:174-179 | a left join never has fewer rows than the left table, every left row reappears widened, and every output row widens a left row |
| `FeatureTable.JoinRowsUniqueKeys` | Machine_learning_pipeline/scripts/table_ML.py:174-179 | with unique right keys the join is one output row per left row, each extending it |
| `FeatureTable.JoinRowsOnlyColumns` | Machine_learning_pipeline/scripts/table_ML.py:174-179 | joined rows carry only the left columns and the added ones |
| `FeatureTable.LeftJoinWellFormed` | Machine_learning_pipeline/scripts/table_ML.py:174-179 | joining two well-formed tables gives a well-formed table |
| `FeatureTable.IndexOfName` | Machine_learning_pipeline/scripts/table_ML.py:155 | the position of the first dataset with a given name, or the length when there is none |
| `FeatureTable.MergeDatasets` | Machine_learning_pipeline/scripts/table_ML.py:147-187 | the merge loop returns what the merge specification returns |
| `FeatureTable.JoinAllKeepsRows` | Machine_learning_pipeline/scripts/table_ML.py:165-181 | the fold of left joins never loses rows, every base row reappears widened, every output row widens a base row, and the table stays well formed |
| `FeatureTable.JoinAllUniqueKeys` | Machine_learning_pipeline/scripts/table_ML.py:165-181 | when every joined table has unique keys, the fold keeps the base row count and each output row extends its base row |
| `FeatureTable.JoinAllColumns` | Machine_learning_pipeline/scripts/table_ML.py:165-181 | every merged column comes from the base or from a dataset that was joined in |
| `FeatureTable.JoinAllColumnsPrefix` | Machine_learning_pipeline/scripts/table_ML.py:174-179 | the base columns stay first and in order |
| `FeatureTable.MergeStartsFromYield` | Machine_learning_pipeline/scripts/table_ML.py:154-181 | with a non-empty yield table the merge starts from it: its columns first, and its rows kept at least once (exactly once with unique keys elsewhere) |
| `FeatureTable.MergeWithoutYield` | Machine_learning_pipeline/scripts/table_ML.py:158-181 | without a non-empty yield table the merge does not stop: it folds from the first dataset, and crop_yield appears only if a dataset brought it |
| `FeatureTable.SelfJoinWithoutYield` | Machine_learning_pipeline/scripts/table_ML.py:158-179 | a rainfall-only merge joins rainfall with itself: two rows sharing a key become four |
| `FeatureTable.Finalize` | Machine_learning_pipeline/scripts/table_ML.py:194-219 | output columns are exactly the input's, in priority order; no row lacks crop_yield when that column is present; no duplicate rows; each output row is an input row; each input row with a target survives; never more rows; the rows keep the input's order, each at its first occurrence |
| `FeatureTable.FinalRows` | Machine_learning_pipeline/scripts/table_ML.py:206-217 | the rows with crop_yield (when that column exists), each once, forming a subsequence of the input rows in the order of their first occurrences |
| `FeatureTable.AllInPriority` | Machine_learning_pipeline/scripts/table_ML.py:195 | every modelled column is one of the priority columns |
| `FeatureTable.FinalizeIdempotent` | Machine_learning_pipeline/scripts/table_ML.py:194-219 | finalising twice is finalising once |
| `FeatureTable.FinalizeWellFormed` | Machine_learning_pipeline/scripts/table_ML.py:194-219 | finalising keeps a table well formed |
| `FeatureTable.FinalizeKeepsTarget` | Machine_learning_pipeline/scripts/table_ML.py:207-215 | a row with a target survives, so the result is not empty and keeps crop_yield |
| `FeatureTable.FinalizeFromYield` | Machine_learning_pipeline/scripts/table_ML.py:189-219 | finalising a merge built on a non-empty yield table gives a non-empty table whose rows all have crop_yield |
| `FeatureTable.Available` | Machine_learning_pipeline/scripts/table_ML.py:246 | the datasets kept are exactly those that were read |
| `FeatureTable.KeyedFacts` | Machine_learning_pipeline/scripts/table_ML.py:238-243 | the datasets are keyed in the order rainfall, temperature, pesticides, yield, and only the last is named yield |
| `FeatureTable.ProcessDataOutcome` | Machine_learning_pipeline/scripts/table_ML.py:221-295 | None when validation fails or nothing was read; a returned table is non-empty, duplicate-free, in priority column order and has no row without a target |
| `FeatureTable.FinalWithYield` | Machine_learning_pipeline/scripts/table_ML.py:256-268 | merging and finalising datasets with a non-empty yield table yields a table |
| `FeatureTable.ProcessDataWithYield` | Machine_learning_pipeline/scripts/table_ML.py:221-291 | a yield file with at least one kept row guarantees a result that has crop_yield on every row |
| `Fetch.Attempts` | Machine_learning_pipeline/train.py:160-172 | a page succeeds iff some attempt from the current one to `retries` answers, and the page returned is the answer of the first attempt that answers; otherwise the last failure is raised |
| `Fetch.FetchMlFeaturesData` | Machine_learning_pipeline/train.py:131-196 | the paging loop with its retry loop returns what the fetch specification returns |
| `Fetch.PageHonoursLimit` | Machine_learning_pipeline/train.py:156-164 | a page never holds more rows than the limit sent |
| `Fetch.PagesBounded` | Machine_learning_pipeline/train.py:155-186 | rows accumulate by extension and never exceed target_records |
| `Fetch.FetchBounded` | Machine_learning_pipeline/train.py:155-196 | the fetched rows number at most target_records and are distinct |
| `Fetch.NoRetriesFails` | Machine_learning_pipeline/train.py:160-174 | with retries < 1 and rows to fetch no request is made, and the fetch fails |
| `Fetch.RetriesIrrelevant` | Machine_learning_pipeline/train.py:160-165 | an API that answers every first attempt gives the same rows for any retry count |
| `Fetch.EmptyFirstPage` | Machine_learning_pipeline/train.py:174-176 | an empty first page ends the fetch with no rows |
| `Stats.SortReals` | Machine_learning_pipeline/train.py:98 | the values sorted ascending, as a permutation |
| `Stats.SortedUnique` | Machine_learning_pipeline/train.py:98 | two sorted permutations of the same values are equal, so the median is well defined |
| `Stats.Median` | Machine_learning_pipeline/train.py:98 | the median lies between the smallest and largest value |
| `Stats.MedianOfPermutation` | Machine_learning_pipeline/train.py:98 | the median depends only on the values, not their order |
| `Stats.MedianOfConstant` | Machine_learning_pipeline/train.py:98 | the median of equal values is that value |
| `Stats.CountLabelsTotal` | Machine_learning_pipeline/train.py:99-100 | the four (true label, predicted label) counts add up to the number of samples |
| `Stats.CountLabelsPerfect` | Machine_learning_pipeline/train.py:99-100 | predicting the true values gives no false positives or false negatives |
| `Stats.RatioBounded` | Machine_learning_pipeline/train.py:101-103 | a ratio with zero_division=0 lies in [0, 1] and is 1 for equal non-zero counts |
| `Stats.BinaryMetrics` | Machine_learning_pipeline/train.py:88-105 | for arrays of equal length (r2_score raises otherwise), the scores are set iff y_true is non-empty and holds two distinct values |
| `Stats.BinaryMetricsBounded` | Machine_learning_pipeline/train.py:95-103 | accuracy, precision and recall lie in [0, 1] |
| `Stats.PerfectPrediction` | Machine_learning_pipeline/train.py:95-103 | a perfect prediction scores accuracy 1, with precision equal to recall |
| `Train.AcquireData` | Machine_learning_pipeline/train.py:221-234 | the API frame is used iff the fetch succeeded with rows; otherwise the CSV; error iff both are unavailable |
| `Train.ResolveFeatures` | Machine_learning_pipeline/train.py:259-286 | a missing target is fatal; afterwards every feature exists and every present one is kept, and each kept name is a requested feature or the fuzzy match of a missing one; with a suggestion the result is the suggested list restricted to the frame, without one (allow_missing on) the present features; the error for missing features happens iff allow_missing is off and no fuzzy suggestion exists |
| `Train.ResolveAutoMaps` | Machine_learning_pipeline/train.py:266-276 | a missing feature whose fuzzy match is a frame column is replaced by that match in the resolved list |
| `Train.SelectNumeric` | Machine_learning_pipeline/train.py:295-300 | every feature column becomes its numeric conversion, in the requested order |
| `Train.GroupFill` | Machine_learning_pipeline/train.py:314-317 | the group-by-area median fill keeps present values in rows with an area and leaves null-area rows empty; a missing value in an area is filled iff that area has a present value, with the median of that area's present values, which lies between two values observed in that area |
| `Train.GroupValues` | Machine_learning_pipeline/train.py:315-316 | every value is a present value of a row in that area, and every present value of such a row is among them |
| `Train.MedianInArea` | Machine_learning_pipeline/train.py:315-316 | an area's median lies between two values observed in that area |
| `Train.FillMissing` | Machine_learning_pipeline/train.py:318-323 | the global-median fill leaves no gaps and keeps present values; a gap becomes the median of the present values, or 0 when there are none |
| `Train.ImputeProperties` | Machine_learning_pipeline/train.py:310-324 | imputation leaves no nulls and keeps present values in rows with an area; each value is 0 or lies between two values observed in the column |
| `Train.NonNumericFeatureBecomesZero` | Machine_learning_pipeline/train.py:298-323 | a column with no numeric value is imputed as all zeros |
| `Train.ImputeAll` | Machine_learning_pipeline/train.py:310-324 | imputation keeps the column names and the row count |
| `Train.ImputeColumns` | Machine_learning_pipeline/train.py:313-324 | the per-column loop computes the imputation specification |
| `Train.ConvertFeatures` | Machine_learning_pipeline/train.py:295-300 | the per-column conversion loop computes the numeric selection |
| `Train.ImputeAllComplete` | Machine_learning_pipeline/train.py:310-324 | after imputation no feature value is missing |
| `Train.AddInteraction` | Machine_learning_pipeline/train.py:348-351 | rain_temp_interact is appended iff rainfall and temperature exist, and it equals their product row by row |
| `Train.AddInteractionComplete` | Machine_learning_pipeline/train.py:348-351 | the interaction keeps a complete matrix complete |
| `Train.ScaleAll` | Machine_learning_pipeline/train.py:355-359 | every value is replaced by the scaler's output for its column |
| `Train.FillTarget` | Machine_learning_pipeline/train.py:386-393 | present targets are kept; each missing one becomes the median of the present targets, which lies between two observed targets, or 0 when there is none |
| `Train.KeptRows` | Machine_learning_pipeline/train.py:376-383 | a row survives drop_na iff none of its features and not its target is missing; survivors stay in order |
| `Train.DropIncomplete` | Machine_learning_pipeline/train.py:376-385 | the kept rows hold exactly the surviving features and targets, with nothing missing |
| `Train.PrepareComplete` | Machine_learning_pipeline/train.py:295-393 | the prepared matrix is complete; it keeps every row without drop_na and never gains rows; its columns are the features plus the interaction |
| `Train.TrainModel` | Machine_learning_pipeline/train.py:212-481 | training returns what the training specification returns (with the drop_na target taken from the surviving rows) |
| `Train.TrainOutcomeFacts` | Machine_learning_pipeline/train.py:402-466 | a trained bundle has at least 100 samples, no more than the frame's rows (all of them without drop_na), the requested target, and distinct feature columns drawn from the frame plus the interaction |
| `Train.TooFewRowsFails` | Machine_learning_pipeline/train.py:402-403 | fewer than 100 rows always fails |
| `Train.TrainAsWritten` | Machine_learning_pipeline/train.py:376-407 | as written, training with drop_na can never succeed |
| `Train.DropNaAlwaysFails` | Machine_learning_pipeline/train.py:385-406 | 100 complete rows train with the intended target but fail as written |
| `Inference.SaveBundle` | Machine_learning_pipeline/train.py:461-466 | the saved dictionary holds model, feature_columns, target_column and scaler |
| `Inference.LoadModel` | Machine_learning_pipeline/train.py:115-125 | not found iff no file; success iff model and feature_columns are present; otherwise the error names exactly the missing required keys |
| `Inference.ReindexVector` | Machine_learning_pipeline/train.py:492-497 | one value per bundle column, in bundle order: the record's numeric value, else 0 |
| `Inference.Predict` | Machine_learning_pipeline/train.py:486-500 | load errors pass through; otherwise the model evaluated on the reindexed raw record |
| `Inference.PredictAfterSave` | Machine_learning_pipeline/train.py:461-500 | a bundle saved by training predicts on the record reindexed to its feature columns |
| `Inference.UnknownFeaturesAreZero` | Machine_learning_pipeline/train.py:493-497 | an empty record is fed to the model as all zeros |
| `Inference.TrainingVector` | Machine_learning_pipeline/train.py:348-359 | the corrected prediction input has one value per bundle column |
| `Inference.PredictCorrected` | Machine_learning_pipeline/train.py:486-500 | load errors pass through; otherwise the model evaluated on the record prepared as training prepared it |
| `Inference.InteractionRowIsRawFeature` | Machine_learning_pipeline/train.py:348-351 | a training row's interaction value is recomputed from the record |
| `Inference.CorrectedSeesTrainingRow` | Machine_learning_pipeline/train.py:486-500 | the corrected input for a training row's record equals that row as the model saw it |
| `Inference.PredictIgnoresScaler` | Machine_learning_pipeline/train.py:493-499 | as written, a scaled training row is fed unscaled to the model |
| `MlFeaturesLoader.CleanCell` | Machine_learning_pipeline/scripts/load_ml_features.py:159-161 | a cell becomes null iff it is null, '' or '..' |
| `MlFeaturesLoader.InsertColumns` | Machine_learning_pipeline/scripts/load_ml_features.py:164-172 | the insert columns are the canonical columns present in the CSV, in canonical order |
| `MlFeaturesLoader.InsertQueryMarkers` | Machine_learning_pipeline/scripts/load_ml_features.py:174-175 | the query has one %s marker per insert column |
| `MlFeaturesLoader.TruncateToInt` | Machine_learning_pipeline/scripts/load_ml_features.py:192 | int() truncates toward zero |
| `MlFeaturesLoader.ConvertValue` | Machine_learning_pipeline/scripts/load_ml_features.py:188-196 | null stays null; year becomes an int; measures become floats; other columns keep their value; conversion fails iff a year or measure is text |
| `MlFeaturesLoader.ConvertRow` | Machine_learning_pipeline/scripts/load_ml_features.py:186-198 | a row converts iff every cell does, giving one value per column |
| `MlFeaturesLoader.ConvertedRows` | Machine_learning_pipeline/scripts/load_ml_features.py:184-206 | no more tuples than CSV rows |
| `MlFeaturesLoader.ConvertedRowsAllConvert` | Machine_learning_pipeline/scripts/load_ml_features.py:184-199 | when every row converts, the tuples are the rows' conversions in order |
| `MlFeaturesLoader.ConvertRows` | Machine_learning_pipeline/scripts/load_ml_features.py:180-206 | the row loop computes the converted tuples; success_count is their number and success + error counts equal the CSV rows |
| `MlFeaturesLoader.RowByRow` | Machine_learning_pipeline/scripts/load_ml_features.py:230-239 | the rows committed one by one are a subsequence of the chunk |
| `MlFeaturesLoader.InsertFromSubsequence` | Machine_learning_pipeline/scripts/load_ml_features.py:216-239 | the committed rows are a subsequence of the data |
| `MlFeaturesLoader.RowByRowAllOk` | Machine_learning_pipeline/scripts/load_ml_features.py:231-234 | when every single insert works the whole chunk is committed |
| `MlFeaturesLoader.InsertFromAllRowsOk` | Machine_learning_pipeline/scripts/load_ml_features.py:216-239 | when every single insert works every row is committed, whatever the chunks do |
| `MlFeaturesLoader.LoadBounded` | Machine_learning_pipeline/scripts/load_ml_features.py:144-258 | total_rows never exceeds the CSV rows |
| `MlFeaturesLoader.LoadAllRowsAccepted` | Machine_learning_pipeline/scripts/load_ml_features.py:184-252 | a database accepting every row commits every convertible row |
| `MlFeaturesLoader.TextYearLoadsNothing` | Machine_learning_pipeline/scripts/load_ml_features.py:191-210 | a text year in every row means nothing is inserted |
| `MlFeaturesLoader.LoadMlFeaturesCsv` | Machine_learning_pipeline/scripts/load_ml_features.py:144-258 | the load commits what the load specification says, and total_rows is their number |
| `MlFeaturesLoader.InsertChunks` | Machine_learning_pipeline/scripts/load_ml_features.py:213-242 | the chunk loop commits what the chunk specification says |
| `MlFeaturesLoader.GatherChunks` | Machine_learning_pipeline/scripts/load_ml_features.py:213-242 | the loop over chunk starts 0, chunk_size, ... concatenates the chunks' committed rows, and total_rows is their number |
| `MlFeaturesLoader.InsertFromGathers` | Machine_learning_pipeline/scripts/load_ml_features.py:216-239 | the committed rows are what each chunk commits, concatenated in chunk order |
| `MlFeaturesLoader.InsertChunk` | Machine_learning_pipeline/scripts/load_ml_features.py:217-239 | one chunk commits fully, or falls back to row-by-row, and its count is the rows committed |
| `MlFeaturesLoader.InsertRowByRow` | Machine_learning_pipeline/scripts/load_ml_features.py:230-239 | the fallback commits the rows whose single insert works, and chunk_success counts them |
| `MlFeaturesLoader.DropAndRecreateTable` | Machine_learning_pipeline/scripts/load_ml_features.py:16-81 | the retry loop as written, with the cursor closed after each attempt |
| `MlFeaturesLoader.RecreateFromOpen` | Machine_learning_pipeline/scripts/load_ml_features.py:21-79 | with an open cursor the loop succeeds iff some attempt works, at the first one that does, after sleeping 2, 4, ... seconds |
| `MlFeaturesLoader.RecreateIntendedSpec` | Machine_learning_pipeline/scripts/load_ml_features.py:21-79 | the intended loop makes at most 3 attempts, succeeds at the first that works, and sleeps 2 then 4 seconds before giving up |
| `MlFeaturesLoader.RecreateFromClosed` | Machine_learning_pipeline/scripts/load_ml_features.py:80-81 | once the cursor is closed no attempt can succeed |
| `MlFeaturesLoader.RecreateAsWrittenFirstOnly` | Machine_learning_pipeline/scripts/load_ml_features.py:24-81 | as written only the first attempt can create the table |
| `MlFeaturesLoader.RecreateSecondAttemptLost` | Machine_learning_pipeline/scripts/load_ml_features.py:24-81 | a database that fails only once: the written loop gives up, the intended loop succeeds |
| `MysqlLoader.NormalizedShape` | Machine_learning_pipeline/database/load_mysql.py:32-36 | a normalised name has no spaces and no upper-case letters, is stripped, and keeps the stripped length |
| `MysqlLoader.NormalizeIdempotent` | Machine_learning_pipeline/database/load_mysql.py:32-36 | normalising twice is normalising once |
| `MysqlLoader.DomainCodeExample` | Machine_learning_pipeline/database/load_mysql.py:35-36 | "Domain Code" becomes "domain_code" |
| `MysqlLoader.CleanValue` | Machine_learning_pipeline/database/load_mysql.py:39-52 | a cell becomes null iff it is null, '', '..' or two spaces; others are unchanged |
| `MysqlLoader.CleanRows` | Machine_learning_pipeline/database/load_mysql.py:49-53 | each row keeps its length and every cell is cleaned |
| `MysqlLoader.CleanRowsIdempotent` | Machine_learning_pipeline/database/load_mysql.py:39-53 | cleaning twice is cleaning once |
| `MysqlLoader.ColumnListOrder` | Machine_learning_pipeline/database/load_mysql.py:44 | the backticked column list holds the columns in their original order |
| `MysqlLoader.InsertStatementMarkers` | Machine_learning_pipeline/database/load_mysql.py:44-46 | the statement has one %s marker per column |
| `MysqlLoader.CommittedSubsequence` | Machine_learning_pipeline/database/load_mysql.py:30-69 | the committed rows are a subsequence of the cleaned rows |
| `MysqlLoader.AllChunksCommit` | Machine_learning_pipeline/database/load_mysql.py:56-60 | when every chunk commits, every cleaned row is committed |
| `MysqlLoader.NoChunkCommits` | Machine_learning_pipeline/database/load_mysql.py:65-69 | when every chunk fails nothing is committed and the loop carries on |
| `MysqlLoader.LoadBounded` | Machine_learning_pipeline/database/load_mysql.py:19-77 | total_rows never exceeds the rows read |
| `MysqlLoader.LoadCsvToMysql` | Machine_learning_pipeline/database/load_mysql.py:19-77 | the chunk loop matches the load specification, and total_rows counts the committed rows |
| `MysqlLoader.InsertAllChunks` | Machine_learning_pipeline/database/load_mysql.py:28-69 | the loop over the chunks commits exactly what the load specification says each chunk commits, in chunk order, and total_rows is their number |
| `MysqlLoader.InsertChunk` | Machine_learning_pipeline/database/load_mysql.py:31-69 | one chunk: normalised header, cleaned rows, and all or nothing committed |
| `MysqlLoader.NormalizeHeader` | Machine_learning_pipeline/database/load_mysql.py:32-36 | the header loop normalises every name, in order |
| `MysqlLoader.CleanChunk` | Machine_learning_pipeline/database/load_mysql.py:49-53 | the row loop cleans every row |
| `SchemaReset.StatementsShape` | Machine_learning_pipeline/database/reset_mysql.py:42 | each statement is non-empty, stripped and free of ';', and they keep the text's order |
| `SchemaReset.StatementsComplete` | Machine_learning_pipeline/database/reset_mysql.py:42 | a stripped piece of the text is a statement iff it is not empty |
| `SchemaReset.StatementsOfJoin` | Machine_learning_pipeline/database/reset_mysql.py:42 | joining clean statements with ';' and splitting gives them back |
| `SchemaReset.PreludeWouldBeSkipped` | Machine_learning_pipeline/database/reset_mysql.py:25-48 | the skip rule covers each of the three fixed statements |
| `SchemaReset.Run` | Machine_learning_pipeline/database/reset_mysql.py:45-54 | a position is reported as failing iff its statement is not skipped and fails; the reports are in order |
| `SchemaReset.RunIssuesAllExecutable` | Machine_learning_pipeline/database/reset_mysql.py:45-54 | exactly the statements the skip rule lets through are sent, in order, whatever fails |
| `SchemaReset.FirstPreludeFailure` | Machine_learning_pipeline/database/reset_mysql.py:25-32 | the first failing fixed statement, or none iff all three work |
| `SchemaReset.ResetIssuesNoDatabaseStatement` | Machine_learning_pipeline/database/reset_mysql.py:25-54 | a successful reset sends the three fixed statements and then no database-level statement |
| `SchemaReset.OnlyDatabaseStatementsRunNothing` | Machine_learning_pipeline/database/reset_mysql.py:45-48 | a schema of database-level statements only sends nothing |
| `SchemaReset.ResetDatabase` | Machine_learning_pipeline/database/reset_mysql.py:11-58 | the reset matches the reset specification |
| `SchemaReset.ExecuteStatements` | Machine_learning_pipeline/database/reset_mysql.py:45-54 | the statement loop matches the run specification |

## Left out

- I/O is not modelled: file reads, HTTP, cursors, commits, rollbacks, `joblib`, printing and logging. An unreadable file or failed fetch is a `None` input, and each database call is an oracle that says whether it succeeds.
- `time.sleep` is not performed. The retry loops return the list of delays they would sleep.
- The XGBoost fit and prediction, `StandardScaler` and `train_test_split` are oracles: floating-point library code.
- R², MAE, MSE and RMSE are left out: floating-point library code. Only accuracy, precision and recall are modelled.
- `Stats.BinaryMetrics`: on an empty `y_true`, `calculate_metrics` raises in `r2_score` before it reaches the try; the model returns None there, the value the try would give.
- Values are exact reals. Float rounding, NaN arithmetic and the DECIMAL column widths of the created table are not modelled.
- Column-name lowering works on ASCII letters only; Unicode case mapping is not modelled.
- `pd.read_csv` type inference is represented by the Cell convention above. Its behaviour on empty files or ragged rows is not modelled.
- The `_rainfall`, `_temperature` and `_pesticides` suffix columns of a join clash are not represented. The finaliser drops them anyway, and the model keeps the left value.
- The categorical fill, mode and one-hot branch of `train_model` is not modelled. It is unreachable: after `pd.to_numeric` every feature column is numeric, so no column is categorical.
- Building the request JSON into a frame in `fetch_ml_features_data` is not modelled. The fetched rows are abstract values, and duplicate removal keeps first occurrences.
- `Train.ImputeColumns` assumes `fillna(inplace=True)` on a column of `X_raw` takes effect, which holds without pandas Copy-on-Write.
- `MlFeaturesLoader.InsertChunks`: the database's verdicts are oracles. A chunk's verdict depends on the index of its first row and on its rows; a single insert's verdict depends on the row's index in the data (i + j) and on the row.
- `MysqlLoader.LoadCsvToMysql`: a chunk size below 1 is an error (`BadChunkSize`); the exception `pd.read_csv` raises is not modelled further.
- `Train.TrainModel` follows the evidently intended target for drop_na (see Findings); the as-written behaviour is `Train.TrainAsWritten`.
- `batch_predict_from_api`, `verify_ml_features`, `check_table_exists`, `force_drop_table`, `verify_data_load` and the `main` functions are reporting or driver code and are not part of this model.
- The commit and close at the end of `reset_database` are not modelled.

## Findings

| source | as written | input that shows it | evidently intended | confidence | as-written member | corrected member |
|---|---|---|---|---|---|---|
| Machine_learning_pipeline/train.py:385-406 | with drop_na, `y` becomes a numpy array, so `y.values` raises and training always fails | 100 complete rows with drop_na set | train on the surviving target values | not executed | `Train.TrainAsWritten`, `Train.DropNaAlwaysFails` | `Train.TrainModel` |
| Machine_learning_pipeline/train.py:486-500 | `predict` feeds the raw reindexed record: no `rain_temp_interact` is computed and the saved scaler is never applied | a scaler shifting rainfall by -100 and a training row with rainfall 150: training saw 50, predict sends 150 | prepare the record as training did | not executed | `Inference.Predict`, `Inference.PredictIgnoresScaler` | `Inference.PredictCorrected`, `Inference.CorrectedSeesTrainingRow` |
| Machine_learning_pipeline/scripts/load_ml_features.py:80-81 | the `finally` closes the cursor after every attempt, so the second and third attempts cannot succeed | a database whose first attempt fails and second works | retry with an open cursor | not executed | `MlFeaturesLoader.DropAndRecreateTable`, `MlFeaturesLoader.RecreateSecondAttemptLost` | `MlFeaturesLoader.RecreateIntendedSpec` |
