# Multivariate time-series anomaly detection, modelled in Dafny

The system reads an hourly table of sensor readings with a `Time` column. It
cleans the table:

- it fills missing readings forward and then backward;
- it drops numeric columns whose sample standard deviation is zero;
- it records the remaining feature names.

It then splits the rows into a training window (2004-01-01 00:00:00 to
2004-01-05 23:59:59) and an analysis window (2004-01-01 00:00:00 to
2004-01-19 07:59:59), and refuses training windows with fewer than 72 rows.
It scales the features, fits an isolation forest on the training rows and
scores the analysis rows. Next it turns each raw score into a 0–100
abnormality score by percentile ranking. It attributes every score to the
features by perturbation: it sets the feature to its column mean and takes
the change in score. For every row it then lists up to seven features by
largest absolute contribution, padded with `""`. Only features whose
contribution has magnitude at least 0.01 are candidates; when none reaches
that threshold, every feature is. Finally it writes the
analysis rows with `Abnormality_score` and `top_feature_1` … `top_feature_7`
added, and checks that those columns are present.

The web back end adds small pure helpers:

- the upload file-name filter;
- the five-band score distribution;
- the training-period mean and max;
- the count of how often each feature is named, ranked by count;
- the replacement of NaN and infinite floats by `null` before results are sent
  as JSON.

The project is built from these modules:

- `Wrappers`: `Option`, `Result`.
- `Seqs`: distinctness, sums, means.
- `Frames`: an abstract data table. It has named columns of equal length,
  holding timestamps, numeric cells that may be missing, or text. It also
  defines the error values and the column operations `df[name]`,
  `df[name] = c` and boolean-mask row selection.
- `DataProcessing`: the class `DataProcessor`.
- `Detection`: the class `AnomalyDetector`.
- `Scoring`: the two score-transformer operations. The source class has no
  state, so it is a module, not a class. Both operations loop in the source,
  so both are methods, each proved against a function (`PercentileScore`,
  `TopRow`).
- `Pipeline`: the class `AnomalyDetectionSystem` and the output assembly and
  check.
- `Backend`: the back-end helpers.

Classes whose methods change fields are Dafny classes with `modifies`
clauses. The loops of the source are methods with invariants, each proved
against a functional specification. The specification's own properties are
proved as lemmas.

A whole run is also written as a function, `Outcome`. It is composed of
`WindowsOf` (load and split), `Stages` (the training and then the analysis
matrix, through `TrainingStage` and `AnalysisStage`) and `Run` (scaling,
fitting, scores and names). `Prepare` and `PrepareTraining` are the first
stages on their own, and `RunWindows` is everything after the split.
`ProcessData` is proved to return `Outcome`, and the lemmas about `Prepare`,
`Run` and `Outcome` state when a run succeeds and what its table holds.
`ProcessData` hands the steps after the split to the method `ScoreWindows`,
and that method hands the steps from training on to `TrainAndScore`. This
keeps each part of the proof small.

The isolation forest and the standard scaler are library code that cannot be
inspected, so they are parameters:

- `fit` maps the training rows, the contamination and the seed to a decision
  function on rows;
- `fitScaler` maps the training matrix to a per-feature map. The processor
  stores that map together with the number of features it was fitted on.

Timestamps are whole seconds since 1970-01-01 in naive local time, as the
naive `pd.Timestamp` values the source compares. The table arrives already
parsed and sorted.

The source sometimes disagrees with its docstrings. The model follows the
code in those places:

- the percentile reference set is the analysis scores themselves, whatever
  `analysis_period_only` says;
- contributions are signed and not clipped;
- the perturbation mean is taken over the rows supplied;
- the threshold test is `>=`;
- the window check counts rows, not distinct hours.

## Model

| member | source | states |
|---|---|---|
| Frames.Lookup | anomaly_detector.py:64 | `df[name]` yields a column exactly when a column of that name exists |
| Frames.SelectRows | anomaly_detector.py:126-127 | boolean-mask selection keeps every column and name, has one row per selected position and stays well formed |
| Frames.SelectRowsLookup | anomaly_detector.py:126-127 | `df[mask][name]` is the column `df[name]` restricted to the selected rows |
| Frames.SetColumn | anomaly_detector.py:413-418 | `df[name] = c` makes `df[name]` return `c` and keeps the table well formed. An existing name keeps its place; a new name is appended last. Every other column stays at its index |
| Frames.SetColumnOthers | anomaly_detector.py:413-418 | assigning one column changes the lookup of no other name |
| DataProcessing.ForwardFillAt | anomaly_detector.py:83 | after `ffill` each row holds the nearest present cell at or above it (`AboveIndex`) |
| DataProcessing.BackwardFillAt | anomaly_detector.py:83 | after `bfill` each row holds the nearest present cell at or below it (`BelowIndex`) |
| DataProcessing.AboveIndexNearest | anomaly_detector.py:83 | no present cell lies between a row and the cell forward fill copies into it |
| DataProcessing.AboveIndexPresent | anomaly_detector.py:83 | if any cell at or above a row is present, forward fill gives that row a value |
| DataProcessing.BelowIndexPresent | anomaly_detector.py:83 | if any cell at or below a row is present, backward fill gives that row a value |
| DataProcessing.FillMissingKeeps | anomaly_detector.py:80-84 | the fill keeps every present cell, and every filled cell is a cell of the same column |
| DataProcessing.FillMissingComplete | anomaly_detector.py:80-84 | a column with at least one value has no missing cell after `ffill` then `bfill` |
| DataProcessing.FillMissingEmpty | anomaly_detector.py:80-84 | a column with no value at all is left unchanged (all NaN) |
| DataProcessing.StdIsZeroIff | anomaly_detector.py:88 | `std() == 0` (sample deviation, NaN below two values) holds exactly when there are at least two present values and all are equal |
| DataProcessing.FillColumnFacts | anomaly_detector.py:79-84 | a non-numeric column is kept as it is. A numeric column keeps its name, length and present cells, and has no missing cell left if it had any value |
| DataProcessing.FillAll | anomaly_detector.py:80-84 | filling every column keeps the number of columns and their names in order |
| DataProcessing.ConstantNamesMembers | anomaly_detector.py:86-90 | a name is collected as constant exactly when some column of that name has zero deviation |
| DataProcessing.DropColumnsMembers | anomaly_detector.py:92-93 | `drop(columns=…)` keeps exactly the columns whose name is not listed |
| DataProcessing.DropColumnsDistinct | anomaly_detector.py:92-93 | dropping columns keeps the names distinct |
| DataProcessing.DropNothing | anomaly_detector.py:92-93 | with no constant feature the table is not touched |
| DataProcessing.FeatureNamesMembers | anomaly_detector.py:96 | `feature_names` lists exactly the remaining columns other than `Time` |
| DataProcessing.CleanedFails | anomaly_detector.py:64-68 | loading fails exactly when `Time` is absent (`MissingTimeColumn`) or does not hold times |
| DataProcessing.CleanedShape | anomaly_detector.py:64-99 | a loaded table is well formed and keeps every row |
| DataProcessing.CleanedMembers | anomaly_detector.py:78-93 | a loaded table keeps exactly the filled columns that are not constant |
| DataProcessing.CleanedKeepsTime | anomaly_detector.py:85-96 | the `Time` column survives loading unchanged |
| DataProcessing.CleanedColumnsFilled | anomaly_detector.py:80-93 | every kept numeric column with a value has no missing cell and keeps the present cells it was loaded with |
| DataProcessing.WindowRowsFacts | anomaly_detector.py:126-127 | the window mask selects, in row order, exactly the rows whose time lies in the closed window |
| DataProcessing.SelectRowsCells | anomaly_detector.py:126-127 | cell k of a selected column is the source cell at the k-th selected row |
| DataProcessing.DataProcessor.constructor | anomaly_detector.py:35-44 | a new processor has the given minimum of training rows (72 by default), no feature names and no fitted scaler |
| DataProcessing.DataProcessor.LoadAndValidateData | anomaly_detector.py:47-99 | the loop pair that fills and collects constant columns returns `Cleaned(raw)` and sets `feature_names` to its non-`Time` names; on failure `feature_names` is unchanged |
| DataProcessing.DataProcessor.SplitData | anomaly_detector.py:105-137 | a split needs a parsed `Time` column. A successful split has at least `min_training_hours` training rows, and both windows keep the table's columns and stay well formed |
| DataProcessing.SplitDataFacts | anomaly_detector.py:105-137 | with parsed times both windows are selected exactly; the split succeeds exactly when the training rows number at least `min_training_hours`, and otherwise reports the count found and required |
| DataProcessing.SplitDataWithoutTime | anomaly_detector.py:126 | without a parsed `Time` column the split fails |
| DataProcessing.TrainingWithinAnalysis | anomaly_detector.py:118-127 | every training row is an analysis row |
| DataProcessing.FeatureColumnsFacts | anomaly_detector.py:151 | `df[feature_names]` succeeds exactly when every name is a column of any kind, and then yields those columns in order |
| DataProcessing.FeatureColumnsError | anomaly_detector.py:151 | a failed selection is `MissingColumn` of the first absent name |
| DataProcessing.FirstNonNumeric | anomaly_detector.py:151-160 | the float conversion of the selected values stops at the first name that is not a numeric column |
| DataProcessing.FeatureMatrix | anomaly_detector.py:151-160 | the scaler's input check passes only on a table with rows and features whose named columns are all numeric, and yields one row per table row and one entry per feature |
| DataProcessing.FeatureMatrixErrors | anomaly_detector.py:151-160 | the scaler's input check fails exactly on no rows, then a non-numeric feature (the first one is named), then no features, with the error of the first that applies; a table without rows converts, so its error is `NoSamples` even with text features |
| DataProcessing.FeatureMatrixCells | anomaly_detector.py:151-154 | entry (k, j) is cell k of feature j, a missing cell read as 0.0 |
| DataProcessing.DataProcessor.PreprocessFeatures | anomaly_detector.py:139-162 | an absent feature fails at `df[feature_names]` and leaves the scaler as it was. With `fit_scaler` the scaler is reset and then fitted on the checked matrix and applied; on a refused check it stays unfitted. Otherwise it refuses use before fitting, then the failed input check, then a feature count other than the fitted one, and applies the stored map |
| DataProcessing.SelectRowsNumeric | anomaly_detector.py:126-151 | row selection keeps which feature names are columns and which are numeric columns |
| DataProcessing.FeatureNamesDistinct | anomaly_detector.py:96 | distinct column names give distinct feature names |
| Detection.PerturbedFacts | anomaly_detector.py:252-253 | the perturbed copy changes only feature i, to the given value |
| Detection.AtMeanContributesNothing | anomaly_detector.py:250-259 | a feature already at its column mean contributes 0 to that row |
| Detection.ConstantFeatureContributesNothing | anomaly_detector.py:250-259 | a feature constant over the rows contributes 0 to every row |
| Detection.ContributionCanBeNegative | anomaly_detector.py:259 | contributions are differences, not clipped: a concrete scorer and matrix give −1 |
| Detection.AnomalyDetector.constructor | anomaly_detector.py:170-186 | a new detector keeps contamination 0.1 and seed 42 by default and is not fitted |
| Detection.AnomalyDetector.Train | anomaly_detector.py:188-209 | training stores the forest fitted on the rows with the detector's contamination and seed, records the number of features, and sets `is_fitted`. Refused exactly on a seed outside [0, 2^32 − 1], then on an empty sample set, then on rows without features, then on a contamination outside (0, 0.5]; each refusal changes nothing |
| Detection.AnomalyDetector.PredictAnomalyScores | anomaly_detector.py:211-227 | refused with `NotFitted` exactly when not fitted; then exactly when `decision_function`'s input check fails (no rows, no features, or a feature count other than the fitted one), with that check's error. It succeeds in every other case, with one decision value per row, that of the fitted forest |
| Detection.AnomalyDetector.CalculateFeatureContributions | anomaly_detector.py:229-261 | refused with `NotFitted` exactly when not fitted, then exactly when the baseline `decision_function` call's input check fails, and succeeds otherwise. The nested loop fills an n × m matrix whose entry (k, i) is the baseline score of row k minus its score with feature i set to the column mean |
| Scoring.TransformScores | anomaly_detector.py:273-305 | the loop gives score i the value `clip(100 − 100·#{s ≤ scores[i]}/n)`, with the scores themselves as reference under both flag values |
| Scoring.ScoreInRange | anomaly_detector.py:303 | every transformed score lies in [0, 100] |
| Scoring.ScoreOfMember | anomaly_detector.py:299-303 | a score from the reference set lands in [0, 100) without clipping |
| Scoring.OrderReversing | anomaly_detector.py:292-300 | a lower raw score never gets a lower abnormality score |
| Scoring.LargestScoresZero | anomaly_detector.py:299-300 | the highest raw score (least anomalous) gets 0 |
| Scoring.CountMonotone | anomaly_detector.py:299 | the count of reference scores at most s grows with s |
| Scoring.CountOfUpperBound | anomaly_detector.py:299 | a value bounding every reference score counts all of them |
| Scoring.Magnitudes | anomaly_detector.py:325 | one magnitude per feature, never negative, each equal to the contribution or to its negation |
| Scoring.SignificantFacts | anomaly_detector.py:328-335 | the significant positions are, in increasing order, exactly those with magnitude ≥ `min_contribution` |
| Scoring.CountWhenNoneSignificant | anomaly_detector.py:330-332 | when none meets the threshold every feature is a candidate and min(7, m) names are listed |
| Scoring.CountWhenSignificant | anomaly_detector.py:328-343 | when some meet it, min(7, number significant) names are listed |
| Scoring.SortByMagnitude | anomaly_detector.py:339-340 | the candidates are reordered by non-increasing magnitude as a permutation; distinct inputs stay distinct |
| Scoring.TopIndicesFacts | anomaly_detector.py:335-343 | the top positions are min(7, #candidates) distinct candidates in non-increasing magnitude, and no candidate left out beats one chosen |
| Scoring.TopIndicesSignificant | anomaly_detector.py:328-343 | when any feature is significant, every listed feature is |
| Scoring.TopRowShape | anomaly_detector.py:343-348 | a row lists exactly seven entries: the chosen feature names in order, then `""` |
| Scoring.TopRowNames | anomaly_detector.py:343-348 | with distinct non-empty names, an entry is non-empty exactly before the padding, and listed names are distinct features of the row |
| Scoring.SampleTopFeatures | anomaly_detector.py:324-350 | the per-row append-and-pad loop produces `TopRow` of the row |
| Scoring.GetTopFeatures | anomaly_detector.py:307-352 | one seven-entry list per row, each the `TopRow` of that row |
| Pipeline.RequiredColumnsDistinct | anomaly_detector.py:465 | the eight required names are distinct and differ from `Time` |
| Pipeline.AssembleStep | anomaly_detector.py:417-418 | adding `top_feature_{i+1}` keeps the score column, the top-feature columns set before it and every other column |
| Pipeline.OutputIsOutputOf | anomaly_detector.py:412-418 | the output table has the analysis rows, the given scores under `Abnormality_score`, column i of the name lists under `top_feature_{i+1}`, and every other column at its place and unchanged |
| Pipeline.AssembleOutput | anomaly_detector.py:412-418 | the loop of eight column assignments builds exactly `Output`: same rows, the score and top-feature columns set, other columns at their place and unchanged |
| Pipeline.ValidateResultsMissing | anomaly_detector.py:464-469 | with `Time` and the score column readable, the check passes exactly when every required column is present, and otherwise reports exactly the absent ones |
| Pipeline.AbsentMembers | anomaly_detector.py:466 | `missing_columns` holds exactly the required names not in the table |
| Pipeline.AssembledOutputValidates | anomaly_detector.py:413-469 | an assembled output always passes `_validate_results` |
| Pipeline.AssembledOutputDelivers | anomaly_detector.py:400-418 | assembling in-range scores gives the analysis rows, every other column as it was, scores in [0, 100] and a passing check |
| Pipeline.AnomalyDetectionSystem.constructor | anomaly_detector.py:360-370 | a new system has a processor with a minimum of 72 training rows and no scaler, and an unfitted detector with the given settings |
| Pipeline.TopRowsOf | anomaly_detector.py:403-410 | a matrix holding every contribution and one `TopRow` per matrix row make up `TopRows` |
| Pipeline.ScoresOf | anomaly_detector.py:397-400 | pointwise decision values and their pointwise percentile scores make up `Decisions` and `Percentiles` |
| Pipeline.PercentilesInRange | anomaly_detector.py:400 | every percentile score lies in [0, 100] |
| Pipeline.RunSucceeds | anomaly_detector.py:393-418 | after preparation, a run succeeds exactly when the seed lies in [0, 2^32 − 1] and the contamination in (0, 0.5]. Otherwise it reports the seed first, then the contamination |
| Pipeline.RunDelivers | anomaly_detector.py:393-424 | a successful run writes, per analysis row, the percentile score of the fitted forest's decision on the scaled row and the seven names of the row's largest contributions. It keeps every column of the analysis table other than the eight outputs, and passes the check |
| Pipeline.PrepareErrors | anomaly_detector.py:384-387 | a load error and then a split error are the error of the whole preparation |
| Pipeline.PrepareSucceeds | anomaly_detector.py:384-391 | after a load, preparation succeeds exactly when the split succeeds, every feature is numeric, there is a feature and both windows have rows. It then carries the feature names, which are distinct, and the two windows |
| Pipeline.RunTopNames | anomaly_detector.py:403-418 | with distinct non-empty feature names, each row's seven top names in a run are distinct features, followed only by padding |
| Pipeline.OutcomeSucceeds | anomaly_detector.py:382-430 | a whole run succeeds exactly when preparation does, the seed lies in [0, 2^32 − 1] and the contamination in (0, 0.5]; a failed preparation's error is the run's error |
| Pipeline.OutcomeDelivers | anomaly_detector.py:382-430 | after a successful preparation, with a seed in [0, 2^32 − 1] and contamination in (0, 0.5], the run succeeds, and its table is the output of the percentile scores and top names computed from the prepared windows, and it delivers (rows, other columns, range, check) |
| Pipeline.AnomalyDetectionSystem.TrainAndScore | anomaly_detector.py:393-425 | training, scoring, attribution, assembly and the check return exactly `Run` of the prepared stage (which refuses first an out-of-range seed, then an invalid contamination), and leave the forest fitted, with the feature count, exactly when they succeed |
| Pipeline.AnomalyDetectionSystem.ScoreWindows | anomaly_detector.py:389-425 | from the split windows on, returns exactly `RunWindows`: the first preprocessing error, then the seed and contamination refusals of training, or the output table. The scaler ends as `ScalerAfter`: kept when the training window lacks a feature column, otherwise reset and fitted exactly when the training matrix passes its checks. The forest and its feature count are set exactly on success |
| Pipeline.AnomalyDetectionSystem.ProcessData | anomaly_detector.py:372-430 | returns exactly `Outcome`, the functional run: the first error of loading, splitting, the two preprocessing steps and training (an out-of-range seed, then an invalid contamination), or else the cleaned analysis table with the percentile scores and top names added and every column not named like one of the eight outputs kept. It sets `feature_names` from the cleaned table. When loading or splitting fails, the scaler and the forest are unchanged; otherwise the scaler ends as `ScalerAfter` of the windows, and the forest and its feature count are set exactly on success |
| Backend.LastDot | backend/app.py:46 | the position of the last '.' |
| Backend.AllowedFileSplit | backend/app.py:43-46 | a name split at its last '.' is allowed exactly when the lower-cased part after it is csv, xls or xlsx |
| Backend.AllowedFileShape | backend/app.py:43-46 | every allowed name is a stem, a '.', and an allowed extension without a '.' |
| Backend.AllowedFileIgnoresCase | backend/app.py:46 | names equal after lower-casing are judged alike |
| Backend.UpperCaseAccepted | backend/app.py:46 | `report.CSV` is accepted |
| Backend.LastExtensionDecides | backend/app.py:46 | only the last extension counts: `archive.tar.xlsx` is accepted, `data.csv.exe` refused |
| Backend.NoDotRefused | backend/app.py:45 | a name without '.' is refused |
| Backend.BandOf | backend/app.py:54-60 | every score lies in exactly one of the five bands |
| Backend.DistributionTotal | backend/app.py:54-60 | the five band counts add up to the number of scores |
| Backend.BandCountPositive | backend/app.py:54-60 | a band containing some score has a positive count |
| Backend.TrainingStatsEmpty | backend/app.py:62-71 | with no row in the training window, mean and max are both 0 |
| Backend.TrainingMaxBounds | backend/app.py:62-71 | the training max is at least the score of every training row |
| Backend.TrainingMaxAttained | backend/app.py:62-71 | the training max is the score of some training row |
| Backend.TrainingMeanAtMostMax | backend/app.py:68-71 | the training mean never exceeds the training max |
| Backend.TallyFacts | backend/app.py:75-79 | the counts list each name once, count each non-empty name as often as it occurs, and add up to the number of non-empty cells |
| Backend.TallyKeys | backend/app.py:77-79 | the keys are exactly the non-empty names that occur |
| Backend.GetAbsent | backend/app.py:79 | `get(name, 0)` for an absent name is 0 |
| Backend.CountFeatures | backend/app.py:74-79 | the nested loop over the seven columns builds `Tally` of their cells, column by column |
| Backend.InsertByCount | backend/app.py:81-84 | inserting an entry into a list ordered by count keeps it ordered and adds that entry |
| Backend.RankFeatures | backend/app.py:81-84 | `sorted(…, key=count, reverse=True)` keeps the same entries ordered by non-increasing count |
| Backend.PaddingCountedAsWritten | backend/app.py:78 | a padding cell read back from the saved table passes the counting test |
| Backend.CountedAfterReadBack | backend/app.py:78 | the corrected test counts a read-back cell exactly when the name written was non-empty |
| Backend.ReadBackTally | backend/app.py:74-79 | over a read-back column the test as written admits every cell, exceeding the tally of the written names by exactly the number of padding cells; the corrected test admits exactly what that tally counts |
| Backend.SanitizeShape | backend/app.py:101-116 | sanitising keeps every dict key in order and every list length; NaN and ±Inf become `null`, every other leaf stays |
| Backend.SanitizeCleans | backend/app.py:101-116 | the result contains no NaN or infinite float |
| Backend.SanitizeKeepsClean | backend/app.py:101-116 | a value without NaN or infinity comes back unchanged |
| Backend.SanitizeIdempotent | backend/app.py:101-116 | sanitising twice equals sanitising once |

## Left out

- Reading and writing CSV files, `pd.to_datetime`, `sort_values`, `reset_index` and logging (anomaly_detector.py:57-76, 98, 421). These are I/O and library parsing. The model starts from a parsed table and takes its row order as given; a `Time` column that is not parsed is the `TimeNotParseable` error.
- The irregular-interval check (anomaly_detector.py:74-76) and the training mean/max warnings of `_validate_results` (anomaly_detector.py:442-462). Apart from logging, those lines read `output_df['Time']` and `output_df['Abnormality_score']` and raise when either column is absent. `ValidateResults` models these raises; the logged values are not modelled.
- The temporary 5%-contamination forest in `train` (anomaly_detector.py:198-203). It only logs; its rejection of an empty sample set and of rows without features is the `NoSamples` and `NoFeatures` refusal of `Train`.
- The isolation forest's fitting and `decision_function`. They are an uninterpreted `fit` parameter.
- `StandardScaler` numerics. They are an uninterpreted per-feature map.
- The library's input checks are modelled as `check_array` orders them. The scaler refuses use before fitting on `transform`, then a table without rows, a value that does not convert to float, a table without features, and on `transform` a feature count other than the fitted one. The forest refuses, at fitting, a seed outside [0, 2^32 − 1] (parameters are checked before the data), an empty sample set, rows without features and a contamination outside (0, 0.5]; at `decision_function`, it refuses no rows, no features and a feature count other than the fitted one. Checks on input the model's types cannot express, such as sparse or complex matrices, are not modelled.
- DataProcessing.FirstNonNumeric: a text column's cells are taken to be strings that do not parse as numbers, and a timestamp column among the features counts as non-numeric. A text column whose selected cells all parse, or are all missing, would convert in the library; the model refuses it.
- DataProcessing.DataProcessor.PreprocessFeatures: after a refused fit the library's scaler still carries the feature count of an earlier fit, so a later `transform` fails on a missing mean rather than with `NotFitted`. The model forgets the whole fit and reports `NotFitted`.
- Detection.AnomalyDetector.Train: contamination is a number and the seed an integer. The library's other accepted values, the string `"auto"` for contamination and `None` or a `RandomState` object for the seed, are not modelled.
- All floating point. Numbers are exact reals, with no NaN, infinity or rounding. As a result, `np.nan_to_num` only has to map missing cells to 0.0.
- DataProcessing.StdIsZero: zero standard deviation is stated as "at least two values, all equal to their mean". In exact arithmetic this is the same as the sum of squared deviations being zero. Rounding of the library's float computation is not modelled.
- DataProcessing.FeatureColumns: pandas lists every missing column in one `KeyError`; the model reports the first absent name.
- Scoring.SortByMagnitude: `np.argsort` with its default unstable sort, then reversed. The model proves the order and the permutation, but fixes no particular order among equal magnitudes.
- Scoring.GetTopFeatures: requires every row to be no longer than `feature_names`. A shorter name list raises `IndexError` in the source.
- Backend.RankFeatures: Python's sort is stable, and the model's insertion keeps equal counts in first-seen order too. The contract states only the order by count and the permutation, not that tie order.
- Backend.Lower: only ASCII letters are lower-cased. Python's `str.lower` also maps other scripts' letters, and the model leaves them unchanged.
- Backend.CountFeatures: takes the seven top-feature columns as the strings `process_data` wrote. The NaN cells the routes get back when reading the saved table are treated under "Findings".
- Backend.TrainingPeriodStats: takes times and scores as parsed values. Above the empty case, the contract is the bounds lemmas, not the floating-point mean.
- The score minimum and maximum in the summary, `totalRows`, `to_dict`, `processingTime`, `MAX_CONTENT_LENGTH` and all Flask routes, uploads, `secure_filename`, `send_file` and temporary files of backend/app.py. These are web I/O.
- The `main` function and `test_anomaly_detector.py`. They are command-line and test harnesses.

## Findings

| source | as written | input that shows it | evidently intended | confidence | as-written member | corrected member |
|---|---|---|---|---|---|---|
| backend/app.py:77-79 | `if feature and feature != ""` counts a cell read back with `pd.read_csv`. An empty padding field comes back as NaN, which is truthy and differs from `""` | a table with three feature columns: every row has four padding cells, and each is then counted as a feature named NaN | skip the padding, counting only non-empty names | not executed; relies on `read_csv` reading empty fields as NaN, its default | Backend.PaddingCountedAsWritten | Backend.CountedAfterReadBack |
