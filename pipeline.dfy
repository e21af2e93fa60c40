/**
 * The system that runs the whole scoring pipeline on a loaded table, the
 * assembly of its output table and the check of that table's columns.
 */
module Pipeline {
  import opened Wrappers
  import opened Seqs
  import opened Frames
  import opened DataProcessing
  import opened Detection
  import opened Scoring

  const ScoreColumn: string := "Abnormality_score"

  /** `f'top_feature_{i+1}'`: the names top_feature_1 ... top_feature_7. */
  function TopFeatureName(i: nat): string
    requires i < TopCount
  {
    "top_feature_" + [('1' as int + i) as char]
  }

  /** The columns the output must carry, in the order the check lists them. */
  function RequiredColumns(): (r: seq<string>)
    ensures |r| == TopCount + 1 && r[0] == ScoreColumn
    ensures forall i :: 0 <= i < TopCount ==> r[i + 1] == TopFeatureName(i)
  {
    [ScoreColumn] + seq(TopCount, i requires 0 <= i < TopCount => TopFeatureName(i))
  }

  /** The output names are pairwise different and differ from `Time`. */
  lemma RequiredColumnsDistinct()
    ensures Distinct(RequiredColumns())
    ensures TimeColumn !in RequiredColumns()
  {
    var r := RequiredColumns();
    forall i, j | 0 <= i < j < |r|
      ensures r[i] != r[j]
    {
      if i == 0 {
        assert r[i][0] != r[j][0];
      } else {
        assert r[i][12] != r[j][12];
      }
    }
    forall i | 0 <= i < |r|
      ensures r[i] != TimeColumn
    {
      assert r[i][0] != TimeColumn[0];
    }
  }

  /** Every row lists exactly seven names. */
  predicate SevenPerRow(top: seq<seq<string>>) {
    forall k :: 0 <= k < |top| ==> |top[k]| == TopCount
  }

  function ScoreCells(scores: seq<real>): (c: Column)
    ensures Length(c) == |scores|
  {
    Values(seq(|scores|, k requires 0 <= k < |scores| => Some(scores[k])))
  }

  /** `[features[i] for features in top_features]`. */
  function TopColumn(top: seq<seq<string>>, i: nat): (c: Column)
    requires SevenPerRow(top) && i < TopCount
    ensures Length(c) == |top|
  {
    Texts(seq(|top|, k requires 0 <= k < |top| => top[k][i]))
  }

  /**
   * `out` is the analysis table with the score column and the first `count`
   * top-feature columns set: same rows, every other column where it was.
   */
  ghost predicate Assembled(out: Frame, analysis: Frame, scores: seq<real>, top: seq<seq<string>>, count: nat)
    requires SevenPerRow(top) && count <= TopCount
  {
    WellFormed(out) && out.rows == analysis.rows &&
    Lookup(out, ScoreColumn) == Some(ScoreCells(scores)) &&
    (forall i :: 0 <= i < count ==> Lookup(out, TopFeatureName(i)) == Some(TopColumn(top, i))) &&
    |out.columns| >= |analysis.columns| &&
    (forall j :: 0 <= j < |analysis.columns| && analysis.columns[j].name !in RequiredColumns() ==>
      out.columns[j] == analysis.columns[j]) &&
    (forall n :: n !in RequiredColumns() ==> Lookup(out, n) == Lookup(analysis, n))
  }

  /** The complete output: the score column and all seven top-feature columns set. */
  ghost predicate IsOutputOf(out: Frame, analysis: Frame, scores: seq<real>, top: seq<seq<string>>)
    requires SevenPerRow(top)
  {
    Assembled(out, analysis, scores, top, TopCount)
  }

  /** Setting the score column starts the assembly. */
  lemma AssembleStart(analysis: Frame, scores: seq<real>, top: seq<seq<string>>)
    requires WellFormed(analysis) && |scores| == analysis.rows && SevenPerRow(top)
    ensures Assembled(SetColumn(analysis, ScoreColumn, ScoreCells(scores)), analysis, scores, top, 0)
  {
    SetColumnOthers(analysis, ScoreColumn, ScoreCells(scores));
  }

  /** Setting top-feature column i keeps everything already assembled. */
  lemma AssembleStep(out: Frame, analysis: Frame, scores: seq<real>, top: seq<seq<string>>, i: nat)
    requires SevenPerRow(top) && i < TopCount && |top| == analysis.rows
    requires Assembled(out, analysis, scores, top, i)
    ensures Assembled(SetColumn(out, TopFeatureName(i), TopColumn(top, i)), analysis, scores, top, i + 1)
  {
    var required := RequiredColumns();
    var name := TopFeatureName(i);
    var c := TopColumn(top, i);
    assert name == required[i + 1];
    RequiredColumnsDistinct();
    forall i' | 0 <= i' < i
      ensures TopFeatureName(i') != name
    {
      assert TopFeatureName(i') == required[i' + 1];
    }
    SetColumnOthers(out, name, c);
  }

  /** The table `base` with the first `count` top-feature columns assigned in order. */
  function WithTopColumns(base: Frame, top: seq<seq<string>>, count: nat): (out: Frame)
    requires WellFormed(base) && |top| == base.rows && SevenPerRow(top) && count <= TopCount
    ensures WellFormed(out) && out.rows == base.rows
  {
    if count == 0 then base
    else SetColumn(WithTopColumns(base, top, count - 1), TopFeatureName(count - 1), TopColumn(top, count - 1))
  }

  /** `output_df`: the analysis table, then the score column, then top_feature_1 ... top_feature_7. */
  function Output(analysis: Frame, scores: seq<real>, top: seq<seq<string>>): Frame
    requires WellFormed(analysis) && |scores| == analysis.rows && |top| == analysis.rows && SevenPerRow(top)
  {
    WithTopColumns(SetColumn(analysis, ScoreColumn, ScoreCells(scores)), top, TopCount)
  }

  lemma {:induction false} WithTopColumnsAssembled(analysis: Frame, scores: seq<real>, top: seq<seq<string>>, count: nat)
    requires WellFormed(analysis) && |scores| == analysis.rows && |top| == analysis.rows && SevenPerRow(top)
    requires count <= TopCount
    ensures Assembled(WithTopColumns(SetColumn(analysis, ScoreColumn, ScoreCells(scores)), top, count),
                      analysis, scores, top, count)
  {
    var base := SetColumn(analysis, ScoreColumn, ScoreCells(scores));
    if count == 0 {
      AssembleStart(analysis, scores, top);
    } else {
      WithTopColumnsAssembled(analysis, scores, top, count - 1);
      AssembleStep(WithTopColumns(base, top, count - 1), analysis, scores, top, count - 1);
    }
  }

  /** The output carries the scores and the seven name columns and keeps every other column. */
  lemma OutputIsOutputOf(analysis: Frame, scores: seq<real>, top: seq<seq<string>>)
    requires WellFormed(analysis) && |scores| == analysis.rows && |top| == analysis.rows && SevenPerRow(top)
    ensures IsOutputOf(Output(analysis, scores, top), analysis, scores, top)
  {
    WithTopColumnsAssembled(analysis, scores, top, TopCount);
  }

  /** `output_df = analysis_data.copy()` followed by the eight column assignments. */
  method AssembleOutput(analysis: Frame, scores: seq<real>, top: seq<seq<string>>) returns (out: Frame)
    requires WellFormed(analysis) && |scores| == analysis.rows && |top| == analysis.rows && SevenPerRow(top)
    ensures out == Output(analysis, scores, top)
    ensures IsOutputOf(out, analysis, scores, top)
  {
    var base := SetColumn(analysis, ScoreColumn, ScoreCells(scores));
    out := base;
    for i := 0 to TopCount
      invariant out == WithTopColumns(base, top, i)
    {
      out := SetColumn(out, TopFeatureName(i), TopColumn(top, i));
    }
    OutputIsOutputOf(analysis, scores, top);
  }

  // ---------------------------------------------------------------------
  // The scores and names a run writes
  // ---------------------------------------------------------------------

  /** `decision_function` on every row of the matrix. */
  function Decisions(decision: Decision, m: seq<seq<real>>): (d: seq<real>)
    ensures |d| == |m|
  {
    seq(|m|, k requires 0 <= k < |m| => decision(m[k]))
  }

  /** Every raw score ranked against all of them. */
  function Percentiles(raw: seq<real>): (p: seq<real>)
    ensures |p| == |raw|
  {
    seq(|raw|, i requires 0 <= i < |raw| => PercentileScore(raw, raw[i]))
  }

  /** Row k of the contribution matrix. */
  function ContributionRow(decision: Decision, m: seq<seq<real>>, width: nat, k: nat): (row: seq<real>)
    requires Rectangular(m, width) && k < |m|
    ensures |row| == width
  {
    seq(width, i requires 0 <= i < width => Contribution(decision, m, width, k, i))
  }

  /** The seven names of every row, at the default threshold. */
  function TopRows(decision: Decision, m: seq<seq<real>>, width: nat, names: seq<string>): (top: seq<seq<string>>)
    requires Rectangular(m, width) && width <= |names|
    ensures |top| == |m| && SevenPerRow(top)
  {
    var top := seq(|m|, k requires 0 <= k < |m| =>
      TopRow(ContributionRow(decision, m, width, k), names, DefaultMinContribution));
    assert SevenPerRow(top) by {
      forall k | 0 <= k < |m|
        ensures |top[k]| == TopCount
      {
        TopRowLength(ContributionRow(decision, m, width, k), names, DefaultMinContribution);
      }
    }
    top
  }

  /** Pointwise raw and transformed scores are the two sequences above. */
  lemma ScoresOf(decision: Decision, m: seq<seq<real>>, raw: seq<real>, transformed: seq<real>)
    requires |raw| == |m| && forall k :: 0 <= k < |m| ==> raw[k] == decision(m[k])
    requires |transformed| == |raw| && forall i :: 0 <= i < |raw| ==> transformed[i] == PercentileScore(raw, raw[i])
    ensures raw == Decisions(decision, m) && transformed == Percentiles(raw)
  {
  }

  /** A pointwise contribution matrix and its per-row selection are `TopRows`. */
  lemma TopRowsOf(decision: Decision, m: seq<seq<real>>, width: nat, names: seq<string>,
                  contributions: seq<seq<real>>, top: seq<seq<string>>)
    requires Rectangular(m, width) && width <= |names|
    requires |contributions| == |m| && Rectangular(contributions, width)
    requires forall k, i :: 0 <= k < |m| && 0 <= i < width ==> contributions[k][i] == Contribution(decision, m, width, k, i)
    requires |top| == |m| && forall k :: 0 <= k < |m| ==> top[k] == TopRow(contributions[k], names, DefaultMinContribution)
    ensures top == TopRows(decision, m, width, names)
  {
    forall k | 0 <= k < |m|
      ensures contributions[k] == ContributionRow(decision, m, width, k)
    {
    }
  }

  /** Every percentile score lies in [0, 100]. */
  lemma PercentilesInRange(raw: seq<real>)
    ensures forall i :: 0 <= i < |raw| ==> 0.0 <= Percentiles(raw)[i] <= 100.0
  {
    forall i | 0 <= i < |raw|
      ensures 0.0 <= Percentiles(raw)[i] <= 100.0
    {
      ScoreInRange(raw, raw[i]);
    }
  }

  /** The required names absent from `names`, in order. */
  function Absent(required: seq<string>, names: seq<string>): seq<string> {
    if |required| == 0 then []
    else
      var last := required[|required| - 1];
      Absent(required[..|required| - 1], names) + (if last in names then [] else [last])
  }

  lemma {:induction false} AbsentMembers(required: seq<string>, names: seq<string>, x: string)
    ensures x in Absent(required, names) <==> x in required && x !in names
  {
    if |required| > 0 {
      var init := required[..|required| - 1];
      AbsentMembers(init, names, x);
      assert required == init + [required[|required| - 1]];
    }
  }

  /**
   * `_validate_results`: reading `Time` and the score column fails when
   * either is absent, then every required column absent is reported.
   */
  function ValidateResults(out: Frame): Result<(), Error> {
    match Lookup(out, TimeColumn)
    case None => Failure(MissingColumn(TimeColumn))
    case Some(t) =>
      if !t.Stamps? then Failure(TimeNotParseable)
      else if ScoreColumn !in Names(out.columns) then Failure(MissingColumn(ScoreColumn))
      else
        var missing := Absent(RequiredColumns(), Names(out.columns));
        if |missing| > 0 then Failure(MissingColumns(missing)) else Success(())
  }

  /**
   * With a parsed `Time` column and the score column present, the check
   * passes exactly when every required column is present, and otherwise
   * reports exactly the absent ones.
   */
  lemma ValidateResultsMissing(out: Frame)
    requires Lookup(out, TimeColumn).Some? && Lookup(out, TimeColumn).value.Stamps?
    requires ScoreColumn in Names(out.columns)
    ensures ValidateResults(out).Success? <==> forall x :: x in RequiredColumns() ==> x in Names(out.columns)
    ensures ValidateResults(out).Failure? ==> (ValidateResults(out).error.MissingColumns? &&
      forall x :: x in ValidateResults(out).error.missing <==> x in RequiredColumns() && x !in Names(out.columns))
  {
    var missing := Absent(RequiredColumns(), Names(out.columns));
    forall x
      ensures x in missing <==> x in RequiredColumns() && x !in Names(out.columns)
    {
      AbsentMembers(RequiredColumns(), Names(out.columns), x);
    }
    if |missing| > 0 {
      assert missing[0] in missing;
    }
  }

  /** An assembled output always passes the check when the analysis table's `Time` is parsed. */
  lemma AssembledOutputValidates(out: Frame, analysis: Frame, scores: seq<real>, top: seq<seq<string>>)
    requires SevenPerRow(top) && IsOutputOf(out, analysis, scores, top)
    requires Lookup(analysis, TimeColumn).Some? && Lookup(analysis, TimeColumn).value.Stamps?
    ensures ValidateResults(out) == Success(())
  {
    RequiredColumnsDistinct();
    var req := RequiredColumns();
    forall x | x in req
      ensures x in Names(out.columns)
    {
      var i :| 0 <= i < |req| && req[i] == x;
      if i > 0 {
        assert x == TopFeatureName(i - 1);
      }
    }
    ValidateResultsMissing(out);
  }

  /** Every cell of the score column is present and lies in [0, 100]. */
  predicate ScoresInRange(out: Frame) {
    match Lookup(out, ScoreColumn)
    case Some(Values(v)) => forall k :: 0 <= k < |v| ==> v[k].Some? && 0.0 <= v[k].value <= 100.0
    case _ => false
  }

  /** The output of a run: the analysis rows, everything else kept, scores in range, and it validates. */
  ghost predicate Delivers(out: Frame, analysis: Frame) {
    out.rows == analysis.rows &&
    (forall n :: n !in RequiredColumns() ==> Lookup(out, n) == Lookup(analysis, n)) &&
    ScoresInRange(out) &&
    ValidateResults(out) == Success(())
  }

  /** Assembling percentile scores onto a table with parsed `Time` delivers such an output. */
  lemma AssembledOutputDelivers(out: Frame, analysis: Frame, scores: seq<real>, top: seq<seq<string>>)
    requires SevenPerRow(top) && IsOutputOf(out, analysis, scores, top)
    requires Lookup(analysis, TimeColumn).Some? && Lookup(analysis, TimeColumn).value.Stamps?
    requires forall k :: 0 <= k < |scores| ==> 0.0 <= scores[k] <= 100.0
    ensures Delivers(out, analysis)
  {
    AssembledOutputValidates(out, analysis, scores, top);
  }

  /**
   * What a run computes before the forest: the cleaned table's feature
   * names, the two windows, and the two (unscaled) feature matrices. A value
   * of the first stage leaves `analysisMatrix` empty.
   */
  datatype Prepared = Prepared(
    names: seq<string>, training: Frame, analysis: Frame,
    trainMatrix: seq<seq<real>>, analysisMatrix: seq<seq<real>>)

  /** The training stage passed the scaler's checks; the analysis window has a parsed `Time`. */
  predicate TrainingReady(p: Prepared) {
    WellFormed(p.training) && WellFormed(p.analysis) &&
    |p.names| > 0 && |p.trainMatrix| == p.training.rows > 0 && Rectangular(p.trainMatrix, |p.names|) &&
    Lookup(p.analysis, TimeColumn).Some? && Lookup(p.analysis, TimeColumn).value.Stamps?
  }

  /** Both stages passed: the analysis matrix has one row per analysis row, at least one. */
  predicate Ready(p: Prepared) {
    TrainingReady(p) &&
    |p.analysisMatrix| == p.analysis.rows > 0 && Rectangular(p.analysisMatrix, |p.names|)
  }

  /** The training window's feature selection, then the scaler's input check on it. */
  function TrainingStage(names: seq<string>, training: Frame, analysis: Frame): (r: Result<Prepared, Error>)
    requires WellFormed(training) && WellFormed(analysis)
    requires Lookup(analysis, TimeColumn).Some? && Lookup(analysis, TimeColumn).value.Stamps?
    ensures r.Success? ==> TrainingReady(r.value) && r.value.analysisMatrix == []
  {
    var cols := FeatureColumns(training, names);
    if cols.Failure? then Failure(cols.error)
    else
      FeatureColumnsFacts(training, names);
      var m := FeatureMatrix(training, names);
      if m.Failure? then Failure(m.error)
      else Success(Prepared(names, training, analysis, m.value, []))
  }

  /**
   * The analysis window's feature selection, then the scaler's input check
   * on it; the scaler is fitted on the same names, so its width check passes.
   */
  function AnalysisStage(p: Prepared): (r: Result<Prepared, Error>)
    requires TrainingReady(p)
    ensures r.Success? ==> Ready(r.value)
  {
    var cols := FeatureColumns(p.analysis, p.names);
    if cols.Failure? then Failure(cols.error)
    else
      FeatureColumnsFacts(p.analysis, p.names);
      var m := FeatureMatrix(p.analysis, p.names);
      if m.Failure? then Failure(m.error)
      else Success(p.(analysisMatrix := m.value))
  }

  /**
   * Scaling, fitting and scoring: with a seed in [0, 2^32 - 1] and
   * contamination in (0, 0.5], the
   * analysis table with the percentile scores of the fitted forest's
   * decisions on the scaled analysis rows, and the seven names of each
   * row's largest contributions.
   */
  function Run(p: Prepared, s: Scaler, contamination: real, randomState: int, fit: Fit): Result<Frame, Error>
    requires Ready(p)
  {
    if !ValidSeed(randomState) then Failure(InvalidRandomState(randomState))
    else if !ValidContamination(contamination) then Failure(InvalidContamination(contamination))
    else
      var features := Scale(p.analysisMatrix, s);
      var decision := fit(Scale(p.trainMatrix, s), contamination, randomState);
      Success(Output(p.analysis, Percentiles(Decisions(decision, features)),
                     TopRows(decision, features, |p.names|, p.names)))
  }

  /** The cleaned table's feature names and the two windows of a split. */
  datatype Windows = Windows(names: seq<string>, training: Frame, analysis: Frame)

  /** The windows carry well-formed tables, and the analysis window a parsed `Time`. */
  predicate WindowsReady(w: Windows) {
    WellFormed(w.training) && WellFormed(w.analysis) &&
    Lookup(w.analysis, TimeColumn).Some? && Lookup(w.analysis, TimeColumn).value.Stamps?
  }

  /** Both preprocessing stages on the windows: the first error, or the prepared values. */
  function Stages(w: Windows): (r: Result<Prepared, Error>)
    requires WindowsReady(w)
    ensures r.Success? ==> Ready(r.value)
  {
    var t := TrainingStage(w.names, w.training, w.analysis);
    if t.Failure? then t else AnalysisStage(t.value)
  }

  /** A run from the windows on: the first error, or the output table. */
  function RunWindows(w: Windows, fitScaler: seq<seq<real>> -> Scaler, contamination: real, randomState: int, fit: Fit): Result<Frame, Error>
    requires WindowsReady(w)
  {
    var p := Stages(w);
    if p.Failure? then Failure(p.error)
    else Run(p.value, fitScaler(p.value.trainMatrix), contamination, randomState, fit)
  }

  /**
   * The scaler after preprocessing the windows, given the scaler before: it
   * is reset once the training window has every feature column, and fitted
   * on the training matrix once that matrix passes the checks.
   */
  function ScalerAfter(w: Windows, fitScaler: seq<seq<real>> -> Scaler, before: Option<FittedScaler>): Option<FittedScaler>
    requires WindowsReady(w)
  {
    if !AllPresent(w.training, w.names) then before
    else
      var t := TrainingStage(w.names, w.training, w.analysis);
      if t.Success? then Some(FittedScaler(fitScaler(t.value.trainMatrix), |w.names|)) else None
  }

  class AnomalyDetectionSystem {
    const dataProcessor: DataProcessor
    const anomalyDetector: AnomalyDetector

    predicate Valid()
      reads this, anomalyDetector
    {
      anomalyDetector.Valid()
    }

    constructor(contamination: real := 0.1, randomState: int := 42)
      ensures Valid() && fresh(dataProcessor) && fresh(anomalyDetector)
      ensures dataProcessor.minTrainingHours == 72 && dataProcessor.scaler.None?
      ensures !anomalyDetector.isFitted
      ensures anomalyDetector.contamination == contamination && anomalyDetector.randomState == randomState
    {
      dataProcessor := new DataProcessor();
      anomalyDetector := new AnomalyDetector(contamination, randomState);
    }

    /** Loading and splitting, as a function of the parsed table: the first error, or the windows. */
    function WindowsOf(raw: Frame): (r: Result<Windows, Error>)
      reads dataProcessor`minTrainingHours
      requires WellFormed(raw)
      ensures r.Success? ==> WindowsReady(r.value)
    {
      var loaded := Cleaned(raw);
      if loaded.Failure? then Failure(loaded.error)
      else
        CleanedShape(raw);
        var df := loaded.value;
        var split := dataProcessor.SplitData(df);
        if split.Failure? then Failure(split.error)
        else Success(Windows(FeatureNames(df.columns), split.value.0, split.value.1))
    }

    /** Then the training window's preprocessing: the first error, or the stage's values. */
    function PrepareTraining(raw: Frame): (r: Result<Prepared, Error>)
      reads dataProcessor`minTrainingHours
      requires WellFormed(raw)
      ensures r.Success? ==> TrainingReady(r.value) && r.value.analysisMatrix == []
    {
      var w := WindowsOf(raw);
      if w.Failure? then Failure(w.error)
      else TrainingStage(w.value.names, w.value.training, w.value.analysis)
    }

    /** Then the analysis window's preprocessing, with the scaler already fitted. */
    function Prepare(raw: Frame): (r: Result<Prepared, Error>)
      reads dataProcessor`minTrainingHours
      requires WellFormed(raw)
      ensures r.Success? ==> Ready(r.value)
    {
      var w := WindowsOf(raw);
      if w.Failure? then Failure(w.error) else Stages(w.value)
    }

    /** The table a run returns, or the first error. */
    function Outcome(raw: Frame, fitScaler: seq<seq<real>> -> Scaler, fit: Fit): Result<Frame, Error>
      reads dataProcessor`minTrainingHours
      requires WellFormed(raw)
    {
      var w := WindowsOf(raw);
      if w.Failure? then Failure(w.error)
      else RunWindows(w.value, fitScaler, anomalyDetector.contamination, anomalyDetector.randomState, fit)
    }

    /**
     * `process_data` on an already parsed table: clean, split, scale, train,
     * score, attribute, and assemble the output table. `fitScaler` and `fit`
     * stand for the standard scaler's and the forest's fitting. The new
     * state: the feature names of the cleaned table; the scaler, reset once
     * the training window has every feature column and fitted on the
     * training matrix once that matrix passes its checks; and the forest,
     * with its width, fitted exactly when the run succeeds (`isFitted`
     * follows by `Valid`).
     */
    method ProcessData(raw: Frame, fitScaler: seq<seq<real>> -> Scaler, fit: Fit) returns (r: Result<Frame, Error>)
      requires Valid() && WellFormed(raw)
      modifies dataProcessor, anomalyDetector
      ensures Valid()
      ensures dataProcessor.minTrainingHours == old(dataProcessor.minTrainingHours)
      ensures r == Outcome(raw, fitScaler, fit)
      ensures dataProcessor.featureNames ==
        if Cleaned(raw).Success? then FeatureNames(Cleaned(raw).value.columns) else old(dataProcessor.featureNames)
      ensures WindowsOf(raw).Failure? ==>
        dataProcessor.scaler == old(dataProcessor.scaler) &&
        anomalyDetector.model == old(anomalyDetector.model) && anomalyDetector.nFeatures == old(anomalyDetector.nFeatures)
      ensures WindowsOf(raw).Success? ==>
        var w := WindowsOf(raw).value;
        dataProcessor.scaler == ScalerAfter(w, fitScaler, old(dataProcessor.scaler)) &&
        anomalyDetector.model == (if r.Success? then
            var m := Stages(w).value.trainMatrix;
            Some(fit(Scale(m, fitScaler(m)), anomalyDetector.contamination, anomalyDetector.randomState))
          else old(anomalyDetector.model)) &&
        anomalyDetector.nFeatures == (if r.Success? then |w.names| else old(anomalyDetector.nFeatures))
    {
      var loaded := dataProcessor.LoadAndValidateData(raw);
      if loaded.Failure? {
        return Failure(loaded.error);
      }
      var df := loaded.value;
      CleanedShape(raw);
      var split := dataProcessor.SplitData(df);
      if split.Failure? {
        return Failure(split.error);
      }
      var w := Windows(dataProcessor.featureNames, split.value.0, split.value.1);
      assert WindowsOf(raw) == Success(w);
      r := ScoreWindows(w, fitScaler, fit);
    }

    /**
     * Steps 3 to 11 of `process_data`: preprocess both windows, then train,
     * score and assemble. The scaler is reset once the training window has
     * every feature column, and fitted once its matrix passes the checks.
     */
    method ScoreWindows(w: Windows, fitScaler: seq<seq<real>> -> Scaler, fit: Fit) returns (r: Result<Frame, Error>)
      requires Valid() && WindowsReady(w) && dataProcessor.featureNames == w.names
      modifies dataProcessor`scaler, anomalyDetector
      ensures Valid()
      ensures r == RunWindows(w, fitScaler, anomalyDetector.contamination, anomalyDetector.randomState, fit)
      ensures dataProcessor.scaler == ScalerAfter(w, fitScaler, old(dataProcessor.scaler))
      ensures anomalyDetector.model ==
        if r.Success? then
          var m := Stages(w).value.trainMatrix;
          Some(fit(Scale(m, fitScaler(m)), anomalyDetector.contamination, anomalyDetector.randomState))
        else old(anomalyDetector.model)
      ensures anomalyDetector.nFeatures == if r.Success? then |w.names| else old(anomalyDetector.nFeatures)
    {
      var names := w.names;
      FeatureColumnsFacts(w.training, names);
      FeatureColumnsFacts(w.analysis, names);
      var trainingFeatures := dataProcessor.PreprocessFeatures(w.training, true, fitScaler);
      if trainingFeatures.Failure? {
        return Failure(trainingFeatures.error);
      }
      var stage := Prepared(names, w.training, w.analysis, FeatureMatrix(w.training, names).value, []);
      var analysisFeatures := dataProcessor.PreprocessFeatures(w.analysis, false, fitScaler);
      if analysisFeatures.Failure? {
        return Failure(analysisFeatures.error);
      }
      var p := stage.(analysisMatrix := FeatureMatrix(w.analysis, names).value);
      r := TrainAndScore(p, fitScaler(p.trainMatrix), trainingFeatures.value, analysisFeatures.value, fit);
    }

    /**
     * Steps 4 to 11 of `process_data`: train on the scaled training rows,
     * score and attribute the scaled analysis rows, assemble the output table
     * and check it.
     */
    method TrainAndScore(p: Prepared, ghost s: Scaler, trainingFeatures: seq<seq<real>>, features: seq<seq<real>>, fit: Fit)
      returns (r: Result<Frame, Error>)
      requires Valid() && Ready(p)
      requires trainingFeatures == Scale(p.trainMatrix, s) && features == Scale(p.analysisMatrix, s)
      modifies anomalyDetector
      ensures Valid()
      ensures r == Run(p, s, anomalyDetector.contamination, anomalyDetector.randomState, fit)
      ensures anomalyDetector.isFitted == (r.Success? || old(anomalyDetector.isFitted))
      ensures anomalyDetector.model ==
        if r.Success? then Some(fit(Scale(p.trainMatrix, s), anomalyDetector.contamination, anomalyDetector.randomState))
        else old(anomalyDetector.model)
      ensures anomalyDetector.nFeatures == if r.Success? then |p.names| else old(anomalyDetector.nFeatures)
    {
      var names := p.names;
      var analysis := p.analysis;
      assert Rectangular(features, |names|);
      assert Rectangular(trainingFeatures, |names|);
      var trained := anomalyDetector.Train(trainingFeatures, |names|, fit);
      if trained.Failure? {
        return Failure(trained.error);
      }
      var decision := anomalyDetector.model.value;
      var rawScores := anomalyDetector.PredictAnomalyScores(features, |names|);
      var transformed := TransformScores(rawScores.value, true);
      var contributions := anomalyDetector.CalculateFeatureContributions(features, |names|, names);
      var topFeatures := GetTopFeatures(contributions.value, names);
      ScoresOf(decision, features, rawScores.value, transformed);
      TopRowsOf(decision, features, |names|, names, contributions.value, topFeatures);

      var output := AssembleOutput(analysis, transformed, topFeatures);
      PercentilesInRange(rawScores.value);
      AssembledOutputDelivers(output, analysis, transformed, topFeatures);
      var checked := ValidateResults(output);
      if checked.Failure? {
        assert false;
      }
      r := Success(output);
    }
  }

  /**
   * A run succeeds exactly when the seed lies in [0, 2^32 - 1] and the
   * contamination in (0, 0.5]; otherwise it names the seed, and then the
   * contamination.
   */
  lemma RunSucceeds(p: Prepared, s: Scaler, contamination: real, randomState: int, fit: Fit)
    requires Ready(p)
    ensures Run(p, s, contamination, randomState, fit).Success? <==>
      ValidSeed(randomState) && ValidContamination(contamination)
    ensures !ValidSeed(randomState) ==>
      Run(p, s, contamination, randomState, fit) == Failure(InvalidRandomState(randomState))
    ensures ValidSeed(randomState) && !ValidContamination(contamination) ==>
      Run(p, s, contamination, randomState, fit) == Failure(InvalidContamination(contamination))
  {
  }

  /**
   * A successful run writes, for every analysis row, the percentile score of
   * the fitted forest's decision on the scaled row and the seven names of its
   * largest contributions; it keeps every other column and passes its check.
   */
  lemma RunDelivers(p: Prepared, s: Scaler, contamination: real, randomState: int, fit: Fit)
    requires Ready(p) && Run(p, s, contamination, randomState, fit).Success?
    ensures var features := Scale(p.analysisMatrix, s);
      var decision := fit(Scale(p.trainMatrix, s), contamination, randomState);
      var out := Run(p, s, contamination, randomState, fit).value;
      IsOutputOf(out, p.analysis, Percentiles(Decisions(decision, features)), TopRows(decision, features, |p.names|, p.names)) &&
      Delivers(out, p.analysis)
  {
    var features := Scale(p.analysisMatrix, s);
    var decision := fit(Scale(p.trainMatrix, s), contamination, randomState);
    var scores := Percentiles(Decisions(decision, features));
    var top := TopRows(decision, features, |p.names|, p.names);
    OutputIsOutputOf(p.analysis, scores, top);
    PercentilesInRange(Decisions(decision, features));
    AssembledOutputDelivers(Output(p.analysis, scores, top), p.analysis, scores, top);
  }

  /**
   * With distinct, non-empty feature names, each row's seven top names of a
   * run are distinct features, and every padding entry comes after them.
   */
  lemma RunTopNames(p: Prepared, s: Scaler, contamination: real, randomState: int, fit: Fit, k: nat)
    requires Ready(p) && Distinct(p.names) && (forall j :: 0 <= j < |p.names| ==> p.names[j] != "")
    requires k < p.analysis.rows
    ensures var features := Scale(p.analysisMatrix, s);
      var decision := fit(Scale(p.trainMatrix, s), contamination, randomState);
      var contributions := ContributionRow(decision, features, |p.names|, k);
      var row := TopRows(decision, features, |p.names|, p.names)[k];
      var n := |TopRowIndices(contributions, DefaultMinContribution)|;
      && (forall i :: 0 <= i < TopCount ==> (row[i] != "" <==> i < n))
      && (forall i :: 0 <= i < n ==> row[i] in p.names)
      && (forall a, b :: 0 <= a < b < n ==> row[a] != row[b])
  {
    var features := Scale(p.analysisMatrix, s);
    var decision := fit(Scale(p.trainMatrix, s), contamination, randomState);
    var contributions := ContributionRow(decision, features, |p.names|, k);
    TopRowNames(contributions, p.names, DefaultMinContribution);
    assert p.names[..|contributions|] == p.names;
  }

  /** Loading and splitting fail first, each with its own error. */
  lemma PrepareErrors(sys: AnomalyDetectionSystem, raw: Frame)
    requires WellFormed(raw)
    ensures Cleaned(raw).Failure? ==> sys.Prepare(raw) == Failure(Cleaned(raw).error)
    ensures Cleaned(raw).Success? ==> WellFormed(Cleaned(raw).value)
    ensures Cleaned(raw).Success? && sys.dataProcessor.SplitData(Cleaned(raw).value).Failure? ==>
      sys.Prepare(raw) == Failure(sys.dataProcessor.SplitData(Cleaned(raw).value).error)
  {
    if Cleaned(raw).Success? {
      CleanedShape(raw);
    }
  }

  /**
   * Once loading succeeds, preparation succeeds exactly when the split
   * succeeds, every feature is a numeric column, there is a feature, and
   * both windows have rows; it then carries the cleaned table's feature
   * names and the two windows.
   */
  lemma PrepareSucceeds(sys: AnomalyDetectionSystem, raw: Frame)
    requires WellFormed(raw) && Cleaned(raw).Success?
    ensures WellFormed(Cleaned(raw).value)
    ensures var df := Cleaned(raw).value;
      var names := FeatureNames(df.columns);
      var split := sys.dataProcessor.SplitData(df);
      (sys.Prepare(raw).Success? <==>
        split.Success? && AllNumeric(df, names) && |names| > 0 && split.value.0.rows > 0 && split.value.1.rows > 0) &&
      (sys.Prepare(raw).Success? ==>
        sys.Prepare(raw).value.names == names && Distinct(names) &&
        sys.Prepare(raw).value.training == split.value.0 && sys.Prepare(raw).value.analysis == split.value.1)
  {
    CleanedShape(raw);
    var df := Cleaned(raw).value;
    var names := FeatureNames(df.columns);
    FeatureNamesDistinct(df.columns);
    var split := sys.dataProcessor.SplitData(df);
    if split.Success? {
      var ts := Lookup(df, TimeColumn).value.stamps;
      SplitDataFacts(sys.dataProcessor, df, ts);
      var train := WindowRows(ts, TrainStart, TrainEnd);
      var analysis := WindowRows(ts, AnalysisStart, AnalysisEnd);
      SelectRowsNumeric(df, train, names);
      SelectRowsNumeric(df, analysis, names);
      FeatureColumnsFacts(split.value.0, names);
      FeatureColumnsFacts(split.value.1, names);
    }
  }

  /**
   * A whole run succeeds exactly when preparation succeeds, the seed lies in
   * [0, 2^32 - 1] and the contamination in (0, 0.5].
   */
  lemma OutcomeSucceeds(sys: AnomalyDetectionSystem, raw: Frame, fitScaler: seq<seq<real>> -> Scaler, fit: Fit)
    requires WellFormed(raw)
    ensures sys.Outcome(raw, fitScaler, fit).Success? <==>
      sys.Prepare(raw).Success? && ValidSeed(sys.anomalyDetector.randomState) &&
      ValidContamination(sys.anomalyDetector.contamination)
    ensures sys.Prepare(raw).Failure? ==> sys.Outcome(raw, fitScaler, fit) == Failure(sys.Prepare(raw).error)
  {
  }

  /** What a run with a successful preparation, a valid seed and a valid contamination delivers, stated on the prepared windows and matrices. */
  lemma OutcomeDelivers(sys: AnomalyDetectionSystem, raw: Frame, fitScaler: seq<seq<real>> -> Scaler, fit: Fit)
    requires WellFormed(raw) && sys.Prepare(raw).Success?
    requires ValidSeed(sys.anomalyDetector.randomState) && ValidContamination(sys.anomalyDetector.contamination)
    ensures sys.Outcome(raw, fitScaler, fit).Success?
    ensures var p := sys.Prepare(raw).value;
      var s := fitScaler(p.trainMatrix);
      var features := Scale(p.analysisMatrix, s);
      var decision := fit(Scale(p.trainMatrix, s), sys.anomalyDetector.contamination, sys.anomalyDetector.randomState);
      var out := sys.Outcome(raw, fitScaler, fit).value;
      IsOutputOf(out, p.analysis, Percentiles(Decisions(decision, features)), TopRows(decision, features, |p.names|, p.names)) &&
      Delivers(out, p.analysis)
  {
    var p := sys.Prepare(raw).value;
    RunDelivers(p, fitScaler(p.trainMatrix), sys.anomalyDetector.contamination, sys.anomalyDetector.randomState, fit);
  }
}
