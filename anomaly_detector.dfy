/**
 * The anomaly detector: a two-state object (not fitted / fitted) around an
 * isolation-forest scorer, and the perturbation analysis that attributes a
 * row's score to its features. The scorer itself is uninterpreted.
 */
module Detection {
  import opened Wrappers
  import opened Seqs
  import opened Frames

  /** `decision_function` of a fitted forest on one row (lower is more anomalous). */
  type Decision = seq<real> -> real

  /** Fitting a forest: training rows, contamination and random seed to a decision function. */
  type Fit = (seq<seq<real>>, real, int) -> Decision

  /** Every row has `width` entries (a two-dimensional numpy array). */
  predicate Rectangular(m: seq<seq<real>>, width: nat) {
    forall k :: 0 <= k < |m| ==> |m[k]| == width
  }

  /** Column i of the matrix. */
  function ColumnOf(m: seq<seq<real>>, width: nat, i: nat): (c: seq<real>)
    requires Rectangular(m, width) && i < width
    ensures |c| == |m|
  {
    seq(|m|, k requires 0 <= k < |m| => m[k][i])
  }

  /** `np.mean(features[:, i])` over the rows supplied. */
  function ColumnMean(m: seq<seq<real>>, width: nat, i: nat): real
    requires Rectangular(m, width) && i < width && |m| > 0
  {
    Mean(ColumnOf(m, width, i))
  }

  /** `features.copy()` with column i overwritten by v. */
  function Perturbed(m: seq<seq<real>>, i: nat, v: real): (p: seq<seq<real>>)
    requires forall k :: 0 <= k < |m| ==> i < |m[k]|
    ensures |p| == |m|
  {
    seq(|m|, k requires 0 <= k < |m| => m[k][i := v])
  }

  /** Only feature i changes, to v; every other entry and the shape stay. */
  lemma PerturbedFacts(m: seq<seq<real>>, width: nat, i: nat, v: real)
    requires Rectangular(m, width) && i < width
    ensures Rectangular(Perturbed(m, i, v), width)
    ensures forall k :: 0 <= k < |m| ==> Perturbed(m, i, v)[k][i] == v
    ensures forall k, j :: 0 <= k < |m| && 0 <= j < width && j != i ==> Perturbed(m, i, v)[k][j] == m[k][j]
  {
  }

  /**
   * The contribution of feature i to row k: the score of the row minus the
   * score of the same row with feature i set to the column mean.
   */
  function Contribution(decision: Decision, m: seq<seq<real>>, width: nat, k: nat, i: nat): real
    requires Rectangular(m, width) && i < width && k < |m|
  {
    decision(m[k]) - decision(Perturbed(m, i, ColumnMean(m, width, i))[k])
  }

  /** A feature already at its column mean contributes nothing to that row. */
  lemma AtMeanContributesNothing(decision: Decision, m: seq<seq<real>>, width: nat, k: nat, i: nat)
    requires Rectangular(m, width) && i < width && k < |m|
    requires m[k][i] == ColumnMean(m, width, i)
    ensures Contribution(decision, m, width, k, i) == 0.0
  {
    assert Perturbed(m, i, ColumnMean(m, width, i))[k] == m[k];
  }

  /** A feature that is constant over the rows contributes nothing to any row. */
  lemma ConstantFeatureContributesNothing(decision: Decision, m: seq<seq<real>>, width: nat, i: nat)
    requires Rectangular(m, width) && i < width && |m| > 0
    requires forall k :: 0 <= k < |m| ==> m[k][i] == m[0][i]
    ensures forall k :: 0 <= k < |m| ==> Contribution(decision, m, width, k, i) == 0.0
  {
    MeanOfConstant(ColumnOf(m, width, i), m[0][i]);
    forall k | 0 <= k < |m|
      ensures Contribution(decision, m, width, k, i) == 0.0
    {
      AtMeanContributesNothing(decision, m, width, k, i);
    }
  }

  /** Contributions are signed: with the scorer "first feature", row [0] of [[0], [2]] gets -1. */
  lemma ContributionCanBeNegative()
    ensures Contribution(x => if |x| > 0 then x[0] else 0.0, [[0.0], [2.0]], 1, 0, 0) == -1.0
  {
    var m := [[0.0], [2.0]];
    assert ColumnOf(m, 1, 0) == [0.0, 2.0];
    assert Sum([0.0, 2.0]) == 2.0 by {
      assert [0.0, 2.0][..1] == [0.0];
      assert [0.0][..0] == [];
    }
    assert Perturbed(m, 0, 1.0)[0] == [1.0];
  }

  /** The forest's own parameter check: a contamination proportion lies in (0, 0.5]. */
  predicate ValidContamination(c: real) {
    0.0 < c <= 0.5
  }

  /** The forest's own parameter check: an integer seed lies in [0, 2^32 - 1]. */
  predicate ValidSeed(seed: int) {
    0 <= seed <= 0xFFFF_FFFF
  }

  class AnomalyDetector {
    const contamination: real
    const randomState: int
    var isFitted: bool
    /** The fitted forest's decision function; present exactly when fitted. */
    var model: Option<Decision>
    /** The number of features the forest was fitted on (`n_features_in_`). */
    var nFeatures: nat

    predicate Valid()
      reads this
    {
      isFitted <==> model.Some?
    }

    constructor(contamination: real := 0.1, randomState: int := 42)
      ensures Valid() && !isFitted
      ensures this.contamination == contamination && this.randomState == randomState
    {
      this.contamination := contamination;
      this.randomState := randomState;
      isFitted := false;
      model := None;
      nFeatures := 0;
    }

    /**
     * Fits the forest on the `width`-column training rows and marks the
     * detector fitted. Fitting the temporary forest rejects a seed outside
     * [0, 2^32 - 1] (parameters are checked before the data), then an empty
     * sample set, then rows without features; fitting the main forest then
     * rejects a contamination outside (0, 0.5]. Each refusal changes nothing.
     */
    method Train(trainingFeatures: seq<seq<real>>, width: nat, fit: Fit) returns (r: Result<(), Error>)
      requires Valid() && Rectangular(trainingFeatures, width)
      modifies this`isFitted, this`model, this`nFeatures
      ensures Valid()
      ensures r.Failure? ==> isFitted == old(isFitted) && model == old(model) && nFeatures == old(nFeatures)
      ensures !ValidSeed(randomState) <==> r == Failure(InvalidRandomState(randomState))
      ensures ValidSeed(randomState) && |trainingFeatures| == 0 <==> r == Failure(NoSamples)
      ensures ValidSeed(randomState) && |trainingFeatures| > 0 && width == 0 <==> r == Failure(NoFeatures)
      ensures ValidSeed(randomState) && |trainingFeatures| > 0 && width > 0 && !ValidContamination(contamination) <==>
        r == Failure(InvalidContamination(contamination))
      ensures r.Success? <==>
        ValidSeed(randomState) && |trainingFeatures| > 0 && width > 0 && ValidContamination(contamination)
      ensures r.Success? ==>
        isFitted && model == Some(fit(trainingFeatures, contamination, randomState)) && nFeatures == width
    {
      if !ValidSeed(randomState) {
        return Failure(InvalidRandomState(randomState));
      }
      if |trainingFeatures| == 0 {
        return Failure(NoSamples);
      }
      if width == 0 {
        return Failure(NoFeatures);
      }
      if !ValidContamination(contamination) {
        return Failure(InvalidContamination(contamination));
      }
      model := Some(fit(trainingFeatures, contamination, randomState));
      nFeatures := width;
      isFitted := true;
      r := Success(());
    }

    /**
     * The input check of `decision_function` on a `width`-column matrix: no
     * rows, then no features, then a width other than the fitted one.
     */
    function InputCheck(features: seq<seq<real>>, width: nat): (r: Option<Error>)
      reads this`nFeatures
    {
      if |features| == 0 then Some(NoSamples)
      else if width == 0 then Some(NoFeatures)
      else if width != nFeatures then Some(FeatureCountMismatch(width, nFeatures))
      else None
    }

    /** The raw score of every row; refused until the detector is fitted, then by the input check. */
    method PredictAnomalyScores(features: seq<seq<real>>, width: nat) returns (r: Result<seq<real>, Error>)
      requires Valid() && Rectangular(features, width)
      ensures !isFitted <==> r == Failure(NotFitted)
      ensures isFitted ==> (InputCheck(features, width).Some? <==> r.Failure?)
      ensures isFitted && InputCheck(features, width).Some? ==> r == Failure(InputCheck(features, width).value)
      ensures r.Success? <==> isFitted && |features| > 0 && width == nFeatures > 0
      ensures r.Success? ==> |r.value| == |features|
      ensures r.Success? ==> forall k :: 0 <= k < |features| ==> r.value[k] == model.value(features[k])
    {
      if !isFitted {
        return Failure(NotFitted);
      }
      var check := InputCheck(features, width);
      if check.Some? {
        return Failure(check.value);
      }
      var decision := model.value;
      r := Success(seq(|features|, k requires 0 <= k < |features| => decision(features[k])));
    }

    /**
     * The n_samples x n_features matrix whose entry (k, i) is the contribution
     * of feature i to row k; refused until the detector is fitted, then by
     * the input check of the baseline `decision_function` call.
     */
    method CalculateFeatureContributions(features: seq<seq<real>>, width: nat, featureNames: seq<string>)
      returns (r: Result<seq<seq<real>>, Error>)
      requires Valid() && Rectangular(features, width)
      ensures !isFitted <==> r == Failure(NotFitted)
      ensures isFitted ==> (InputCheck(features, width).Some? <==> r.Failure?)
      ensures isFitted && InputCheck(features, width).Some? ==> r == Failure(InputCheck(features, width).value)
      ensures r.Success? <==> isFitted && |features| > 0 && width == nFeatures > 0
      ensures r.Success? ==> |r.value| == |features| && Rectangular(r.value, width)
      ensures r.Success? ==> forall k, i :: 0 <= k < |features| && 0 <= i < width ==>
        r.value[k][i] == Contribution(model.value, features, width, k, i)
    {
      if !isFitted {
        return Failure(NotFitted);
      }
      var n := |features|;
      var check := InputCheck(features, width);
      if check.Some? {
        return Failure(check.value);
      }
      var decision := model.value;
      ghost var expected := seq(n, k requires 0 <= k < n =>
        seq(width, j requires 0 <= j < width => Contribution(decision, features, width, k, j)));
      var contributions := new real[n, width];
      var baseline := seq(n, k requires 0 <= k < n => decision(features[k]));
      for i := 0 to width
        invariant forall k, j :: 0 <= k < n && 0 <= j < i ==> contributions[k, j] == expected[k][j]
      {
        var mean := ColumnMean(features, width, i);
        var perturbed := Perturbed(features, i, mean);
        var perturbedScores := seq(n, k requires 0 <= k < n => decision(perturbed[k]));
        for k := 0 to n
          invariant forall k', j :: 0 <= k' < n && 0 <= j < i ==> contributions[k', j] == expected[k'][j]
          invariant forall k' :: 0 <= k' < k ==> contributions[k', i] == expected[k'][i]
        {
          assert expected[k][i] == baseline[k] - perturbedScores[k];
          contributions[k, i] := baseline[k] - perturbedScores[k];
        }
      }
      r := Success(seq(n, k requires 0 <= k < n reads contributions =>
        seq(width, j requires 0 <= j < width reads contributions => contributions[k, j])));
      assert forall k, j :: 0 <= k < n && 0 <= j < width ==> r.value[k][j] == expected[k][j];
    }
  }
}
