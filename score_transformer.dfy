/**
 * The score transformer: turns raw model scores into a 0-100 abnormality scale by
 * percentile ranking, and picks the seven features that contribute most to each row.
 * The source's ScoreTransformer class holds no state, so its two operations are
 * module-level methods here.
 */
module Scoring {
  import opened Seqs

  /** How many features the output names per row. */
  const TopCount: nat := 7

  /** The threshold `get_top_features` applies when the caller passes none. */
  const DefaultMinContribution: real := 0.01

  // ---------------------------------------------------------------------------
  // Percentile transform
  // ---------------------------------------------------------------------------

  /** Number of entries of `range` that are at most `s` (numpy's `np.sum(range <= s)`). */
  function CountAtMost(range: seq<real>, s: real): (k: nat)
    ensures k <= |range|
  {
    if |range| == 0 then 0
    else CountAtMost(range[..|range| - 1], s) + (if range[|range| - 1] <= s then 1 else 0)
  }

  function Clip(x: real, lo: real, hi: real): (r: real)
    requires lo <= hi
    ensures lo <= r <= hi
    ensures lo <= x <= hi ==> r == x
  {
    if x < lo then lo else if x > hi then hi else x
  }

  /** The unclipped value `100 - percentile_rank` of `s` ranked against `range`. */
  function Unclipped(range: seq<real>, s: real): real
    requires |range| > 0
  {
    100.0 - (CountAtMost(range, s) as real) / (|range| as real) * 100.0
  }

  /** The transformed score `transform_scores` gives the raw score `s` within `range`. */
  function PercentileScore(range: seq<real>, s: real): real
    requires |range| > 0
  {
    Clip(Unclipped(range, s), 0.0, 100.0)
  }

  /**
   * Percentile-rank transform. Every score is ranked against the very array it is
   * given, whatever `analysisPeriodOnly` says: both branches of the source pick the
   * same range, so the flag has no effect on the result.
   */
  method TransformScores(scores: seq<real>, analysisPeriodOnly: bool) returns (transformed: seq<real>)
    ensures |transformed| == |scores|
    ensures forall i :: 0 <= i < |scores| ==> transformed[i] == PercentileScore(scores, scores[i])
  {
    var scoreRange := if analysisPeriodOnly then scores else scores;
    var t := new real[|scores|];
    for i := 0 to |scores|
      invariant forall k :: 0 <= k < i ==> t[k] == Unclipped(scores, scores[k])
    {
      var count: nat := 0;
      for j := 0 to |scoreRange|
        invariant count == CountAtMost(scoreRange[..j], scores[i])
      {
        assert scoreRange[..j + 1][..j] == scoreRange[..j];
        if scoreRange[j] <= scores[i] {
          count := count + 1;
        }
      }
      assert scoreRange[..|scoreRange|] == scores;
      var percentileRank := (count as real) / (|scoreRange| as real) * 100.0;
      t[i] := 100.0 - percentileRank;
    }
    for i := 0 to t.Length
      invariant forall k :: 0 <= k < i ==> t[k] == PercentileScore(scores, scores[k])
      invariant forall k :: i <= k < t.Length ==> t[k] == Unclipped(scores, scores[k])
    {
      t[i] := Clip(t[i], 0.0, 100.0);
    }
    transformed := t[..];
  }

  /** Every entry of the array counts itself, so its rank count lies in [1, |range|]. */
  lemma {:induction false} CountOfMember(range: seq<real>, s: real)
    requires s in range
    ensures 1 <= CountAtMost(range, s) <= |range|
  {
    var init := range[..|range| - 1];
    if range[|range| - 1] != s {
      assert s in init by {
        var k :| 0 <= k < |range| && range[k] == s;
        assert init[k] == s;
      }
      CountOfMember(init, s);
    }
  }

  /** Raising the threshold never lowers the count. */
  lemma {:induction false} CountMonotone(range: seq<real>, a: real, b: real)
    requires a <= b
    ensures CountAtMost(range, a) <= CountAtMost(range, b)
  {
    if |range| > 0 {
      CountMonotone(range[..|range| - 1], a, b);
    }
  }

  /** A value at least as large as every entry is counted by every entry. */
  lemma {:induction false} CountOfUpperBound(range: seq<real>, m: real)
    requires forall k :: 0 <= k < |range| ==> range[k] <= m
    ensures CountAtMost(range, m) == |range|
  {
    if |range| > 0 {
      CountOfUpperBound(range[..|range| - 1], m);
    }
  }

  /**
   * For a score of the array itself the clip never binds: the transformed score is
   * exactly 100 - 100 * #{j : range[j] <= s} / n, and it is strictly below 100.
   */
  lemma ScoreOfMember(range: seq<real>, s: real)
    requires s in range
    ensures 0.0 <= Unclipped(range, s) < 100.0
    ensures PercentileScore(range, s) == Unclipped(range, s)
  {
    CountOfMember(range, s);
    var c := CountAtMost(range, s) as real;
    var n := |range| as real;
    assert 0.0 < c / n <= 1.0 by {
      assert c <= n;
      assert c / n * n == c;
    }
  }

  /** Every transformed score lies in [0, 100]. */
  lemma ScoreInRange(range: seq<real>, s: real)
    requires |range| > 0
    ensures 0.0 <= PercentileScore(range, s) <= 100.0
  {
  }

  /** The transform reverses order: a larger raw score never gets a larger abnormality score. */
  lemma OrderReversing(range: seq<real>, a: real, b: real)
    requires |range| > 0
    requires a <= b
    ensures PercentileScore(range, a) >= PercentileScore(range, b)
  {
    CountMonotone(range, a, b);
    DivideMonotone(CountAtMost(range, a) as real, CountAtMost(range, b) as real, |range| as real);
  }

  lemma DivideMonotone(a: real, b: real, n: real)
    requires 0.0 < n && a <= b
    ensures a / n <= b / n
  {
    assert b / n - a / n == (b - a) / n;
  }

  /** The largest raw score of the array maps to 0. */
  lemma LargestScoresZero(range: seq<real>, m: real)
    requires m in range
    requires forall k :: 0 <= k < |range| ==> range[k] <= m
    ensures PercentileScore(range, m) == 0.0
  {
    CountOfUpperBound(range, m);
  }

  // ---------------------------------------------------------------------------
  // Top-feature selection
  // ---------------------------------------------------------------------------

  function Abs(x: real): real {
    if x < 0.0 then -x else x
  }

  /** `np.abs` of one row of the contribution matrix: each entry or its negation, never negative. */
  function Magnitudes(row: seq<real>): (m: seq<real>)
    ensures |m| == |row|
    ensures forall j :: 0 <= j < |row| ==> 0.0 <= m[j] && (m[j] == row[j] || m[j] == -row[j])
  {
    seq(|row|, j requires 0 <= j < |row| => Abs(row[j]))
  }

  /** Every listed position has a magnitude of at least `minContribution`. */
  predicate MeetThreshold(idx: seq<nat>, mags: seq<real>, minContribution: real)
    requires InBounds(idx, |mags|)
  {
    forall k :: 0 <= k < |idx| ==> mags[idx[k]] >= minContribution
  }

  /** `np.where(mags >= minContribution)[0]`: the significant positions, in ascending order. */
  function Significant(mags: seq<real>, minContribution: real): seq<nat> {
    if |mags| == 0 then []
    else
      var init := Significant(mags[..|mags| - 1], minContribution);
      if mags[|mags| - 1] >= minContribution then init + [|mags| - 1] else init
  }

  /** Every position `Significant` lists is in range and meets the threshold ... */
  lemma {:induction false} SignificantSound(mags: seq<real>, minContribution: real)
    ensures InBounds(Significant(mags, minContribution), |mags|)
    ensures MeetThreshold(Significant(mags, minContribution), mags, minContribution)
  {
    if |mags| > 0 {
      var init := mags[..|mags| - 1];
      SignificantSound(init, minContribution);
      var prev := Significant(init, minContribution);
      var idx := Significant(mags, minContribution);
      assert idx == if mags[|mags| - 1] >= minContribution then prev + [|mags| - 1] else prev;
      forall k | 0 <= k < |idx|
        ensures idx[k] < |mags| && mags[idx[k]] >= minContribution
      {
        if k < |prev| {
          assert idx[k] == prev[k] && prev[k] < |init| && init[prev[k]] >= minContribution;
          assert mags[prev[k]] == init[prev[k]];
        }
      }
    }
  }

  /** ... the positions come in ascending order ... */
  lemma {:induction false} SignificantIncreasing(mags: seq<real>, minContribution: real)
    ensures Increasing(Significant(mags, minContribution))
  {
    if |mags| > 0 {
      var init := mags[..|mags| - 1];
      SignificantIncreasing(init, minContribution);
      SignificantSound(init, minContribution);
      var prev := Significant(init, minContribution);
      var idx := Significant(mags, minContribution);
      assert idx == if mags[|mags| - 1] >= minContribution then prev + [|mags| - 1] else prev;
      forall a, b | 0 <= a < b < |idx|
        ensures idx[a] < idx[b]
      {
        assert idx[a] == prev[a] && prev[a] < |init|;
        if b < |prev| {
          assert idx[b] == prev[b];
        }
      }
    }
  }

  /** ... and every position that meets the threshold is listed. */
  lemma {:induction false} SignificantComplete(mags: seq<real>, minContribution: real, j: nat)
    requires j < |mags| && mags[j] >= minContribution
    ensures j in Significant(mags, minContribution)
  {
    var init := mags[..|mags| - 1];
    if j < |mags| - 1 {
      assert init[j] == mags[j];
      SignificantComplete(init, minContribution, j);
    }
  }

  /** With no position meeting the threshold nothing is listed. */
  lemma {:induction false} NoneSignificant(mags: seq<real>, minContribution: real)
    requires forall j :: 0 <= j < |mags| ==> mags[j] < minContribution
    ensures Significant(mags, minContribution) == []
  {
    if |mags| > 0 {
      NoneSignificant(mags[..|mags| - 1], minContribution);
    }
  }

  /** `Significant` lists, in ascending order, exactly the positions whose magnitude meets the threshold. */
  lemma SignificantFacts(mags: seq<real>, minContribution: real)
    ensures var idx := Significant(mags, minContribution);
      && Increasing(idx)
      && (forall k :: 0 <= k < |idx| ==> idx[k] < |mags| && mags[idx[k]] >= minContribution)
      && (forall j: nat :: j < |mags| ==> (j in idx <==> mags[j] >= minContribution))
  {
    SignificantSound(mags, minContribution);
    SignificantIncreasing(mags, minContribution);
    forall j: nat | j < |mags| && mags[j] >= minContribution
      ensures j in Significant(mags, minContribution)
    {
      SignificantComplete(mags, minContribution, j);
    }
  }

  /** The positions that take part in the ranking: the significant ones, or all when none is. */
  function Candidates(mags: seq<real>, minContribution: real): seq<nat> {
    var sig := Significant(mags, minContribution);
    if |sig| == 0 then Range(|mags|) else sig
  }


  /** Positions in non-increasing order of magnitude. */
  predicate NonIncreasing(idx: seq<nat>, mags: seq<real>)
    requires InBounds(idx, |mags|)
  {
    forall a, b :: 0 <= a < b < |idx| ==> mags[idx[a]] >= mags[idx[b]]
  }

  /** Puts `x` into a list ordered by non-increasing magnitude. */
  function Insert(x: nat, s: seq<nat>, mags: seq<real>): (r: seq<nat>)
    requires x < |mags| && InBounds(s, |mags|)
    requires NonIncreasing(s, mags)
    ensures |r| == |s| + 1
    ensures InBounds(r, |mags|) && NonIncreasing(r, mags)
    ensures multiset(r) == multiset(s) + multiset{x}
  {
    if |s| == 0 then [x]
    else if mags[x] >= mags[s[0]] then [x] + s
    else
      var rest := Insert(x, s[1..], mags);
      assert s == [s[0]] + s[1..];
      HeadDominates(x, s, rest, mags);
      [s[0]] + rest
  }

  /** The head of a sorted list stays ahead of everything inserted behind it. */
  lemma HeadDominates(x: nat, s: seq<nat>, rest: seq<nat>, mags: seq<real>)
    requires x < |mags| && InBounds(s, |mags|) && InBounds(rest, |mags|)
    requires |s| > 0 && NonIncreasing(s, mags) && mags[x] < mags[s[0]]
    requires multiset(rest) == multiset(s[1..]) + multiset{x}
    ensures forall k :: 0 <= k < |rest| ==> mags[s[0]] >= mags[rest[k]]
  {
    forall k | 0 <= k < |rest|
      ensures mags[s[0]] >= mags[rest[k]]
    {
      assert rest[k] in multiset(rest);
      if rest[k] != x {
        assert rest[k] in multiset(s[1..]);
        var p :| 0 <= p < |s[1..]| && s[1..][p] == rest[k];
        assert s[p + 1] == rest[k];
      }
    }
  }

  lemma DistinctHead(s: seq<nat>)
    requires |s| > 0 && Distinct(s)
    ensures s[0] !in s[1..] && Distinct(s[1..])
  {
    forall k | 0 <= k < |s| - 1
      ensures s[1..][k] != s[0]
    {
      assert s[1..][k] == s[k + 1];
    }
  }

  /** Inserting a new element into a list without repetitions keeps it without repetitions. */
  lemma {:induction false} InsertDistinct(x: nat, s: seq<nat>, mags: seq<real>)
    requires x < |mags| && InBounds(s, |mags|) && NonIncreasing(s, mags)
    requires x !in s && Distinct(s)
    ensures Distinct(Insert(x, s, mags))
  {
    if |s| == 0 {
    } else if mags[x] >= mags[s[0]] {
      DistinctCons(x, s);
    } else {
      DistinctHead(s);
      InsertDistinct(x, s[1..], mags);
      var rest := Insert(x, s[1..], mags);
      assert s[0] !in rest by {
        assert s[0] !in multiset(s[1..]) + multiset{x};
      }
      DistinctCons(s[0], rest);
    }
  }

  /**
   * Orders positions by descending magnitude (the source's `argsort(...)[::-1]`).
   * Ties are left in whatever order the insertion produces; nothing below depends on it.
   */
  function SortByMagnitude(idx: seq<nat>, mags: seq<real>): (r: seq<nat>)
    requires InBounds(idx, |mags|)
    ensures |r| == |idx|
    ensures InBounds(r, |mags|) && NonIncreasing(r, mags)
    ensures multiset(r) == multiset(idx)
    ensures Distinct(idx) ==> Distinct(r)
  {
    if |idx| == 0 then []
    else
      var rest := SortByMagnitude(idx[1..], mags);
      assert idx == [idx[0]] + idx[1..];
      assert idx[0] in rest <==> idx[0] in idx[1..] by {
        assert idx[0] in rest <==> idx[0] in multiset(rest);
      }
      var r := Insert(idx[0], rest, mags);
      if Distinct(idx) then
        DistinctHead(idx);
        InsertDistinct(idx[0], rest, mags);
        r
      else
        r
  }

  /** The positions of the (at most seven) features named for one row, best first. */
  function TopIndices(mags: seq<real>, minContribution: real): (t: seq<nat>)
    ensures |t| <= TopCount && InBounds(t, |mags|)
  {
    var cand := Candidates(mags, minContribution);
    CandidatesDistinct(mags, minContribution);
    var sorted := SortByMagnitude(cand, mags);
    sorted[..Min(TopCount, |sorted|)]
  }

  /** `np.abs` then the selection, for one row of the contribution matrix. */
  function TopRowIndices(row: seq<real>, minContribution: real): (t: seq<nat>)
    ensures |t| <= TopCount && InBounds(t, |row|)
  {
    TopIndices(Magnitudes(row), minContribution)
  }

  /** A list of at most seven names padded with empty strings to exactly seven. */
  function Padded(names: seq<string>): (r: seq<string>)
    requires |names| <= TopCount
    ensures |r| == TopCount
  {
    names + seq(TopCount - |names|, _ => "")
  }

  lemma TopRowLength(row: seq<real>, featureNames: seq<string>, minContribution: real)
    requires |row| <= |featureNames|
    ensures |TopRow(row, featureNames, minContribution)| == TopCount
  {
  }

  /** The seven output names of one row. */
  function TopRow(row: seq<real>, featureNames: seq<string>, minContribution: real): seq<string>
    requires |row| <= |featureNames|
  {
    var idx := TopRowIndices(row, minContribution);
    Padded(seq(|idx|, k requires 0 <= k < |idx| => featureNames[idx[k]]))
  }

  lemma {:induction false} SortedKeepsMembers(idx: seq<nat>, mags: seq<real>, j: nat)
    requires InBounds(idx, |mags|)
    ensures j in SortByMagnitude(idx, mags) <==> j in idx
  {
    var r := SortByMagnitude(idx, mags);
    assert j in r <==> j in multiset(r);
    assert j in idx <==> j in multiset(idx);
  }

  lemma CandidatesDistinct(mags: seq<real>, minContribution: real)
    ensures InBounds(Candidates(mags, minContribution), |mags|)
    ensures Distinct(Candidates(mags, minContribution))
  {
    SignificantSound(mags, minContribution);
    SignificantIncreasing(mags, minContribution);
  }

  /** The selection has min(7, #candidates) entries. */
  lemma TopIndicesSize(mags: seq<real>, minContribution: real)
    ensures |TopIndices(mags, minContribution)| == Min(TopCount, |Candidates(mags, minContribution)|)
  {
  }

  /** The selection is a list of distinct candidates in non-increasing order of magnitude. */
  lemma TopIndicesOrdered(mags: seq<real>, minContribution: real)
    ensures var t := TopIndices(mags, minContribution);
      && Distinct(t) && NonIncreasing(t, mags)
      && (forall k :: 0 <= k < |t| ==> t[k] in Candidates(mags, minContribution))
  {
    var cand := Candidates(mags, minContribution);
    CandidatesDistinct(mags, minContribution);
    var sorted := SortByMagnitude(cand, mags);
    var t := TopIndices(mags, minContribution);
    assert t == sorted[..|t|];
    forall k | 0 <= k < |t|
      ensures t[k] in cand
    {
      SortedKeepsMembers(cand, mags, t[k]);
    }
  }

  /** No candidate left out of the selection is larger than any candidate taken. */
  lemma TopIndicesMaximal(mags: seq<real>, minContribution: real)
    ensures var t := TopIndices(mags, minContribution);
      forall j: nat, k :: j < |mags| && j in Candidates(mags, minContribution) && j !in t && 0 <= k < |t| ==> mags[j] <= mags[t[k]]
  {
    var cand := Candidates(mags, minContribution);
    CandidatesDistinct(mags, minContribution);
    var sorted := SortByMagnitude(cand, mags);
    var t := TopIndices(mags, minContribution);
    assert t == sorted[..|t|];
    forall j: nat, k | j < |mags| && j in cand && j !in t && 0 <= k < |t|
      ensures mags[j] <= mags[t[k]]
    {
      SortedKeepsMembers(cand, mags, j);
      var p :| 0 <= p < |sorted| && sorted[p] == j;
      assert sorted[k] == t[k];
    }
  }

  /**
   * What `get_top_features` promises about the positions it names for one row:
   * min(7, #candidates) distinct positions, all candidates, in non-increasing order of
   * magnitude, and no candidate left out is larger than any candidate taken.
   */
  lemma TopIndicesFacts(mags: seq<real>, minContribution: real)
    ensures var t := TopIndices(mags, minContribution);
      && |t| == Min(TopCount, |Candidates(mags, minContribution)|)
      && InBounds(t, |mags|) && Distinct(t) && NonIncreasing(t, mags)
      && (forall k :: 0 <= k < |t| ==> t[k] in Candidates(mags, minContribution))
      && (forall j: nat, k :: j < |mags| && j in Candidates(mags, minContribution) && j !in t && 0 <= k < |t| ==> mags[j] <= mags[t[k]])
  {
    TopIndicesSize(mags, minContribution);
    TopIndicesOrdered(mags, minContribution);
    TopIndicesMaximal(mags, minContribution);
  }

  /** When some feature meets the threshold, only such features are named. */
  lemma TopIndicesSignificant(mags: seq<real>, minContribution: real)
    requires exists j :: 0 <= j < |mags| && mags[j] >= minContribution
    ensures forall k :: 0 <= k < |TopIndices(mags, minContribution)| ==>
      mags[TopIndices(mags, minContribution)[k]] >= minContribution
  {
    SignificantFacts(mags, minContribution);
    var j :| 0 <= j < |mags| && mags[j] >= minContribution;
    assert j in Significant(mags, minContribution);
    TopIndicesOrdered(mags, minContribution);
  }

  /** The number of named features is min(7, #{j : mags[j] >= minContribution}) ... */
  lemma CountWhenSignificant(mags: seq<real>, minContribution: real)
    requires exists j :: 0 <= j < |mags| && mags[j] >= minContribution
    ensures |TopIndices(mags, minContribution)| ==
      Min(TopCount, |set j: nat | j < |mags| && mags[j] >= minContribution|)
  {
    var sig := Significant(mags, minContribution);
    SignificantFacts(mags, minContribution);
    var j :| 0 <= j < |mags| && mags[j] >= minContribution;
    assert j in sig;
    assert Candidates(mags, minContribution) == sig;
    TopIndicesSize(mags, minContribution);
    assert |TopIndices(mags, minContribution)| == Min(TopCount, |sig|);
    assert Distinct(sig);
    DistinctCardinality<nat>(sig);
    var members: set<nat> := set x: nat | x in sig;
    assert |members| == |sig|;
    assert members == (set j: nat | j < |mags| && mags[j] >= minContribution);
  }

  /** ... and min(7, n_features) when no feature meets the threshold. */
  lemma CountWhenNoneSignificant(mags: seq<real>, minContribution: real)
    requires forall j :: 0 <= j < |mags| ==> mags[j] < minContribution
    ensures Candidates(mags, minContribution) == Range(|mags|)
    ensures |TopIndices(mags, minContribution)| == Min(TopCount, |mags|)
  {
    NoneSignificant(mags, minContribution);
    TopIndicesSize(mags, minContribution);
  }

  /**
   * The seven names of one row: exactly seven entries, the first ones the names of the
   * selected positions in order, then only empty strings. With non-empty, distinct
   * feature names the non-empty entries are distinct and all padding comes after them.
   */
  lemma TopRowShape(row: seq<real>, featureNames: seq<string>, minContribution: real)
    requires |row| <= |featureNames|
    ensures var t := TopRowIndices(row, minContribution);
      var out := TopRow(row, featureNames, minContribution);
      && |out| == TopCount
      && |t| <= TopCount
      && (forall k :: 0 <= k < |t| ==> t[k] < |row| && out[k] == featureNames[t[k]])
      && (forall k :: |t| <= k < TopCount ==> out[k] == "")
  {
    TopIndicesFacts(Magnitudes(row), minContribution);
  }

  lemma TopRowNames(row: seq<real>, featureNames: seq<string>, minContribution: real)
    requires |row| <= |featureNames|
    requires Distinct(featureNames)
    requires forall j :: 0 <= j < |featureNames| ==> featureNames[j] != ""
    ensures var out := TopRow(row, featureNames, minContribution);
      var n := |TopRowIndices(row, minContribution)|;
      && (forall k :: 0 <= k < TopCount ==> (out[k] != "" <==> k < n))
      && (forall k :: 0 <= k < n ==> out[k] in featureNames[..|row|])
      && (forall a, b :: 0 <= a < b < n ==> out[a] != out[b])
  {
    TopRowShape(row, featureNames, minContribution);
    TopIndicesFacts(Magnitudes(row), minContribution);
    var t := TopRowIndices(row, minContribution);
    var out := TopRow(row, featureNames, minContribution);
    forall k | 0 <= k < |t|
      ensures out[k] in featureNames[..|row|]
    {
      assert featureNames[..|row|][t[k]] == out[k];
    }
  }

  /** The body of the source's per-row loop: select, name and pad one row. */
  method SampleTopFeatures(row: seq<real>, featureNames: seq<string>, minContribution: real)
    returns (names: seq<string>)
    requires |row| <= |featureNames|
    ensures |names| == TopCount && names == TopRow(row, featureNames, minContribution)
  {
    var sampleContributions := Magnitudes(row);
    var top := TopIndices(sampleContributions, minContribution);
    names := [];
    for k := 0 to |top|
      invariant |names| == k
      invariant forall t :: 0 <= t < k ==> names[t] == featureNames[top[t]]
    {
      ghost var before := names;
      names := names + [featureNames[top[k]]];
      assert forall t :: 0 <= t < k ==> names[t] == before[t];
    }
    ghost var chosen := names;
    while |names| < TopCount
      invariant |chosen| <= |names| <= TopCount
      invariant forall t :: 0 <= t < |names| ==> names[t] == if t < |chosen| then chosen[t] else ""
      decreases TopCount - |names|
    {
      ghost var before := names;
      names := names + [""];
      assert forall t :: 0 <= t < |before| ==> names[t] == before[t];
    }
    ghost var named := seq(|top|, k requires 0 <= k < |top| => featureNames[top[k]]);
    assert chosen == named;
    assert names == Padded(named);
  }

  /**
   * `get_top_features`: one list of exactly seven names per row of the contribution
   * matrix, each the selection for that row.
   */
  method GetTopFeatures(contributions: seq<seq<real>>, featureNames: seq<string>,
                        minContribution: real := DefaultMinContribution)
    returns (topFeatures: seq<seq<string>>)
    requires forall r :: 0 <= r < |contributions| ==> |contributions[r]| <= |featureNames|
    ensures |topFeatures| == |contributions|
    ensures forall r :: 0 <= r < |contributions| ==>
      |topFeatures[r]| == TopCount && topFeatures[r] == TopRow(contributions[r], featureNames, minContribution)
  {
    topFeatures := [];
    for i := 0 to |contributions|
      invariant |topFeatures| == i
      invariant forall r :: 0 <= r < i ==> topFeatures[r] == TopRow(contributions[r], featureNames, minContribution)
    {
      var names := SampleTopFeatures(contributions[i], featureNames, minContribution);
      topFeatures := topFeatures + [names];
    }
    forall r | 0 <= r < |contributions|
      ensures |topFeatures[r]| == TopCount
    {
      TopRowLength(contributions[r], featureNames, minContribution);
    }
  }
}
