/**
 * The pure helpers of the web back end: the upload file-name filter, the
 * summary statistics computed from a finished analysis table, and the
 * replacement of non-finite floats before a result is sent as JSON.
 */
module Backend {
  import opened Wrappers
  import opened Seqs
  import opened Frames
  import opened DataProcessing

  // ---------------------------------------------------------------------
  // Upload file names
  // ---------------------------------------------------------------------

  /** The extensions an upload may carry. */
  const AllowedExtensions: set<string> := {"csv", "xls", "xlsx"}

  /** Position of the last '.' in `f`. */
  function LastDot(f: string): (i: nat)
    requires '.' in f
    ensures i < |f| && f[i] == '.'
    ensures forall k :: i < k < |f| ==> f[k] != '.'
  {
    var n := |f| - 1;
    if f[n] == '.' then n
    else
      assert '.' in f[..n] by {
        var j :| 0 <= j < |f| && f[j] == '.';
        assert f[..n][j] == '.';
      }
      LastDot(f[..n])
  }

  /** `filename.rsplit('.', 1)[1]`: the text after the last '.'. */
  function Extension(f: string): (e: string)
    requires '.' in f
    ensures '.' !in e
  {
    var i := LastDot(f);
    NoDotAfter(f, i);
    f[i + 1..]
  }

  lemma NoDotAfter(f: string, i: nat)
    requires i < |f| && forall k :: i < k < |f| ==> f[k] != '.'
    ensures '.' !in f[i + 1..]
  {
    var e := f[i + 1..];
    forall k | 0 <= k < |e|
      ensures e[k] != '.'
    {
      assert e[k] == f[i + 1 + k];
    }
  }

  /** `.lower()` on the ASCII letters. */
  function LowerChar(c: char): char {
    if 'A' <= c <= 'Z' then (c as int + 32) as char else c
  }

  function Lower(s: string): (r: string)
    ensures |r| == |s|
  {
    seq(|s|, i requires 0 <= i < |s| => LowerChar(s[i]))
  }

  /** `allowed_file`: the name has a '.' and its last extension, lower-cased, is allowed. */
  predicate AllowedFile(filename: string) {
    '.' in filename && Lower(Extension(filename)) in AllowedExtensions
  }

  /** A name split at its last '.' is judged by the part after it alone. */
  lemma AllowedFileSplit(stem: string, ext: string)
    requires '.' !in ext
    ensures '.' in stem + "." + ext
    ensures Extension(stem + "." + ext) == ext
    ensures AllowedFile(stem + "." + ext) <==> Lower(ext) in AllowedExtensions
  {
    var f := stem + "." + ext;
    assert f[|stem|] == '.';
    forall k | |stem| < k < |f|
      ensures f[k] != '.'
    {
      assert f[k] == ext[k - |stem| - 1];
    }
    var i := LastDot(f);
    assert i == |stem|;
    assert f[i + 1..] == ext;
  }

  /** A name without a '.' is refused. */
  lemma NoDotRefused(filename: string)
    requires '.' !in filename
    ensures !AllowedFile(filename)
  {
  }

  /** Every allowed name is `stem + "." + ext` for an allowed `ext` without a '.'. */
  lemma AllowedFileShape(filename: string)
    requires AllowedFile(filename)
    ensures filename == filename[..LastDot(filename)] + "." + Extension(filename)
    ensures Lower(Extension(filename)) in AllowedExtensions
  {
    var i := LastDot(filename);
    assert filename == filename[..i] + [filename[i]] + filename[i + 1..];
  }

  /** The check ignores letter case: names equal after lower-casing are judged alike. */
  lemma AllowedFileIgnoresCase(f: string, g: string)
    requires Lower(f) == Lower(g)
    ensures AllowedFile(f) <==> AllowedFile(g)
  {
    if '.' in f {
      var i := LastDot(f);
      TheLastDotIsShared(f, g, i);
    } else if '.' in g {
      var i := LastDot(g);
      TheLastDotIsShared(g, f, i);
    }
  }

  lemma TheLastDotIsShared(f: string, g: string, i: nat)
    requires Lower(f) == Lower(g) && '.' in f && i == LastDot(f)
    ensures AllowedFile(f) <==> AllowedFile(g)
  {
    assert |f| == |g|;
    assert LowerChar(g[i]) == Lower(g)[i] == Lower(f)[i] == '.';
    forall k | i < k < |g|
      ensures g[k] != '.'
    {
      assert LowerChar(g[k]) == Lower(g)[k] == Lower(f)[k] == LowerChar(f[k]);
    }
    var ef, eg := f[i + 1..], g[i + 1..];
    assert '.' !in eg by {
      forall k | 0 <= k < |eg|
        ensures eg[k] != '.'
      {
        assert eg[k] == g[i + 1 + k];
      }
    }
    assert f == f[..i] + "." + ef;
    assert g == g[..i] + "." + eg;
    AllowedFileSplit(f[..i], ef);
    AllowedFileSplit(g[..i], eg);
    assert Lower(ef) == Lower(eg) by {
      forall k | 0 <= k < |ef|
        ensures Lower(ef)[k] == Lower(eg)[k]
      {
        assert Lower(f)[i + 1 + k] == Lower(g)[i + 1 + k];
      }
    }
  }

  /** An upper-case extension is accepted. */
  lemma UpperCaseAccepted()
    ensures AllowedFile("report.CSV")
  {
    AllowedFileSplit("report", "CSV");
    assert "report" + "." + "CSV" == "report.CSV";
    assert Lower("CSV") == "csv";
  }

  /** Only the last extension counts: an allowed one before it does not help. */
  lemma LastExtensionDecides()
    ensures AllowedFile("archive.tar.xlsx")
    ensures !AllowedFile("data.csv.exe")
  {
    AllowedFileSplit("archive.tar", "xlsx");
    assert "archive.tar" + "." + "xlsx" == "archive.tar.xlsx";
    assert Lower("xlsx") == "xlsx";
    AllowedFileSplit("data.csv", "exe");
    assert "data.csv" + "." + "exe" == "data.csv.exe";
    assert Lower("exe") == "exe";
  }

  // ---------------------------------------------------------------------
  // Score distribution
  // ---------------------------------------------------------------------

  datatype Band = Normal | Slight | Moderate | Significant | Severe

  /** The five mask conditions of the distribution. */
  predicate InBand(s: real, b: Band) {
    match b
    case Normal => s <= 10.0
    case Slight => 10.0 < s <= 30.0
    case Moderate => 30.0 < s <= 60.0
    case Significant => 60.0 < s <= 90.0
    case Severe => s > 90.0
  }

  /** `len(scores[mask])`: the number of scores in band b. */
  function BandCount(scores: seq<real>, b: Band): (n: nat)
    ensures n <= |scores|
  {
    if |scores| == 0 then 0
    else BandCount(scores[..|scores| - 1], b) + (if InBand(scores[|scores| - 1], b) then 1 else 0)
  }

  datatype Distribution = Distribution(normal: nat, slight: nat, moderate: nat, significant: nat, severe: nat)

  function ScoreDistribution(scores: seq<real>): Distribution {
    Distribution(BandCount(scores, Normal), BandCount(scores, Slight), BandCount(scores, Moderate),
      BandCount(scores, Significant), BandCount(scores, Severe))
  }

  function Total(d: Distribution): nat {
    d.normal + d.slight + d.moderate + d.significant + d.severe
  }

  /** The band a score falls in: every score falls in one band and only that one. */
  function BandOf(s: real): (b: Band)
    ensures InBand(s, b)
    ensures forall b' :: InBand(s, b') ==> b' == b
  {
    if s <= 10.0 then Normal
    else if s <= 30.0 then Slight
    else if s <= 60.0 then Moderate
    else if s <= 90.0 then Significant
    else Severe
  }

  /** The five counts together count every score exactly once. */
  lemma {:induction false} DistributionTotal(scores: seq<real>)
    ensures Total(ScoreDistribution(scores)) == |scores|
  {
    if |scores| > 0 {
      var init := scores[..|scores| - 1];
      DistributionTotal(init);
      var b := BandOf(scores[|scores| - 1]);
    }
  }

  /** A score in band b adds one to that band's count. */
  lemma {:induction false} BandCountPositive(scores: seq<real>, k: nat, b: Band)
    requires k < |scores| && InBand(scores[k], b)
    ensures BandCount(scores, b) > 0
  {
    if k < |scores| - 1 {
      var init := scores[..|scores| - 1];
      assert init[k] == scores[k];
      BandCountPositive(init, k, b);
    }
  }

  // ---------------------------------------------------------------------
  // Training-period statistics
  // ---------------------------------------------------------------------

  function Max(xs: seq<real>): (m: real)
    requires |xs| > 0
    ensures m in xs
    ensures forall k :: 0 <= k < |xs| ==> xs[k] <= m
  {
    if |xs| == 1 then xs[0]
    else
      var m := Max(xs[..|xs| - 1]);
      assert forall k :: 0 <= k < |xs| - 1 ==> xs[..|xs| - 1][k] == xs[k];
      if xs[|xs| - 1] > m then xs[|xs| - 1] else m
  }

  datatype TrainingStats = TrainingStats(mean: real, max: real)

  /** The scores of the rows whose timestamp lies in the training window. */
  function TrainingScores(times: seq<Stamp>, scores: seq<real>): (r: seq<real>)
    requires |times| == |scores|
  {
    var rows := WindowRows(times, TrainStart, TrainEnd);
    WindowRowsFacts(times, TrainStart, TrainEnd);
    seq(|rows|, k requires 0 <= k < |rows| => scores[rows[k]])
  }

  /** `trainingPeriodStats`: mean and max of the training scores, both 0 when there are none. */
  function TrainingPeriodStats(times: seq<Stamp>, scores: seq<real>): TrainingStats
    requires |times| == |scores|
  {
    var t := TrainingScores(times, scores);
    if |t| > 0 then TrainingStats(Mean(t), Max(t)) else TrainingStats(0.0, 0.0)
  }

  /** A non-empty sequence sums to at most its length times its maximum. */
  lemma {:induction false} SumAtMostMax(xs: seq<real>, m: real)
    requires forall k :: 0 <= k < |xs| ==> xs[k] <= m
    ensures Sum(xs) <= (|xs| as real) * m
  {
    if |xs| > 0 {
      SumAtMostMax(xs[..|xs| - 1], m);
    }
  }

  /** The statistics are 0 when no row lies in the training window. */
  lemma TrainingStatsEmpty(times: seq<Stamp>, scores: seq<real>)
    requires |times| == |scores|
    requires forall i :: 0 <= i < |times| ==> !(TrainStart <= times[i] <= TrainEnd)
    ensures TrainingPeriodStats(times, scores) == TrainingStats(0.0, 0.0)
  {
    WindowRowsFacts(times, TrainStart, TrainEnd);
  }

  /** Position k of the training scores is the score of the k-th row in the window. */
  lemma TrainingScoreAt(times: seq<Stamp>, scores: seq<real>, k: nat)
    requires |times| == |scores| && k < |TrainingScores(times, scores)|
    ensures var rows := WindowRows(times, TrainStart, TrainEnd);
      k < |rows| && rows[k] < |times| && TrainStart <= times[rows[k]] <= TrainEnd &&
      TrainingScores(times, scores)[k] == scores[rows[k]]
  {
    WindowRowsFacts(times, TrainStart, TrainEnd);
  }

  /** A row in the training window has a place among the training scores. */
  lemma TrainingRowPresent(times: seq<Stamp>, scores: seq<real>, i: nat) returns (k: nat)
    requires |times| == |scores| && i < |times| && TrainStart <= times[i] <= TrainEnd
    ensures k < |TrainingScores(times, scores)| && TrainingScores(times, scores)[k] == scores[i]
  {
    WindowRowsFacts(times, TrainStart, TrainEnd);
    var rows := WindowRows(times, TrainStart, TrainEnd);
    assert i in rows;
    k :| 0 <= k < |rows| && rows[k] == i;
  }

  /** The training max bounds the score of every row in the training window. */
  lemma TrainingMaxBounds(times: seq<Stamp>, scores: seq<real>, i: nat)
    requires |times| == |scores| && i < |times| && TrainStart <= times[i] <= TrainEnd
    ensures scores[i] <= TrainingPeriodStats(times, scores).max
  {
    var k := TrainingRowPresent(times, scores, i);
  }

  /** The training max is the score of a row in the training window. */
  lemma TrainingMaxAttained(times: seq<Stamp>, scores: seq<real>, i: nat) returns (j: nat)
    requires |times| == |scores| && i < |times| && TrainStart <= times[i] <= TrainEnd
    ensures j < |times| && TrainStart <= times[j] <= TrainEnd
    ensures scores[j] == TrainingPeriodStats(times, scores).max
  {
    var k := TrainingRowPresent(times, scores, i);
    var t := TrainingScores(times, scores);
    var a :| 0 <= a < |t| && t[a] == Max(t);
    TrainingScoreAt(times, scores, a);
    j := WindowRows(times, TrainStart, TrainEnd)[a];
  }

  /** The training mean never exceeds the training max. */
  lemma TrainingMeanAtMostMax(times: seq<Stamp>, scores: seq<real>)
    requires |times| == |scores|
    ensures TrainingPeriodStats(times, scores).mean <= TrainingPeriodStats(times, scores).max
  {
    var t := TrainingScores(times, scores);
    if |t| > 0 {
      SumAtMostMax(t, Max(t));
      DivideAtMost(Sum(t), |t| as real, Max(t));
    }
  }

  lemma DivideAtMost(s: real, n: real, m: real)
    requires n > 0.0 && s <= n * m
    ensures s / n <= m
  {
  }

  // ---------------------------------------------------------------------
  // Top contributing features
  // ---------------------------------------------------------------------

  /** An insertion-ordered dictionary from feature name to count. */
  type Counts = seq<(string, nat)>

  function Keys(d: Counts): (ks: seq<string>)
    ensures |ks| == |d|
    ensures forall i :: 0 <= i < |d| ==> ks[i] == d[i].0
  {
    seq(|d|, i requires 0 <= i < |d| => d[i].0)
  }

  /** `feature_counts.get(name, 0)`. */
  function Get(d: Counts, name: string): nat {
    if |d| == 0 then 0 else if d[0].0 == name then d[0].1 else Get(d[1..], name)
  }

  /** `feature_counts[name] = feature_counts.get(name, 0) + 1`. */
  function Bump(d: Counts, name: string): (r: Counts)
    ensures Keys(r) == if name in Keys(d) then Keys(d) else Keys(d) + [name]
  {
    if |d| == 0 then [(name, 1)]
    else if d[0].0 == name then [(name, d[0].1 + 1)] + d[1..]
    else
      var rest := Bump(d[1..], name);
      assert Keys(d) == [d[0].0] + Keys(d[1..]);
      assert Keys([d[0]] + rest) == [d[0].0] + Keys(rest);
      [d[0]] + rest
  }

  /** One cell of the counting loop: an empty name is skipped, any other is bumped. */
  function Record(d: Counts, name: string): Counts {
    if name == "" then d else Bump(d, name)
  }

  /** The dictionary built from `cells` in order, skipping empty names. */
  function Tally(cells: seq<string>): Counts {
    if |cells| == 0 then [] else Record(Tally(cells[..|cells| - 1]), cells[|cells| - 1])
  }

  /** How often `name` occurs in `cells`. */
  function Occurrences(cells: seq<string>, name: string): nat {
    if |cells| == 0 then 0
    else Occurrences(cells[..|cells| - 1], name) + (if cells[|cells| - 1] == name then 1 else 0)
  }

  /** The number of non-empty cells. */
  function NonEmpty(cells: seq<string>): nat {
    if |cells| == 0 then 0
    else NonEmpty(cells[..|cells| - 1]) + (if cells[|cells| - 1] != "" then 1 else 0)
  }

  function SumCounts(d: Counts): nat {
    if |d| == 0 then 0 else d[0].1 + SumCounts(d[1..])
  }

  /** The seven columns' cells in loop order: column by column, top to bottom. */
  function Flatten(columns: seq<seq<string>>): seq<string> {
    if |columns| == 0 then [] else Flatten(columns[..|columns| - 1]) + columns[|columns| - 1]
  }

  lemma {:induction false} GetBump(d: Counts, name: string, n: string)
    ensures Get(Bump(d, name), n) == Get(d, n) + (if n == name then 1 else 0)
  {
    if |d| > 0 && d[0].0 != name {
      GetBump(d[1..], name, n);
    }
  }

  lemma {:induction false} SumCountsBump(d: Counts, name: string)
    ensures SumCounts(Bump(d, name)) == SumCounts(d) + 1
  {
    if |d| > 0 && d[0].0 != name {
      SumCountsBump(d[1..], name);
    }
  }

  lemma {:induction false} BumpDistinct(d: Counts, name: string)
    requires Distinct(Keys(d))
    ensures Distinct(Keys(Bump(d, name)))
  {
    if name !in Keys(d) {
      DistinctAppend(Keys(d), name);
    }
  }

  /** A key that is absent has count 0. */
  lemma {:induction false} GetAbsent(d: Counts, name: string)
    requires name !in Keys(d)
    ensures Get(d, name) == 0
  {
    if |d| > 0 {
      assert Keys(d) == [d[0].0] + Keys(d[1..]);
      GetAbsent(d[1..], name);
    }
  }

  /** Every key of a tallied dictionary is a non-empty name of the cells. */
  lemma {:induction false} TallyKeys(cells: seq<string>)
    ensures forall n :: n in Keys(Tally(cells)) <==> n != "" && n in cells
  {
    if |cells| > 0 {
      var init := cells[..|cells| - 1];
      TallyKeys(init);
      assert cells == init + [cells[|cells| - 1]];
    }
  }

  /**
   * The tally counts every non-empty name exactly as often as it occurs,
   * has each name once, and its counts add up to the non-empty cells.
   */
  lemma {:induction false} TallyFacts(cells: seq<string>)
    ensures Distinct(Keys(Tally(cells)))
    ensures SumCounts(Tally(cells)) == NonEmpty(cells)
    ensures forall n :: n != "" ==> Get(Tally(cells), n) == Occurrences(cells, n)
  {
    if |cells| > 0 {
      var init := cells[..|cells| - 1];
      var name := cells[|cells| - 1];
      TallyFacts(init);
      if name != "" {
        BumpDistinct(Tally(init), name);
        SumCountsBump(Tally(init), name);
        forall n | n != ""
          ensures Get(Tally(cells), n) == Occurrences(cells, n)
        {
          GetBump(Tally(init), name, n);
        }
      }
    }
  }

  /**
   * The nested counting loop over the seven top-feature columns: the
   * dictionary holds, in first-seen order, every non-empty feature name
   * with the number of cells naming it.
   */
  method CountFeatures(columns: seq<seq<string>>) returns (counts: Counts)
    ensures counts == Tally(Flatten(columns))
  {
    counts := [];
    for c := 0 to |columns|
      invariant counts == Tally(Flatten(columns[..c]))
    {
      var col := columns[c];
      ghost var before := Flatten(columns[..c]);
      assert before + col[..0] == before;
      for k := 0 to |col|
        invariant counts == Tally(before + col[..k])
      {
        var feature := col[k];
        CountStep(before, col, k);
        if feature != "" {
          counts := Bump(counts, feature);
        }
      }
      FlattenStep(columns, c);
    }
    assert columns[..|columns|] == columns;
  }

  /** One more cell: an empty name leaves the tally, any other name is bumped. */
  lemma CountStep(before: seq<string>, col: seq<string>, k: nat)
    requires k < |col|
    ensures Tally(before + col[..k + 1]) == Record(Tally(before + col[..k]), col[k])
  {
    assert before + col[..k + 1] == (before + col[..k]) + [col[k]];
    TallySnoc(before + col[..k], col[k]);
  }

  lemma TallySnoc(cells: seq<string>, name: string)
    ensures Tally(cells + [name]) == Record(Tally(cells), name)
  {
    assert (cells + [name])[..|cells|] == cells;
  }

  lemma FlattenStep(columns: seq<seq<string>>, c: nat)
    requires c < |columns|
    ensures Flatten(columns[..c + 1]) == Flatten(columns[..c]) + columns[c][..|columns[c]|]
  {
    assert columns[..c + 1][..c] == columns[..c];
    assert columns[c][..|columns[c]|] == columns[c];
  }

  /** Counts ordered so that no entry has a larger count than the one before it. */
  predicate ByCount(d: Counts) {
    forall i, j :: 0 <= i < j < |d| ==> d[i].1 >= d[j].1
  }

  /** No entry of `d` has a count above `c`. */
  predicate AtMost(d: Counts, c: nat) {
    forall k :: 0 <= k < |d| ==> d[k].1 <= c
  }

  /** The same entries plus one more, all bounded by `c`, stay bounded by `c`. */
  lemma AtMostPermuted(r: Counts, d: Counts, e: (string, nat), c: nat)
    requires multiset(r) == multiset(d) + multiset{e} && AtMost(d, c) && e.1 <= c
    ensures AtMost(r, c)
  {
    forall k | 0 <= k < |r|
      ensures r[k].1 <= c
    {
      assert r[k] in multiset(r);
      if r[k] != e {
        assert r[k] in multiset(d);
        var j :| 0 <= j < |d| && d[j] == r[k];
      }
    }
  }

  /** Places `e` after every entry whose count is at least its own. */
  function InsertByCount(e: (string, nat), d: Counts): (r: Counts)
    requires ByCount(d)
    ensures ByCount(r) && multiset(r) == multiset(d) + multiset{e}
  {
    if |d| == 0 then [e]
    else if d[0].1 >= e.1 then
      var rest := InsertByCount(e, d[1..]);
      assert d == [d[0]] + d[1..];
      AtMostPermuted(rest, d[1..], e, d[0].1);
      [d[0]] + rest
    else
      assert d == [d[0]] + d[1..];
      [e] + d
  }

  /**
   * `sorted(feature_counts.items(), key=count, reverse=True)`: the same
   * entries, by non-increasing count.
   */
  function RankFeatures(d: Counts): (r: Counts)
    ensures ByCount(r) && multiset(r) == multiset(d)
  {
    if |d| == 0 then []
    else
      assert d == d[..|d| - 1] + [d[|d| - 1]];
      InsertByCount(d[|d| - 1], RankFeatures(d[..|d| - 1]))
  }

  /**
   * A cell of a top-feature column as the routes read it back from the
   * saved table: an empty field comes back as NaN.
   */
  datatype ReadCell = Text(s: string) | NaN

  function ReadBack(s: string): ReadCell {
    if s == "" then NaN else Text(s)
  }

  /** `if feature and feature != ""`: NaN is truthy, and a string is truthy when it is non-empty. */
  predicate CountedAsWritten(c: ReadCell) {
    c.NaN? || c.s != ""
  }

  /** The padding that `get_top_features` wrote passes the test once read back. */
  lemma PaddingCountedAsWritten()
    ensures CountedAsWritten(ReadBack(""))
  {
  }

  /** The test that skips missing fields as well as empty names. */
  predicate Counted(c: ReadCell) {
    c.Text? && c.s != ""
  }

  /** The corrected test counts a read-back cell exactly when the name written was non-empty. */
  lemma CountedAfterReadBack(s: string)
    ensures Counted(ReadBack(s)) <==> s != ""
  {
  }

  /** How many cells of a column, read back, the test as written admits. */
  function AdmittedAsWritten(col: seq<string>): nat {
    if |col| == 0 then 0
    else AdmittedAsWritten(col[..|col| - 1]) + (if CountedAsWritten(ReadBack(col[|col| - 1])) then 1 else 0)
  }

  /** How many cells of a column, read back, the corrected test admits. */
  function AdmittedCorrected(col: seq<string>): nat {
    if |col| == 0 then 0
    else AdmittedCorrected(col[..|col| - 1]) + (if Counted(ReadBack(col[|col| - 1])) then 1 else 0)
  }

  /**
   * Over one top-feature column read back from the saved table, the test as
   * written admits every cell, padding included, so the dictionary gains an
   * entry for each padding cell; the corrected test admits exactly the cells
   * the tally of the written names counts.
   */
  lemma {:induction false} ReadBackTally(col: seq<string>)
    ensures AdmittedAsWritten(col) == |col|
    ensures AdmittedCorrected(col) == NonEmpty(col) == SumCounts(Tally(col))
    ensures AdmittedAsWritten(col) - SumCounts(Tally(col)) == Occurrences(col, "")
  {
    TallyFacts(col);
    if |col| > 0 {
      ReadBackTally(col[..|col| - 1]);
    }
  }

  // ---------------------------------------------------------------------
  // JSON sanitising
  // ---------------------------------------------------------------------

  datatype Float = Finite(value: real) | NotANumber | PosInf | NegInf

  datatype Json =
    | JNull
    | JBool(b: bool)
    | JInt(i: int)
    | JFloat(f: Float)
    | JString(s: string)
    | JList(items: seq<Json>)
    | JDict(entries: seq<(string, Json)>)

  /** `sanitize_json`: every NaN and infinite float, at any depth, becomes `None`. */
  function Sanitize(j: Json): Json {
    match j
    case JDict(entries) =>
      JDict(seq(|entries|, k requires 0 <= k < |entries| => (entries[k].0, Sanitize(entries[k].1))))
    case JList(items) => JList(seq(|items|, k requires 0 <= k < |items| => Sanitize(items[k])))
    case JFloat(f) => if f.Finite? then j else JNull
    case _ => j
  }

  /** No NaN or infinite float anywhere in `j`. */
  predicate Clean(j: Json) {
    match j
    case JDict(entries) => forall k :: 0 <= k < |entries| ==> Clean(entries[k].1)
    case JList(items) => forall k :: 0 <= k < |items| ==> Clean(items[k])
    case JFloat(f) => f.Finite?
    case _ => true
  }

  /**
   * `s` is `j` with its non-finite floats replaced by null: the same dict
   * keys in the same order, the same list lengths, and every other leaf as it was.
   */
  predicate SanitizedFrom(j: Json, s: Json) {
    match j
    case JDict(entries) =>
      s.JDict? && |s.entries| == |entries| &&
      forall k :: 0 <= k < |entries| ==> s.entries[k].0 == entries[k].0 && SanitizedFrom(entries[k].1, s.entries[k].1)
    case JList(items) =>
      s.JList? && |s.items| == |items| &&
      forall k :: 0 <= k < |items| ==> SanitizedFrom(items[k], s.items[k])
    case JFloat(f) => if f.Finite? then s == j else s == JNull
    case _ => s == j
  }

  lemma {:induction false} SanitizeShape(j: Json)
    ensures SanitizedFrom(j, Sanitize(j))
  {
    match j
    case JDict(entries) =>
      forall k | 0 <= k < |entries|
        ensures SanitizedFrom(entries[k].1, Sanitize(j).entries[k].1)
      {
        SanitizeShape(entries[k].1);
      }
    case JList(items) =>
      forall k | 0 <= k < |items|
        ensures SanitizedFrom(items[k], Sanitize(j).items[k])
      {
        SanitizeShape(items[k]);
      }
    case _ =>
  }

  lemma {:induction false} SanitizeCleans(j: Json)
    ensures Clean(Sanitize(j))
  {
    match j
    case JDict(entries) =>
      forall k | 0 <= k < |entries|
        ensures Clean(Sanitize(j).entries[k].1)
      {
        SanitizeCleans(entries[k].1);
      }
    case JList(items) =>
      forall k | 0 <= k < |items|
        ensures Clean(Sanitize(j).items[k])
      {
        SanitizeCleans(items[k]);
      }
    case _ =>
  }

  /** A value that is already clean comes back unchanged. */
  lemma {:induction false} SanitizeKeepsClean(j: Json)
    requires Clean(j)
    ensures Sanitize(j) == j
  {
    match j
    case JDict(entries) =>
      forall k | 0 <= k < |entries|
        ensures Sanitize(entries[k].1) == entries[k].1
      {
        SanitizeKeepsClean(entries[k].1);
      }
      assert Sanitize(j).entries == entries;
    case JList(items) =>
      forall k | 0 <= k < |items|
        ensures Sanitize(items[k]) == items[k]
      {
        SanitizeKeepsClean(items[k]);
      }
      assert Sanitize(j).items == items;
    case _ =>
  }

  /** Sanitising twice is sanitising once. */
  lemma SanitizeIdempotent(j: Json)
    ensures Sanitize(Sanitize(j)) == Sanitize(j)
  {
    SanitizeCleans(j);
    SanitizeKeepsClean(Sanitize(j));
  }
}
