/**
 * The data processor: missing-value filling, removal of constant features,
 * the feature-name list, the split into training and analysis windows and
 * the extraction of the numeric feature matrix.
 */
module DataProcessing {
  import opened Wrappers
  import opened Seqs
  import opened Frames

  type Cells = seq<Option<real>>

  // ---------------------------------------------------------------------
  // Missing values: forward fill, then backward fill
  // ---------------------------------------------------------------------

  /** `fillna(method='ffill')`: a missing cell takes the value of the cell above it once that is filled. */
  function ForwardFill(col: Cells): (r: Cells)
    ensures |r| == |col|
  {
    if |col| == 0 then []
    else
      var prev := ForwardFill(col[..|col| - 1]);
      var last := col[|col| - 1];
      prev + [if last.None? && |prev| > 0 then prev[|prev| - 1] else last]
  }

  /** `fillna(method='bfill')`: a missing cell takes the value of the cell below it once that is filled. */
  function BackwardFill(col: Cells): (r: Cells)
    ensures |r| == |col|
  {
    if |col| == 0 then []
    else
      var rest := BackwardFill(col[1..]);
      [if col[0].None? && |rest| > 0 then rest[0] else col[0]] + rest
  }

  /** The fill applied to a numeric column that has a missing cell. */
  function FillMissing(col: Cells): (r: Cells)
    ensures |r| == |col|
  {
    BackwardFill(ForwardFill(col))
  }

  predicate KeepsPresent(col: Cells, r: Cells)
    requires |r| == |col|
  {
    forall i :: 0 <= i < |col| && col[i].Some? ==> r[i] == col[i]
  }

  /** The row of the nearest present cell at or above row i (row 0 when there is none). */
  function AboveIndex(col: Cells, i: nat): (j: nat)
    requires i < |col|
    ensures j <= i
    decreases i
  {
    if col[i].Some? || i == 0 then i else AboveIndex(col, i - 1)
  }

  /** The row of the nearest present cell at or below row i (the last row when there is none). */
  function BelowIndex(col: Cells, i: nat): (j: nat)
    requires i < |col|
    ensures i <= j < |col|
    decreases |col| - i
  {
    if col[i].Some? || i == |col| - 1 then i else BelowIndex(col, i + 1)
  }

  /** No present cell lies strictly between row i and the cell `AboveIndex` picks. */
  lemma {:induction false} AboveIndexNearest(col: Cells, i: nat, k: nat)
    requires i < |col| && AboveIndex(col, i) < k <= i
    ensures col[k].None?
    decreases i
  {
    if k < i {
      AboveIndexNearest(col, i - 1, k);
    }
  }

  /** A present cell at or above row i makes the picked cell present. */
  lemma {:induction false} AboveIndexPresent(col: Cells, i: nat, j: nat)
    requires j <= i < |col| && col[j].Some?
    ensures col[AboveIndex(col, i)].Some?
    decreases i
  {
    if col[i].None? && i > 0 {
      AboveIndexPresent(col, i - 1, j);
    }
  }

  /** A present cell at or below row i makes the picked cell present. */
  lemma {:induction false} BelowIndexPresent(col: Cells, i: nat, j: nat)
    requires i <= j < |col| && col[j].Some?
    ensures col[BelowIndex(col, i)].Some?
    decreases |col| - i
  {
    if col[i].None? && i < |col| - 1 {
      BelowIndexPresent(col, i + 1, j);
    }
  }

  lemma {:induction false} AboveIndexPrefix(col: Cells, n: nat, i: nat)
    requires i < n <= |col|
    ensures AboveIndex(col[..n], i) == AboveIndex(col, i)
    decreases i
  {
    if !(col[i].Some? || i == 0) {
      AboveIndexPrefix(col, n, i - 1);
    }
  }

  lemma {:induction false} BelowIndexShift(col: Cells, i: nat)
    requires 1 <= i < |col|
    ensures BelowIndex(col[1..], i - 1) + 1 == BelowIndex(col, i)
    decreases |col| - i
  {
    if !(col[i].Some? || i == |col| - 1) {
      BelowIndexShift(col, i + 1);
    }
  }

  /** Forward fill copies, into each row, the nearest present cell at or above it. */
  lemma {:induction false} ForwardFillAt(col: Cells, i: nat)
    requires i < |col|
    ensures ForwardFill(col)[i] == col[AboveIndex(col, i)]
  {
    var n := |col| - 1;
    var init := col[..n];
    if i < n {
      ForwardFillAt(init, i);
      AboveIndexPrefix(col, n, i);
      assert ForwardFill(col)[i] == ForwardFill(init)[i];
    } else if col[n].None? && n > 0 {
      ForwardFillAt(init, n - 1);
      AboveIndexPrefix(col, n, n - 1);
    }
  }

  /** Backward fill copies, into each row, the nearest present cell at or below it. */
  lemma {:induction false} BackwardFillAt(col: Cells, i: nat)
    requires i < |col|
    ensures BackwardFill(col)[i] == col[BelowIndex(col, i)]
  {
    var tail := col[1..];
    if i > 0 {
      BackwardFillAt(tail, i - 1);
      BelowIndexShift(col, i);
      assert BackwardFill(col)[i] == BackwardFill(tail)[i - 1];
    } else if col[0].None? && |col| > 1 {
      BackwardFillAt(tail, 0);
      BelowIndexShift(col, 1);
    }
  }

  /** Forward then backward fill: present cells stay, every other cell comes from the column. */
  lemma FillMissingKeeps(col: Cells)
    ensures KeepsPresent(col, FillMissing(col))
    ensures forall i :: 0 <= i < |col| ==> FillMissing(col)[i] in col
  {
    var f := ForwardFill(col);
    forall i | 0 <= i < |col|
      ensures FillMissing(col)[i] in col
      ensures col[i].Some? ==> FillMissing(col)[i] == col[i]
    {
      var j := BelowIndex(f, i);
      BackwardFillAt(f, i);
      ForwardFillAt(col, j);
      ForwardFillAt(col, i);
    }
  }

  /** A column with at least one value has no missing cell after the fill. */
  lemma FillMissingComplete(col: Cells, j: nat)
    requires j < |col| && col[j].Some?
    ensures None !in FillMissing(col)
  {
    var f := ForwardFill(col);
    forall i | 0 <= i < |col|
      ensures FillMissing(col)[i].Some?
    {
      var k := if i <= j then j else i;
      ForwardFillAt(col, k);
      AboveIndexPresent(col, k, j);
      BelowIndexPresent(f, i, k);
      BackwardFillAt(f, i);
    }
  }

  /** A column without any value is left as it is. */
  lemma FillMissingEmpty(col: Cells)
    requires forall i :: 0 <= i < |col| ==> col[i].None?
    ensures FillMissing(col) == col
  {
    var f := ForwardFill(col);
    forall i | 0 <= i < |col|
      ensures f[i] == col[i]
    {
      ForwardFillAt(col, i);
    }
    assert f == col;
    forall i | 0 <= i < |col|
      ensures BackwardFill(col)[i] == col[i]
    {
      BackwardFillAt(col, i);
    }
  }

  // ---------------------------------------------------------------------
  // Constant features: sample standard deviation zero
  // ---------------------------------------------------------------------

  /** The present values of a column, in row order (pandas skips missing cells). */
  function Present(col: Cells): seq<real> {
    if |col| == 0 then []
    else Present(col[..|col| - 1]) + (if col[|col| - 1].Some? then [col[|col| - 1].value] else [])
  }

  predicate AllEqual(xs: seq<real>, m: real) {
    forall i :: 0 <= i < |xs| ==> xs[i] == m
  }

  /**
   * `col.std() == 0` with pandas' sample standard deviation (one degree of
   * freedom): undefined, so never equal to zero, below two present values;
   * otherwise zero exactly when no present value deviates from their mean.
   */
  predicate StdIsZero(col: Cells) {
    var xs := Present(col);
    |xs| >= 2 && AllEqual(xs, Mean(xs))
  }

  /** The standard deviation is zero exactly when there are two or more values and all are equal. */
  lemma StdIsZeroIff(col: Cells)
    ensures StdIsZero(col) <==> |Present(col)| >= 2 && AllEqual(Present(col), Present(col)[0])
  {
    var xs := Present(col);
    if |xs| >= 2 && AllEqual(xs, xs[0]) {
      MeanOfConstant(xs, xs[0]);
    }
  }

  // ---------------------------------------------------------------------
  // Cleaning a freshly loaded table
  // ---------------------------------------------------------------------

  /** A numeric column with a missing cell is filled; every other column is kept as it is. */
  function FillColumn(c: Named): Named {
    if c.column.Values? && None in c.column.values then Named(c.name, Values(FillMissing(c.column.values)))
    else c
  }

  lemma FillColumnFacts(c: Named)
    ensures FillColumn(c).name == c.name
    ensures FillColumn(c).column.Values? == c.column.Values?
    ensures Length(FillColumn(c).column) == Length(c.column)
    ensures !c.column.Values? ==> FillColumn(c) == c
    ensures c.column.Values? ==> KeepsPresent(c.column.values, FillColumn(c).column.values)
    ensures c.column.Values? && (exists j :: 0 <= j < |c.column.values| && c.column.values[j].Some?)
      ==> None !in FillColumn(c).column.values
  {
    if c.column.Values? {
      var v := c.column.values;
      FillMissingKeeps(v);
      if exists j :: 0 <= j < |v| && v[j].Some? {
        var j :| 0 <= j < |v| && v[j].Some?;
        FillMissingComplete(v, j);
      }
    }
  }

  function FillAll(cols: seq<Named>): (r: seq<Named>)
    ensures |r| == |cols| && Names(r) == Names(cols)
  {
    var r := seq(|cols|, i requires 0 <= i < |cols| => FillColumn(cols[i]));
    assert Names(r) == Names(cols);
    r
  }

  /** A numeric column whose standard deviation is zero. */
  predicate IsConstant(c: Named) {
    c.column.Values? && StdIsZero(c.column.values)
  }

  /** The names of the constant columns, in column order. */
  function ConstantNames(cols: seq<Named>): seq<string> {
    if |cols| == 0 then []
    else
      var last := cols[|cols| - 1];
      ConstantNames(cols[..|cols| - 1]) + (if IsConstant(last) then [last.name] else [])
  }

  lemma {:induction false} ConstantNamesMembers(cols: seq<Named>, x: string)
    ensures x in ConstantNames(cols) <==> exists i :: 0 <= i < |cols| && cols[i].name == x && IsConstant(cols[i])
  {
    if |cols| > 0 {
      var init := cols[..|cols| - 1];
      ConstantNamesMembers(init, x);
      if exists i :: 0 <= i < |init| && init[i].name == x && IsConstant(init[i]) {
        var i :| 0 <= i < |init| && init[i].name == x && IsConstant(init[i]);
        assert cols[i] == init[i];
      }
      if exists i :: 0 <= i < |cols| && cols[i].name == x && IsConstant(cols[i]) {
        var i :| 0 <= i < |cols| && cols[i].name == x && IsConstant(cols[i]);
        if i < |init| {
          assert init[i] == cols[i];
        }
      }
    }
  }

  /** `df.drop(columns=drop)`: the columns whose names are not listed, in their order. */
  function DropColumns(cols: seq<Named>, drop: seq<string>): seq<Named> {
    if |cols| == 0 then []
    else
      var last := cols[|cols| - 1];
      DropColumns(cols[..|cols| - 1], drop) + (if last.name in drop then [] else [last])
  }

  /** A column survives the drop exactly when it is not listed. */
  lemma {:induction false} DropColumnsMembers(cols: seq<Named>, drop: seq<string>)
    ensures forall c :: c in DropColumns(cols, drop) <==> c in cols && c.name !in drop
  {
    if |cols| > 0 {
      var init := cols[..|cols| - 1];
      DropColumnsMembers(init, drop);
      assert cols == init + [cols[|cols| - 1]];
    }
  }

  /** Dropping columns keeps the names unique. */
  lemma {:induction false} DropColumnsDistinct(cols: seq<Named>, drop: seq<string>)
    requires Distinct(Names(cols))
    ensures Distinct(Names(DropColumns(cols, drop)))
  {
    if |cols| > 0 {
      var init := cols[..|cols| - 1];
      var last := cols[|cols| - 1];
      assert Distinct(Names(init)) by {
        forall i, j | 0 <= i < j < |init|
          ensures Names(init)[i] != Names(init)[j]
        {
          assert Names(init)[i] == Names(cols)[i] && Names(init)[j] == Names(cols)[j];
        }
      }
      DropColumnsDistinct(init, drop);
      var kept := DropColumns(init, drop);
      if last.name !in drop {
        DropColumnsMembers(init, drop);
        forall k | 0 <= k < |kept|
          ensures Names(kept)[k] != last.name
        {
          assert kept[k] in init;
          var j :| 0 <= j < |init| && init[j] == kept[k];
          assert Names(cols)[j] == kept[k].name && Names(cols)[|cols| - 1] == last.name;
        }
        assert Names(DropColumns(cols, drop)) == Names(kept) + [last.name];
        DistinctAppend(Names(kept), last.name);
      }
    }
  }

  lemma {:induction false} DropNothing(cols: seq<Named>)
    ensures DropColumns(cols, []) == cols
  {
    if |cols| > 0 {
      DropNothing(cols[..|cols| - 1]);
      assert cols == cols[..|cols| - 1] + [cols[|cols| - 1]];
    }
  }

  /** `[col for col in df.columns if col != 'Time']`. */
  function FeatureNames(cols: seq<Named>): seq<string> {
    if |cols| == 0 then []
    else
      var last := cols[|cols| - 1];
      FeatureNames(cols[..|cols| - 1]) + (if last.name == TimeColumn then [] else [last.name])
  }

  lemma {:induction false} FeatureNamesMembers(cols: seq<Named>, x: string)
    ensures x in FeatureNames(cols) <==> x in Names(cols) && x != TimeColumn
  {
    if |cols| > 0 {
      var init := cols[..|cols| - 1];
      FeatureNamesMembers(init, x);
      assert Names(cols) == Names(init) + [cols[|cols| - 1].name];
    }
  }

  /** Distinct column names give distinct feature names. */
  lemma {:induction false} FeatureNamesDistinct(cols: seq<Named>)
    requires Distinct(Names(cols))
    ensures Distinct(FeatureNames(cols))
  {
    if |cols| > 0 {
      var init := cols[..|cols| - 1];
      var last := cols[|cols| - 1];
      assert Names(cols) == Names(init) + [last.name];
      assert Distinct(Names(init)) by {
        forall i, j | 0 <= i < j < |init|
          ensures Names(init)[i] != Names(init)[j]
        {
          assert Names(init)[i] == Names(cols)[i] && Names(init)[j] == Names(cols)[j];
        }
      }
      FeatureNamesDistinct(init);
      if last.name != TimeColumn {
        FeatureNamesMembers(init, last.name);
        DistinctAppend(FeatureNames(init), last.name);
      }
    }
  }

  /** What loading does to a parsed table: the checks, the fill and the drop. */
  function Cleaned(raw: Frame): Result<Frame, Error> {
    match Lookup(raw, TimeColumn)
    case None => Failure(MissingTimeColumn)
    case Some(t) =>
      if !t.Stamps? then Failure(TimeNotParseable)
      else
        var filled := FillAll(raw.columns);
        Success(Frame(DropColumns(filled, ConstantNames(filled)), raw.rows))
  }

  /** Loading fails exactly when the `Time` column is absent or not parsed as times. */
  lemma CleanedFails(raw: Frame)
    ensures Cleaned(raw).Failure? <==> Lookup(raw, TimeColumn).None? || !Lookup(raw, TimeColumn).value.Stamps?
    ensures Cleaned(raw) == Failure(MissingTimeColumn) <==> TimeColumn !in Names(raw.columns)
  {
  }

  /** A successful load is a well-formed table with every row of the input. */
  lemma CleanedShape(raw: Frame)
    requires WellFormed(raw) && Cleaned(raw).Success?
    ensures WellFormed(Cleaned(raw).value) && Cleaned(raw).value.rows == raw.rows
  {
    var filled := FillAll(raw.columns);
    var df := Cleaned(raw).value;
    DropColumnsMembers(filled, ConstantNames(filled));
    DropColumnsDistinct(filled, ConstantNames(filled));
    forall i | 0 <= i < |df.columns|
      ensures Length(df.columns[i].column) == df.rows
    {
      assert df.columns[i] in filled;
      var j :| 0 <= j < |filled| && filled[j] == df.columns[i];
      FillColumnFacts(raw.columns[j]);
    }
  }

  /** A successful load keeps exactly the filled columns that are not constant. */
  lemma CleanedMembers(raw: Frame, c: Named)
    requires WellFormed(raw) && Cleaned(raw).Success?
    ensures c in Cleaned(raw).value.columns <==> c in FillAll(raw.columns) && !IsConstant(c)
  {
    var filled := FillAll(raw.columns);
    var drop := ConstantNames(filled);
    assert Cleaned(raw).value.columns == DropColumns(filled, drop);
    DropColumnsMembers(filled, drop);
    if c in filled {
      ConstantNamesMembers(filled, c.name);
      var j :| 0 <= j < |filled| && filled[j] == c;
      if c.name in drop {
        var i :| 0 <= i < |filled| && filled[i].name == c.name && IsConstant(filled[i]);
        assert Distinct(Names(filled)) && Names(filled)[i] == Names(filled)[j];
        assert i == j;
      }
    }
  }

  /** A successful load leaves the `Time` column as it was. */
  lemma CleanedKeepsTime(raw: Frame)
    requires WellFormed(raw) && Cleaned(raw).Success?
    ensures Lookup(Cleaned(raw).value, TimeColumn) == Lookup(raw, TimeColumn)
  {
    var filled := FillAll(raw.columns);
    var df := Cleaned(raw).value;
    CleanedShape(raw);
    var ti := IndexOf(raw.columns, TimeColumn);
    FillColumnFacts(raw.columns[ti]);
    assert filled[ti] == raw.columns[ti];
    CleanedMembers(raw, filled[ti]);
    var k :| 0 <= k < |df.columns| && df.columns[k] == filled[ti];
    LookupAt(df, k);
    LookupAt(raw, ti);
  }

  /** A kept numeric column with any value has no missing cell, and its present cells are the loaded ones. */
  lemma CleanedColumnsFilled(raw: Frame, c: Named)
    requires WellFormed(raw) && Cleaned(raw).Success? && c in Cleaned(raw).value.columns && c.column.Values?
    requires exists k :: 0 <= k < |c.column.values| && c.column.values[k].Some?
    ensures None !in c.column.values
    ensures exists j :: (0 <= j < |raw.columns| && raw.columns[j].name == c.name &&
      raw.columns[j].column.Values? && |raw.columns[j].column.values| == |c.column.values| &&
      KeepsPresent(raw.columns[j].column.values, c.column.values))
  {
    CleanedMembers(raw, c);
    var j :| 0 <= j < |raw.columns| && FillAll(raw.columns)[j] == c;
    var orig := raw.columns[j];
    FillColumnFacts(orig);
    var k :| 0 <= k < |c.column.values| && c.column.values[k].Some?;
    if orig.column.values[k].None? {
      assert None in orig.column.values;
      FillMissingKeeps(orig.column.values);
      assert c.column.values[k] in orig.column.values;
      var m :| 0 <= m < |orig.column.values| && orig.column.values[m] == c.column.values[k];
    }
  }

  // ---------------------------------------------------------------------
  // Training and analysis windows
  // ---------------------------------------------------------------------

  /** 2004-01-01 00:00:00. */
  const TrainStart: Stamp := 1072915200
  /** 2004-01-05 23:59:59. */
  const TrainEnd: Stamp := 1073347199
  /** 2004-01-01 00:00:00. */
  const AnalysisStart: Stamp := 1072915200
  /** 2004-01-19 07:59:59. */
  const AnalysisEnd: Stamp := 1074499199

  /** `(t >= lo) & (t <= hi)` as a list of the matching row positions. */
  function WindowRows(ts: seq<Stamp>, lo: Stamp, hi: Stamp): seq<nat> {
    if |ts| == 0 then []
    else
      var n := |ts| - 1;
      WindowRows(ts[..n], lo, hi) + (if lo <= ts[n] <= hi then [n] else [])
  }

  /** `rows` are, in increasing order, exactly the positions whose stamp lies in [lo, hi]. */
  predicate SelectsWindow(rows: seq<nat>, ts: seq<Stamp>, lo: Stamp, hi: Stamp) {
    InBounds(rows, |ts|) && Increasing(rows) &&
    (forall k :: 0 <= k < |rows| && rows[k] < |ts| ==> lo <= ts[rows[k]] <= hi) &&
    (forall i: nat :: i < |ts| && lo <= ts[i] <= hi ==> i in rows)
  }

  lemma {:induction false} WindowRowsFacts(ts: seq<Stamp>, lo: Stamp, hi: Stamp)
    ensures SelectsWindow(WindowRows(ts, lo, hi), ts, lo, hi)
  {
    if |ts| > 0 {
      var n := |ts| - 1;
      var init := ts[..n];
      WindowRowsFacts(init, lo, hi);
      var prev := WindowRows(init, lo, hi);
      var r := WindowRows(ts, lo, hi);
      assert r[..|prev|] == prev;
      forall k | 0 <= k < |r|
        ensures r[k] < |ts| && lo <= ts[r[k]] <= hi
      {
        if k < |prev| {
          assert r[k] == prev[k] && ts[prev[k]] == init[prev[k]];
        }
      }
      forall i: nat | i < |ts| && lo <= ts[i] <= hi
        ensures i in r
      {
        if i < n {
          assert init[i] == ts[i];
          assert i in prev;
        }
      }
      forall a, b | 0 <= a < b < |r|
        ensures r[a] < r[b]
      {
        assert r[a] == prev[a];
        if b < |prev| {
          assert r[b] == prev[b];
        }
      }
    }
  }

  lemma WindowLength(f: Frame, name: string)
    requires WellFormed(f) && Lookup(f, name).Some?
    ensures Length(Lookup(f, name).value) == f.rows
  {
  }

  /** One cell of a column, whatever its kind. */
  datatype Cell = StampCell(t: Stamp) | ValueCell(v: Option<real>) | TextCell(s: string)

  function CellAt(c: Column, k: nat): Cell
    requires k < Length(c)
  {
    match c
    case Stamps(s) => StampCell(s[k])
    case Values(v) => ValueCell(v[k])
    case Texts(t) => TextCell(t[k])
  }

  /** Row k of a selection is row idx[k] of the table, in every column. */
  lemma SelectRowsCells(f: Frame, idx: seq<nat>, i: nat, k: nat)
    requires WellFormed(f) && InBounds(idx, f.rows) && i < |f.columns| && k < |idx|
    ensures SelectRows(f, idx).columns[i].name == f.columns[i].name
    ensures CellAt(SelectRows(f, idx).columns[i].column, k) == CellAt(f.columns[i].column, idx[k])
  {
  }

  class DataProcessor {
    var minTrainingHours: nat
    var featureNames: seq<string>
    /** The fitted standard scaler; None until it is fitted, and again after a refused fit. */
    var scaler: Option<FittedScaler>

    constructor(minTrainingHours: nat := 72)
      ensures this.minTrainingHours == minTrainingHours && featureNames == [] && scaler == None
    {
      this.minTrainingHours := minTrainingHours;
      featureNames := [];
      scaler := None;
    }

    /**
     * Validates and cleans a parsed table and records its feature names.
     */
    method LoadAndValidateData(raw: Frame) returns (r: Result<Frame, Error>)
      requires WellFormed(raw)
      modifies this`featureNames
      ensures r == Cleaned(raw)
      ensures r.Success? ==> featureNames == FeatureNames(r.value.columns)
      ensures r.Failure? ==> featureNames == old(featureNames)
    {
      var time := Lookup(raw, TimeColumn);
      if time.None? {
        return Failure(MissingTimeColumn);
      }
      if !time.value.Stamps? {
        return Failure(TimeNotParseable);
      }
      var cols := raw.columns;
      for c := 0 to |cols|
        invariant |cols| == |raw.columns|
        invariant forall k :: 0 <= k < c ==> cols[k] == FillColumn(raw.columns[k])
        invariant forall k :: c <= k < |cols| ==> cols[k] == raw.columns[k]
      {
        var col := cols[c];
        if col.column.Values? && None in col.column.values {
          cols := cols[c := Named(col.name, Values(FillMissing(col.column.values)))];
        }
      }
      assert cols == FillAll(raw.columns);
      var constant: seq<string> := [];
      for c := 0 to |cols|
        invariant constant == ConstantNames(cols[..c])
      {
        assert cols[..c + 1][..c] == cols[..c];
        if IsConstant(cols[c]) {
          constant := constant + [cols[c].name];
        }
      }
      assert cols[..|cols|] == cols;
      var kept := cols;
      if |constant| > 0 {
        kept := DropColumns(cols, constant);
      } else {
        DropNothing(cols);
      }
      featureNames := FeatureNames(kept);
      r := Success(Frame(kept, raw.rows));
    }

    /**
     * The rows of the training and the analysis window. Fails when the
     * training window has fewer rows than `minTrainingHours`.
     */
    function SplitData(df: Frame): (r: Result<(Frame, Frame), Error>)
      reads this`minTrainingHours
      requires WellFormed(df)
      ensures r.Success? ==> Lookup(df, TimeColumn).Some? && Lookup(df, TimeColumn).value.Stamps?
      ensures r.Success? ==> r.value.0.rows >= minTrainingHours
      ensures r.Success? ==> WellFormed(r.value.0) && Names(r.value.0.columns) == Names(df.columns)
      ensures r.Success? ==> WellFormed(r.value.1) && Names(r.value.1.columns) == Names(df.columns)
    {
      match Lookup(df, TimeColumn)
      case None => Failure(MissingTimeColumn)
      case Some(c) =>
        if !c.Stamps? then Failure(TimeNotParseable)
        else
          WindowLength(df, TimeColumn);
          var train := WindowRows(c.stamps, TrainStart, TrainEnd);
          var analysis := WindowRows(c.stamps, AnalysisStart, AnalysisEnd);
          WindowRowsFacts(c.stamps, TrainStart, TrainEnd);
          WindowRowsFacts(c.stamps, AnalysisStart, AnalysisEnd);
          if |train| < minTrainingHours then Failure(InsufficientTrainingData(|train|, minTrainingHours))
          else Success((SelectRows(df, train), SelectRows(df, analysis)))
    }

    /**
     * The feature matrix of `df` over `featureNames`, scaled. An absent
     * feature fails the selection and leaves the scaler as it was. With
     * `fitScaler` the scaler is reset and then fitted, so a refused fit
     * leaves it unfitted; otherwise it must be fitted, and the table must
     * pass the input check and have the fitted number of features.
     */
    method PreprocessFeatures(df: Frame, fitScaler: bool, fit: seq<seq<real>> -> Scaler)
      returns (r: Result<seq<seq<real>>, Error>)
      requires WellFormed(df)
      modifies this`scaler
      ensures !AllPresent(df, featureNames) ==>
        FeatureColumns(df, featureNames).Failure? &&
        r == Failure(FeatureColumns(df, featureNames).error) && scaler == old(scaler)
      ensures AllPresent(df, featureNames) && fitScaler ==>
        var m := FeatureMatrix(df, featureNames);
        (m.Failure? ==> r == Failure(m.error) && scaler == None) &&
        (m.Success? ==> r == Success(Scale(m.value, fit(m.value))) &&
                        scaler == Some(FittedScaler(fit(m.value), |featureNames|)))
      ensures AllPresent(df, featureNames) && !fitScaler ==>
        var m := FeatureMatrix(df, featureNames);
        scaler == old(scaler) &&
        r == (if scaler.None? then Failure(NotFitted)
              else if m.Failure? then Failure(m.error)
              else if |featureNames| != scaler.value.width then Failure(FeatureCountMismatch(|featureNames|, scaler.value.width))
              else Success(Scale(m.value, scaler.value.transform)))
    {
      var cols := FeatureColumns(df, featureNames);
      FeatureColumnsFacts(df, featureNames);
      if cols.Failure? {
        return Failure(cols.error);
      }
      if fitScaler {
        scaler := None;
      } else if scaler.None? {
        return Failure(NotFitted);
      }
      var m := FeatureMatrix(df, featureNames);
      if m.Failure? {
        return Failure(m.error);
      }
      if fitScaler {
        scaler := Some(FittedScaler(fit(m.value), |featureNames|));
      } else if |featureNames| != scaler.value.width {
        return Failure(FeatureCountMismatch(|featureNames|, scaler.value.width));
      }
      r := Success(Scale(m.value, scaler.value.transform));
    }
  }

  /**
   * With a parsed `Time` column, the split selects, in row order, exactly the
   * rows inside each closed window, and fails exactly when the training
   * window holds fewer than `minTrainingHours` rows.
   */
  lemma SplitDataFacts(p: DataProcessor, df: Frame, ts: seq<Stamp>)
    requires WellFormed(df) && Lookup(df, TimeColumn) == Some(Stamps(ts))
    ensures var train := WindowRows(ts, TrainStart, TrainEnd);
      var analysis := WindowRows(ts, AnalysisStart, AnalysisEnd);
      SelectsWindow(train, ts, TrainStart, TrainEnd) &&
      SelectsWindow(analysis, ts, AnalysisStart, AnalysisEnd) &&
      |ts| == df.rows &&
      (p.SplitData(df).Success? <==> |train| >= p.minTrainingHours) &&
      (p.SplitData(df).Failure? ==> p.SplitData(df).error == InsufficientTrainingData(|train|, p.minTrainingHours)) &&
      (p.SplitData(df).Success? ==>
        p.SplitData(df).value == (SelectRows(df, train), SelectRows(df, analysis)))
  {
    WindowLength(df, TimeColumn);
    WindowRowsFacts(ts, TrainStart, TrainEnd);
    WindowRowsFacts(ts, AnalysisStart, AnalysisEnd);
  }

  /** Without a parsed `Time` column the split fails with the matching error. */
  lemma SplitDataWithoutTime(p: DataProcessor, df: Frame)
    requires WellFormed(df) && (Lookup(df, TimeColumn).None? || !Lookup(df, TimeColumn).value.Stamps?)
    ensures p.SplitData(df) == if Lookup(df, TimeColumn).None? then Failure(MissingTimeColumn) else Failure(TimeNotParseable)
  {
  }

  /** Every training row is also an analysis row. */
  lemma TrainingWithinAnalysis(ts: seq<Stamp>)
    ensures forall k :: 0 <= k < |WindowRows(ts, TrainStart, TrainEnd)| ==>
      WindowRows(ts, TrainStart, TrainEnd)[k] in WindowRows(ts, AnalysisStart, AnalysisEnd)
  {
    var train := WindowRows(ts, TrainStart, TrainEnd);
    WindowRowsFacts(ts, TrainStart, TrainEnd);
    WindowRowsFacts(ts, AnalysisStart, AnalysisEnd);
    forall k | 0 <= k < |train|
      ensures train[k] in WindowRows(ts, AnalysisStart, AnalysisEnd)
    {
      assert TrainStart <= ts[train[k]] <= TrainEnd;
    }
  }

  // ---------------------------------------------------------------------
  // Feature matrix
  // ---------------------------------------------------------------------

  /** A fitted per-feature map: feature position and raw value to scaled value. */
  type Scaler = (nat, real) -> real

  /** A fitted standard scaler: its per-feature map and the number of features it was fitted on. */
  datatype FittedScaler = FittedScaler(transform: Scaler, width: nat)

  /** `df[names]`: the named columns in order; the first absent name is the error. */
  function FeatureColumns(df: Frame, names: seq<string>): Result<seq<Column>, Error> {
    if |names| == 0 then Success([])
    else
      var n := names[|names| - 1];
      var prev := FeatureColumns(df, names[..|names| - 1]);
      if prev.Failure? then prev
      else match Lookup(df, n)
        case None => Failure(MissingColumn(n))
        case Some(c) => Success(prev.value + [c])
  }

  predicate AllPresent(df: Frame, names: seq<string>) {
    forall j :: 0 <= j < |names| ==> Lookup(df, names[j]).Some?
  }

  predicate AllNumeric(df: Frame, names: seq<string>) {
    forall j :: 0 <= j < |names| ==> Lookup(df, names[j]).Some? && Lookup(df, names[j]).value.Values?
  }

  /** Row selection keeps which names are numeric columns. */
  lemma SelectRowsNumeric(f: Frame, idx: seq<nat>, names: seq<string>)
    requires WellFormed(f) && InBounds(idx, f.rows)
    ensures AllPresent(SelectRows(f, idx), names) <==> AllPresent(f, names)
    ensures AllNumeric(SelectRows(f, idx), names) <==> AllNumeric(f, names)
  {
    forall j | 0 <= j < |names| && Lookup(f, names[j]).Some?
      ensures Lookup(SelectRows(f, idx), names[j]) == Some(SelectColumn(Lookup(f, names[j]).value, idx))
    {
      SelectRowsLookup(f, idx, names[j]);
    }
  }

  /** Selection succeeds exactly when every name is a column, and then yields those columns in order. */
  lemma {:induction false} FeatureColumnsFacts(df: Frame, names: seq<string>)
    ensures FeatureColumns(df, names).Success? <==> AllPresent(df, names)
    ensures FeatureColumns(df, names).Success? ==>
      |FeatureColumns(df, names).value| == |names| &&
      forall j :: 0 <= j < |names| ==> Lookup(df, names[j]) == Some(FeatureColumns(df, names).value[j])
  {
    if |names| > 0 {
      var init := names[..|names| - 1];
      FeatureColumnsFacts(df, init);
      forall j | 0 <= j < |init|
        ensures init[j] == names[j]
      {
      }
    }
  }

  /** A failed selection names the first requested column that is absent. */
  lemma {:induction false} FeatureColumnsError(df: Frame, names: seq<string>)
    requires FeatureColumns(df, names).Failure?
    ensures exists j :: (0 <= j < |names| && Lookup(df, names[j]).None? && AllPresent(df, names[..j]) &&
      FeatureColumns(df, names).error == MissingColumn(names[j]))
  {
    var init := names[..|names| - 1];
    var r := FeatureColumns(df, names);
    if FeatureColumns(df, init).Failure? {
      FeatureColumnsError(df, init);
      var j :| 0 <= j < |init| && Lookup(df, init[j]).None? && AllPresent(df, init[..j]) &&
        r.error == MissingColumn(init[j]);
      assert init[..j] == names[..j];
      assert init[j] == names[j];
    } else {
      FeatureColumnsFacts(df, init);
      assert names[..|names| - 1] == init;
    }
  }

  /**
   * Position of the first name that is not a numeric column: the float
   * conversion of the object array stops in row 0 at that column.
   */
  function FirstNonNumeric(df: Frame, names: seq<string>): (j: nat)
    requires AllPresent(df, names) && !AllNumeric(df, names)
    ensures j < |names| && !Lookup(df, names[j]).value.Values? && AllNumeric(df, names[..j])
  {
    if !Lookup(df, names[0]).value.Values? then 0
    else
      var rest := names[1..];
      assert forall j :: 0 <= j < |rest| ==> rest[j] == names[j + 1];
      var j := FirstNonNumeric(df, rest);
      assert names[..j + 1] == [names[0]] + rest[..j];
      j + 1
  }

  /** `np.nan_to_num` on a cell: a missing value becomes 0.0. */
  function ZeroIfMissing(c: Option<real>): real {
    if c.Some? then c.value else 0.0
  }

  /** Cell k of the numeric column `name`, missing read as 0.0. */
  function NumericCell(df: Frame, name: string, k: nat): real
    requires WellFormed(df) && Lookup(df, name).Some? && Lookup(df, name).value.Values? && k < df.rows
  {
    WindowLength(df, name);
    ZeroIfMissing(Lookup(df, name).value.values[k])
  }

  /**
   * The standard scaler's input check on `np.nan_to_num(df[names].values)`,
   * all names being columns: a table without rows, then a name that is not a
   * numeric column (the float conversion; a table without rows converts),
   * then a table without features; otherwise the `rows` x |names| matrix.
   */
  function FeatureMatrix(df: Frame, names: seq<string>): (r: Result<seq<seq<real>>, Error>)
    requires WellFormed(df) && AllPresent(df, names)
    ensures r.Success? ==> df.rows > 0 && |names| > 0 && AllNumeric(df, names)
    ensures r.Success? ==> |r.value| == df.rows && forall k :: 0 <= k < |r.value| ==> |r.value[k]| == |names|
  {
    if df.rows == 0 then Failure(NoSamples)
    else if !AllNumeric(df, names) then Failure(NonNumericFeature(names[FirstNonNumeric(df, names)]))
    else if |names| == 0 then Failure(NoFeatures)
    else Success(seq(df.rows, k requires 0 <= k < df.rows =>
      seq(|names|, j requires 0 <= j < |names| => NumericCell(df, names[j], k))))
  }

  /**
   * The check fails exactly on a table without rows, a name that is not a
   * numeric column, or no names, with the error of the first of these; the
   * name reported is the first non-numeric one.
   */
  lemma FeatureMatrixErrors(df: Frame, names: seq<string>)
    requires WellFormed(df) && AllPresent(df, names)
    ensures FeatureMatrix(df, names).Success? <==> df.rows > 0 && AllNumeric(df, names) && |names| > 0
    ensures df.rows == 0 ==> FeatureMatrix(df, names) == Failure(NoSamples)
    ensures df.rows > 0 && !AllNumeric(df, names) ==>
      exists j :: 0 <= j < |names| && !Lookup(df, names[j]).value.Values? && AllNumeric(df, names[..j]) &&
        FeatureMatrix(df, names) == Failure(NonNumericFeature(names[j]))
    ensures df.rows > 0 && |names| == 0 ==> FeatureMatrix(df, names) == Failure(NoFeatures)
  {
  }

  /** Entry (k, j) of the matrix is cell k of column names[j], missing read as 0.0. */
  lemma FeatureMatrixCells(df: Frame, names: seq<string>, k: nat, j: nat)
    requires WellFormed(df) && AllPresent(df, names) && FeatureMatrix(df, names).Success? && k < df.rows && j < |names|
    ensures Lookup(df, names[j]).Some? && Lookup(df, names[j]).value.Values?
    ensures k < |Lookup(df, names[j]).value.values|
    ensures FeatureMatrix(df, names).value[k][j] == ZeroIfMissing(Lookup(df, names[j]).value.values[k])
  {
    WindowLength(df, names[j]);
  }

  /** The scaler applied entry by entry, the shape kept. */
  function Scale(m: seq<seq<real>>, s: Scaler): (r: seq<seq<real>>)
    ensures |r| == |m| && forall k :: 0 <= k < |m| ==> |r[k]| == |m[k]|
  {
    seq(|m|, k requires 0 <= k < |m| => seq(|m[k]|, j requires 0 <= j < |m[k]| => s(j, m[k][j])))
  }
}
