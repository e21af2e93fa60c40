/**
 * An abstract data table standing in for the pandas DataFrame the system
 * works on: named columns of equal length, each holding parsed timestamps,
 * numeric cells that may be missing, or text.
 */
module Frames {
  import opened Wrappers
  import opened Seqs

  /** Timestamps are whole seconds since 1970-01-01 00:00:00 (naive local time). */
  type Stamp = int

  datatype Column =
    | Stamps(stamps: seq<Stamp>)
    | Values(values: seq<Option<real>>)
    | Texts(texts: seq<string>)

  function Length(c: Column): nat {
    match c
    case Stamps(s) => |s|
    case Values(v) => |v|
    case Texts(t) => |t|
  }

  datatype Named = Named(name: string, column: Column)

  datatype Frame = Frame(columns: seq<Named>, rows: nat)

  /** The errors the cleaning and scoring steps raise. */
  datatype Error =
    | MissingTimeColumn
    | TimeNotParseable
    | MissingColumn(column: string)
    | NonNumericFeature(feature: string)
    | InsufficientTrainingData(found: nat, required: nat)
    | NotFitted
    | NoSamples
    | NoFeatures
    | InvalidContamination(contamination: real)
    | InvalidRandomState(seed: int)
    | FeatureCountMismatch(found: nat, expected: nat)
    | MissingColumns(missing: seq<string>)

  const TimeColumn: string := "Time"

  function Names(cols: seq<Named>): (names: seq<string>)
    ensures |names| == |cols|
    ensures forall i :: 0 <= i < |cols| ==> names[i] == cols[i].name
  {
    seq(|cols|, i requires 0 <= i < |cols| => cols[i].name)
  }

  /** Column names are unique and every column has one cell per row. */
  predicate WellFormed(f: Frame) {
    Distinct(Names(f.columns)) &&
    forall i :: 0 <= i < |f.columns| ==> Length(f.columns[i].column) == f.rows
  }

  /** Position of the first column called `name`. */
  function IndexOf(cols: seq<Named>, name: string): (i: nat)
    requires name in Names(cols)
    ensures i < |cols| && cols[i].name == name
    ensures forall k :: 0 <= k < i ==> cols[k].name != name
  {
    if cols[0].name == name then 0 else 1 + IndexOf(cols[1..], name)
  }

  /** `df[name]`: the column called `name`, if there is one. */
  function Lookup(f: Frame, name: string): (r: Option<Column>)
    ensures r.Some? <==> name in Names(f.columns)
  {
    if name in Names(f.columns) then Some(f.columns[IndexOf(f.columns, name)].column) else None
  }

  lemma LookupAt(f: Frame, i: nat)
    requires WellFormed(f) && i < |f.columns|
    ensures Lookup(f, f.columns[i].name) == Some(f.columns[i].column)
  {
    assert Names(f.columns)[i] == f.columns[i].name;
  }

  /** The cells of `c` at row positions `idx`, in that order. */
  function SelectColumn(c: Column, idx: seq<nat>): (r: Column)
    requires InBounds(idx, Length(c))
    ensures Length(r) == |idx|
    ensures r.Stamps? == c.Stamps? && r.Values? == c.Values? && r.Texts? == c.Texts?
  {
    match c
    case Stamps(s) => Stamps(seq(|idx|, k requires 0 <= k < |idx| => s[idx[k]]))
    case Values(v) => Values(seq(|idx|, k requires 0 <= k < |idx| => v[idx[k]]))
    case Texts(t) => Texts(seq(|idx|, k requires 0 <= k < |idx| => t[idx[k]]))
  }

  /** Boolean-mask row selection: the rows at positions `idx`, every column kept. */
  function SelectRows(f: Frame, idx: seq<nat>): (r: Frame)
    requires WellFormed(f) && InBounds(idx, f.rows)
    ensures WellFormed(r) && r.rows == |idx| && Names(r.columns) == Names(f.columns)
  {
    var cols := seq(|f.columns|, i requires 0 <= i < |f.columns| =>
      Named(f.columns[i].name, SelectColumn(f.columns[i].column, idx)));
    assert Names(cols) == Names(f.columns);
    Frame(cols, |idx|)
  }

  /** Row selection keeps every column under its name, of the same kind, at the chosen rows. */
  lemma SelectRowsLookup(f: Frame, idx: seq<nat>, name: string)
    requires WellFormed(f) && InBounds(idx, f.rows) && Lookup(f, name).Some?
    ensures Lookup(SelectRows(f, idx), name) == Some(SelectColumn(Lookup(f, name).value, idx))
  {
    LookupAt(SelectRows(f, idx), IndexOf(f.columns, name));
  }

  /**
   * Column assignment `df[name] = c`: an existing column of that name is
   * replaced where it stands, otherwise the column is appended at the end.
   */
  function SetColumn(f: Frame, name: string, c: Column): (r: Frame)
    requires WellFormed(f) && Length(c) == f.rows
    ensures WellFormed(r) && r.rows == f.rows
    ensures Lookup(r, name) == Some(c)
    ensures name in Names(f.columns) ==> Names(r.columns) == Names(f.columns)
    ensures name !in Names(f.columns) ==> Names(r.columns) == Names(f.columns) + [name]
    ensures forall i :: 0 <= i < |f.columns| && f.columns[i].name != name ==> r.columns[i] == f.columns[i]
  {
    if name in Names(f.columns) then
      var i := IndexOf(f.columns, name);
      var r := Frame(f.columns[i := Named(name, c)], f.rows);
      assert Names(r.columns) == Names(f.columns);
      LookupAt(r, i);
      r
    else
      var r := Frame(f.columns + [Named(name, c)], f.rows);
      assert Names(r.columns) == Names(f.columns) + [name];
      DistinctAppend(Names(f.columns), name);
      LookupAt(r, |f.columns|);
      r
  }

  /** Assigning one column leaves every other name's lookup as it was. */
  lemma SetColumnOthers(f: Frame, name: string, c: Column)
    requires WellFormed(f) && Length(c) == f.rows
    ensures forall n :: n != name ==> Lookup(SetColumn(f, name, c), n) == Lookup(f, n)
  {
    var r := SetColumn(f, name, c);
    forall n | n != name
      ensures Lookup(r, n) == Lookup(f, n)
    {
      if n in Names(f.columns) {
        var i := IndexOf(f.columns, n);
        LookupAt(r, i);
      } else {
        assert n !in Names(r.columns);
      }
    }
  }
}
