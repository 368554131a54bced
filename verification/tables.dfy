/**
 The small part of a pandas DataFrame the pipeline relies on: labelled
 columns, rows of cells, column lookup by label, `rename(columns=...)`,
 `replace({...: None})` and `pd.to_numeric(..., errors='coerce')`.
 */
module Tables {
  import opened Basics
  import opened Numbers

  /** A cell: missing (None/NaN/NULL), text, or a number. */
  datatype Value = Null | Str(text: string) | Num(number: real)

  type Row = seq<Value>

  datatype Frame = Frame(columns: seq<string>, rows: seq<Row>) {
    /** Every row has one cell per column, as in any DataFrame. */
    predicate Valid() {
      forall k :: 0 <= k < |rows| ==> |rows[k]| == |columns|
    }
  }

  /** How many columns carry the label `name`. */
  function Occurrences(columns: seq<string>, name: string): nat
    decreases |columns|
  {
    if |columns| == 0 then 0
    else (if columns[0] == name then 1 else 0) + Occurrences(columns[1..], name)
  }

  /**
   The position of the column labelled `name`. A lookup `df[name]`
   yields a single column only when the label occurs exactly once: with
   no such column pandas raises KeyError, and with a repeated label it
   returns a frame that the later numeric and insert steps reject.
   */
  function ColumnIndex(columns: seq<string>, name: string): (r: Option<nat>)
    ensures r.Some? <==> Occurrences(columns, name) == 1
    ensures r.Some? ==> r.value < |columns| && columns[r.value] == name
    ensures r.Some? ==> forall i :: 0 <= i < |columns| && columns[i] == name ==> i == r.value
    decreases |columns|
  {
    if |columns| == 0 then None
    else if columns[0] == name then
      if Occurrences(columns[1..], name) == 0 then
        NoOccurrence(columns[1..], name);
        Some(0)
      else None
    else
      match ColumnIndex(columns[1..], name)
      case None => None
      case Some(i) => Some(i + 1)
  }

  /** A label that is counted zero times appears nowhere. */
  lemma {:induction false} NoOccurrence(columns: seq<string>, name: string)
    requires Occurrences(columns, name) == 0
    ensures forall i :: 0 <= i < |columns| ==> columns[i] != name
    decreases |columns|
  {
    if |columns| > 0 {
      NoOccurrence(columns[1..], name);
      assert forall i :: 1 <= i < |columns| ==> columns[i] == columns[1..][i - 1];
    }
  }

  /** `df.rename(columns=renaming)`: listed labels change, the rest stay. */
  function Rename(f: Frame, renaming: map<string, string>): (g: Frame)
    ensures |g.columns| == |f.columns| && g.rows == f.rows
    ensures forall i :: 0 <= i < |f.columns| ==>
      g.columns[i] == (if f.columns[i] in renaming then renaming[f.columns[i]] else f.columns[i])
  {
    Frame(seq(|f.columns|, i requires 0 <= i < |f.columns| =>
      if f.columns[i] in renaming then renaming[f.columns[i]] else f.columns[i]), f.rows)
  }

  /** A cell after `replace({t: None for t in targets})`. */
  function ClearCell(v: Value, targets: set<string>): Value {
    if v.Str? && v.text in targets then Null else v
  }

  function ClearRow(row: Row, targets: set<string>): (r: Row)
    ensures |r| == |row|
    ensures forall j :: 0 <= j < |row| ==> r[j] == ClearCell(row[j], targets)
  {
    seq(|row|, j requires 0 <= j < |row| => ClearCell(row[j], targets))
  }

  /** `df.replace({t: None for t in targets})` over every cell of every column. */
  function ClearValues(f: Frame, targets: set<string>): (g: Frame)
    ensures g.columns == f.columns && |g.rows| == |f.rows|
    ensures forall k :: 0 <= k < |f.rows| ==> g.rows[k] == ClearRow(f.rows[k], targets)
  {
    Frame(f.columns, seq(|f.rows|, k requires 0 <= k < |f.rows| => ClearRow(f.rows[k], targets)))
  }

  /**
   One cell through `pd.to_numeric(errors='coerce')` and the later
   NaN-to-None replacement: numbers stay, numeric text becomes its value,
   anything else becomes Null.
   */
  function ToNumeric(v: Value): (r: Value)
    ensures r.Null? || r.Num?
    ensures v.Num? ==> r == v
    ensures v.Str? ==> (r.Num? <==> IsNumberText(v.text))
    ensures v.Null? ==> r.Null?
  {
    match v
    case Null => Null
    case Num(x) => Num(x)
    case Str(t) =>
      match ParseNumber(t)
      case Some(x) => Num(x)
      case None => Null
  }

  /**
   Coerces the column labelled `name` to numbers; None when the lookup
   `df[name]` fails.
   */
  function CoerceColumn(f: Frame, name: string): (r: Option<Frame>)
    requires f.Valid()
    ensures r.Some? <==> Occurrences(f.columns, name) == 1
    ensures r.Some? ==> r.value.Valid() && r.value.columns == f.columns && |r.value.rows| == |f.rows|
    ensures r.Some? ==> forall k, j :: 0 <= k < |f.rows| && 0 <= j < |f.columns| ==>
      r.value.rows[k][j] == (if f.columns[j] == name then ToNumeric(f.rows[k][j]) else f.rows[k][j])
  {
    var j :- ColumnIndex(f.columns, name);
    Some(Frame(f.columns, seq(|f.rows|, k requires 0 <= k < |f.rows| => f.rows[k][j := ToNumeric(f.rows[k][j])])))
  }

  /** In a list of distinct labels each label occurs exactly once. */
  lemma {:induction false} DistinctOccurrences(columns: seq<string>, i: nat)
    requires i < |columns|
    requires forall a, b :: 0 <= a < b < |columns| ==> columns[a] != columns[b]
    ensures Occurrences(columns, columns[i]) == 1
    decreases |columns|
  {
    if i == 0 {
      AbsentOccurrences(columns[1..], columns[0]);
    } else {
      DistinctOccurrences(columns[1..], i - 1);
    }
  }

  /** A label that appears nowhere is counted zero times. */
  lemma {:induction false} AbsentOccurrences(columns: seq<string>, name: string)
    requires forall i :: 0 <= i < |columns| ==> columns[i] != name
    ensures Occurrences(columns, name) == 0
    decreases |columns|
  {
    if |columns| > 0 {
      AbsentOccurrences(columns[1..], name);
    }
  }
}
