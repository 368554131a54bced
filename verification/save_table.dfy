/**
 `save_table_to_db`: the extracted table is renamed to the database's
 column names, its placeholder cells are cleared, its four measurement
 columns are coerced to numbers, and one INSERT per row is issued before
 a single commit. The database is an explicit trace of the inserts made,
 whether the transaction was committed and whether the connection was
 closed; where the driver raises is an explicit input.
 */
module SaveTable {
  import opened Basics
  import opened Numbers
  import opened Tables
  import opened PdfExtractor
  import Config
  import DbConnection

  /** The renaming from extracted labels to database column names. */
  const Renaming: map<string, string> := map[
    "Peak Name" := "InRs_Map_code",
    "NGSP %" := "NGSP",
    "Area %" := "InRs_Result",
    "Retention Time (min)" := "InRs_Ret_Time",
    "Peak Area" := "Peak_Area"]

  /** Cell texts replaced by NULL before the numeric conversion. */
  const NullTexts: set<string> := {Dash, ""}

  /** The columns coerced to numbers, in the order they are coerced. */
  const NumericColumns: seq<string> := ["NGSP", "InRs_Result", "InRs_Ret_Time", "Peak_Area"]

  /** The columns of the INSERT statement, in its value order. */
  const InsertColumns: seq<string> := ["InRs_Map_code", "NGSP", "InRs_Result", "InRs_Ret_Time", "Peak_Area"]

  /**
   How the extracted table is mapped onto a results table: the label
   renaming, the texts cleared to NULL, the columns coerced to numbers and
   the columns of the INSERT, in value order.
   */
  datatype Schema = Schema(
    renaming: map<string, string>,
    nullTexts: set<string>,
    numeric: seq<string>,
    insert: seq<string>)

  /** The schema `save_table_to_db` writes under. */
  const Results: Schema := Schema(Renaming, NullTexts, NumericColumns, InsertColumns)

  /** Where the database driver raises, if anywhere. */
  datatype Fault =
    | NoFault
    | CursorFault              // `conn.cursor()` raises
    | ExecuteFault(row: nat)   // the INSERT for this row raises
    | CommitFault              // `conn.commit()` raises

  datatype Insert = Insert(table: string, values: seq<Value>)

  /** What the database saw: the inserts executed, the commit, the close. */
  datatype Trace = Trace(inserts: seq<Insert>, committed: bool, closed: bool)

  datatype Outcome = Outcome(saved: bool, trace: Trace)

  /** Coerces each listed column in turn; None when a lookup `df[name]` fails. */
  function CoerceAll(f: Frame, names: seq<string>): (r: Option<Frame>)
    requires f.Valid()
    ensures r.Some? <==> forall i :: 0 <= i < |names| ==> Occurrences(f.columns, names[i]) == 1
    ensures r.Some? ==> r.value.Valid() && r.value.columns == f.columns && |r.value.rows| == |f.rows|
    ensures r.Some? ==> forall k, j :: 0 <= k < |f.rows| && 0 <= j < |f.columns| ==>
      r.value.rows[k][j] == (if f.columns[j] in names then ToNumeric(f.rows[k][j]) else f.rows[k][j])
    decreases |names|
  {
    if |names| == 0 then Some(f)
    else
      var g :- CoerceColumn(f, names[0]);
      var h := CoerceAll(g, names[1..]);
      assert forall i :: 1 <= i < |names| ==> names[i] == names[1..][i - 1];
      h
  }

  /** The frame after renaming, clearing and coercion; None when a column lookup fails. */
  function Normalise(sc: Schema, f: Frame): (r: Option<Frame>)
    requires f.Valid()
    ensures r.Some? <==> forall i :: 0 <= i < |sc.numeric| ==> Occurrences(Rename(f, sc.renaming).columns, sc.numeric[i]) == 1
    ensures r.Some? ==> r.value.Valid() && |r.value.rows| == |f.rows|
    ensures r.Some? ==> r.value.columns == Rename(f, sc.renaming).columns
  {
    CoerceAll(ClearValues(Rename(f, sc.renaming), sc.nullTexts), sc.numeric)
  }

  /**
   The positions of the labels `names` in `columns`; None when one of them
   does not occur exactly once, where the row lookup `row[name]` fails.
   */
  function Indices(columns: seq<string>, names: seq<string>): (r: Option<seq<nat>>)
    ensures r.Some? <==> forall i :: 0 <= i < |names| ==> Occurrences(columns, names[i]) == 1
    ensures r.Some? ==> |r.value| == |names|
    ensures r.Some? ==> forall i :: 0 <= i < |names| ==> r.value[i] < |columns| && columns[r.value[i]] == names[i]
    decreases |names|
  {
    if |names| == 0 then Some([])
    else
      var j :- ColumnIndex(columns, names[0]);
      var rest :- Indices(columns, names[1..]);
      assert forall i :: 1 <= i < |names| ==> names[i] == names[1..][i - 1];
      Some([j] + rest)
  }

  /** The values a row passes to the INSERT, in the statement's column order. */
  function Record(row: Row, idx: seq<nat>): (vs: seq<Value>)
    requires forall i :: 0 <= i < |idx| ==> idx[i] < |row|
    ensures |vs| == |idx| && forall i :: 0 <= i < |idx| ==> vs[i] == row[idx[i]]
  {
    seq(|idx|, i requires 0 <= i < |idx| => row[idx[i]])
  }

  /**
   How many rows are inserted before the loop stops: all of them, or as
   many as precede the row whose INSERT raises. A failing label lookup
   raises at the first row.
   */
  function Executed(sc: Schema, g: Frame, fault: Fault): (n: nat)
    ensures n <= |g.rows|
    ensures n < |g.rows| <==>
      |g.rows| > 0 && (Indices(g.columns, sc.insert).None? || (fault.ExecuteFault? && fault.row < |g.rows|))
    // a failed label lookup raises at the first row, before any INSERT
    ensures Indices(g.columns, sc.insert).None? ==> n == 0
    // an INSERT raising at row k leaves exactly the k rows before it
    ensures Indices(g.columns, sc.insert).Some? && fault.ExecuteFault? && fault.row < |g.rows| ==> n == fault.row
  {
    if |g.rows| == 0 then 0
    else if Indices(g.columns, sc.insert).None? then 0
    else if fault.ExecuteFault? && fault.row < |g.rows| then fault.row
    else |g.rows|
  }

  /** The first `n` inserts of the normalised frame. */
  function Inserts(sc: Schema, g: Frame, table: string, n: nat): (ins: seq<Insert>)
    requires g.Valid() && n <= |g.rows|
    requires n > 0 ==> Indices(g.columns, sc.insert).Some?
    ensures |ins| == n
    ensures forall k :: 0 <= k < n ==>
      ins[k] == Insert(table, Record(g.rows[k], Indices(g.columns, sc.insert).value))
  {
    if n == 0 then []
    else
      var idx := Indices(g.columns, sc.insert).value;
      seq(n, k requires 0 <= k < n => Insert(table, Record(g.rows[k], idx)))
  }

  /** The connection is closed by the `finally` clause, whatever was done. */
  function Closed(saved: bool, ins: seq<Insert>, committed: bool): Outcome {
    Outcome(saved, Trace(ins, committed, true))
  }

  /**
   `save_table_to_db(df, table_name)` under schema `sc`, on a connection
   that exists or not, with the driver raising where `fault` says.
   */
  function SaveAs(sc: Schema, connected: bool, f: Frame, table: string, fault: Fault): (r: Outcome)
    requires f.Valid()
    ensures !connected ==> !r.saved && r.trace == Trace([], false, false)
    ensures connected ==> r.trace.closed
    ensures r.saved <==> r.trace.committed
    ensures r.saved <==> (connected && fault != CursorFault && fault != CommitFault
      && Normalise(sc, f).Some? && Executed(sc, Normalise(sc, f).value, fault) == |f.rows|)
    ensures r.saved ==> |r.trace.inserts| == |f.rows|
    ensures r.saved ==> forall i :: 0 <= i < |sc.numeric| ==>
      Occurrences(Rename(f, sc.renaming).columns, sc.numeric[i]) == 1
    ensures fault.ExecuteFault? && fault.row < |f.rows| ==> !r.saved && |r.trace.inserts| <= fault.row
    ensures connected && Normalise(sc, f).Some? && Indices(Normalise(sc, f).value.columns, sc.insert).None? ==>
      r.trace.inserts == []
    ensures connected && fault.ExecuteFault? && fault.row < |f.rows|
            && Normalise(sc, f).Some? && Indices(Normalise(sc, f).value.columns, sc.insert).Some? ==>
      |r.trace.inserts| == fault.row
    // a cursor fault or a failed normalisation raises before the insert loop
    ensures fault == CursorFault || Normalise(sc, f).None? ==> r.trace.inserts == []
    // the commit comes after every row was inserted
    ensures connected && fault == CommitFault && Normalise(sc, f).Some?
            && Indices(Normalise(sc, f).value.columns, sc.insert).Some? ==>
      !r.saved && |r.trace.inserts| == |f.rows|
    ensures |r.trace.inserts| <= |f.rows|
    ensures forall k :: 0 <= k < |r.trace.inserts| ==> r.trace.inserts[k].table == table
  {
    if !connected then Outcome(false, Trace([], false, false))
    else if fault == CursorFault then Closed(false, [], false)
    else
      match Normalise(sc, f)
      case None => Closed(false, [], false)
      case Some(g) =>
        var n := Executed(sc, g, fault);
        var ins := Inserts(sc, g, table, n);
        if n < |g.rows| || fault == CommitFault then Closed(false, ins, false)
        else Closed(true, ins, true)
  }

  /** `save_table_to_db(df, table_name)` as written: under the results schema. */
  function Save(connected: bool, f: Frame, table: string, fault: Fault): Outcome
    requires f.Valid()
  {
    SaveAs(Results, connected, f, table, fault)
  }

  /**
   `save_table_to_db(df, table_name)` from its first line: the call to
   `connect_to_database()` comes before the `try`, so an error reading
   the configuration escapes; otherwise a connection is made only when
   the driver `accepts` the built string, and the save runs on it.
   */
  function SaveTableToDb(config: Result<Config.Settings, Config.ConfigError>, accepts: string -> bool,
                         f: Frame, table: string, fault: Fault): (r: Result<Outcome, Config.ConfigError>)
    requires f.Valid()
    ensures r.Failure? <==> config.Failure?
    ensures r.Failure? ==> r.error == config.error
    ensures r.Success? ==>
      var cs := DbConnection.ConnectionString(config.value.database);
      var connected := cs.Some? && accepts(cs.value);
      && (!connected ==> !r.value.saved && r.value.trace == Trace([], false, false))
      && (connected ==> r.value.trace.closed)
      && (r.value.saved ==> connected && r.value.trace.committed && |r.value.trace.inserts| == |f.rows|)
      // on the connection made, the outcome is the save's: True exactly when every row is inserted and committed
      && r.value == Save(connected, f, table, fault)
      && (r.value.saved <==>
            (connected && fault != CursorFault && fault != CommitFault
             && Normalise(Results, f).Some? && Executed(Results, Normalise(Results, f).value, fault) == |f.rows|))
  {
    var conn :- DbConnection.Connect(config, accepts);
    Success(Save(conn.Some?, f, table, fault))
  }

  // ---------------------------------------------------------------------
  // Properties

  /** The extracted labels become the INSERT columns, position for position. */
  lemma RenameTableColumns(rows: seq<Row>)
    ensures Rename(Frame(TableColumns, rows), Renaming).columns == InsertColumns
  {
    var g := Rename(Frame(TableColumns, rows), Renaming);
    assert g.columns[0] == "InRs_Map_code";
    assert g.columns[1] == "NGSP";
    assert g.columns[2] == "InRs_Result";
    assert g.columns[3] == "InRs_Ret_Time";
    assert g.columns[4] == "Peak_Area";
  }

  /** The INSERT columns are distinct labels. */
  lemma InsertColumnsDistinct()
    ensures forall a, b :: 0 <= a < b < |InsertColumns| ==> InsertColumns[a] != InsertColumns[b]
  {
    forall a, b | 0 <= a < b < |InsertColumns|
      ensures InsertColumns[a] != InsertColumns[b]
    {
      if a == 0 && b == 3 {
        assert InsertColumns[a][5] != InsertColumns[b][5];
      } else {
        assert |InsertColumns[a]| != |InsertColumns[b]|;
      }
    }
  }

  lemma InsertColumnsSelfIndexed()
    ensures Indices(InsertColumns, InsertColumns) == Some([0, 1, 2, 3, 4])
  {
    InsertColumnsDistinct();
    SelfIndexed(InsertColumns);
    assert |InsertColumns| == 5;
    FivePositions();
  }

  /** The positions `0, 1, ..., n - 1`. */
  function Positions(n: nat): (ps: seq<nat>)
    ensures |ps| == n && forall i :: 0 <= i < n ==> ps[i] == i
  {
    seq(n, i requires 0 <= i < n => i)
  }

  lemma FivePositions()
    ensures Positions(5) == [0, 1, 2, 3, 4]
  {
    var ps := Positions(5);
    assert ps[0] == 0 && ps[1] == 1 && ps[2] == 2 && ps[3] == 3 && ps[4] == 4;
  }

  /** Distinct labels looked up by themselves are found at their own positions. */
  lemma SelfIndexed(columns: seq<string>)
    requires forall a, b :: 0 <= a < b < |columns| ==> columns[a] != columns[b]
    ensures Indices(columns, columns) == Some(Positions(|columns|))
  {
    forall i | 0 <= i < |columns|
      ensures Occurrences(columns, columns[i]) == 1
    {
      DistinctOccurrences(columns, i);
    }
    var idx := Indices(columns, columns).value;
    // a different position would hold a different label
    assert forall i :: 0 <= i < |columns| ==> idx[i] == i;
    assert idx == Positions(|columns|);
  }

  lemma NumericColumnsOnce()
    ensures forall i :: 0 <= i < |NumericColumns| ==> Occurrences(InsertColumns, NumericColumns[i]) == 1
  {
    InsertColumnsDistinct();
    forall i | 0 <= i < |NumericColumns|
      ensures Occurrences(InsertColumns, NumericColumns[i]) == 1
    {
      assert NumericColumns[i] == InsertColumns[i + 1];
      DistinctOccurrences(InsertColumns, i + 1);
    }
  }

  /** Only the four measurement columns are coerced. */
  lemma MeasurementColumns()
    ensures InsertColumns[0] !in NumericColumns
    ensures forall j :: 1 <= j < 5 ==> InsertColumns[j] in NumericColumns
  {
    assert forall j :: 1 <= j < 5 ==> InsertColumns[j] == NumericColumns[j - 1];
  }

  /**
   A frame with the extracted labels normalises to one with the INSERT
   columns, whatever its rows.
   */
  lemma NormaliseTableColumns(f: Frame)
    requires f.Valid() && f.columns == TableColumns
    ensures Normalise(Results, f).Some? && Normalise(Results, f).value.columns == InsertColumns
  {
    RenameTableColumns(f.rows);
    NumericColumnsOnce();
  }

  /**
   Row `k` of a normalised frame with the extracted labels: the peak name
   only loses placeholders, each measurement is cleared and then coerced.
   */
  lemma NormaliseTableRow(f: Frame, k: nat)
    requires f.Valid() && f.columns == TableColumns && k < |f.rows|
    ensures Normalise(Results, f).Some?
    ensures var row, g := f.rows[k], Normalise(Results, f).value.rows[k];
      && g[0] == ClearCell(row[0], NullTexts)
      && forall j :: 1 <= j < 5 ==> g[j] == ToNumeric(ClearCell(row[j], NullTexts))
  {
    NormaliseTableColumns(f);
    var row, g := f.rows[k], Normalise(Results, f).value.rows[k];
    forall j | 1 <= j < 5
      ensures g[j] == ToNumeric(ClearCell(row[j], NullTexts))
    {
      NormaliseTableCell(f, k, j);
    }
    NormaliseTableCell(f, k, 0);
  }

  /** The normalised cell at row `k`, column `j` of a frame with the extracted labels. */
  ghost predicate NormalisedCell(f: Frame, k: nat, j: nat)
    requires f.Valid() && f.columns == TableColumns && k < |f.rows| && j < 5
  {
    Normalise(Results, f).Some? &&
    Normalise(Results, f).value.rows[k][j] ==
      (if j == 0 then ClearCell(f.rows[k][j], NullTexts) else ToNumeric(ClearCell(f.rows[k][j], NullTexts)))
  }

  lemma NormaliseTableCell(f: Frame, k: nat, j: nat)
    requires f.Valid() && f.columns == TableColumns && k < |f.rows| && j < 5
    ensures NormalisedCell(f, k, j)
  {
    NormaliseTableColumns(f);
    RenameTableColumns(f.rows);
    MeasurementColumns();
    NormalisedCellOf(Results, f, k, j);
  }

  /** One cell of a renamed, cleared and coerced frame. */
  lemma NormalisedCellOf(sc: Schema, f: Frame, k: nat, j: nat)
    requires f.Valid() && k < |f.rows| && j < |f.columns| && Normalise(sc, f).Some?
    ensures Normalise(sc, f).value.rows[k][j] ==
      if Rename(f, sc.renaming).columns[j] in sc.numeric then ToNumeric(ClearCell(f.rows[k][j], sc.nullTexts))
      else ClearCell(f.rows[k][j], sc.nullTexts)
  {
    var c := ClearValues(Rename(f, sc.renaming), sc.nullTexts);
    assert c.rows[k] == ClearRow(f.rows[k], sc.nullTexts);
  }

  /** Each insert of a save holds the table name and the record of its normalised row. */
  lemma SaveRecords(sc: Schema, f: Frame, table: string, fault: Fault, k: nat)
    requires f.Valid() && k < |SaveAs(sc, true, f, table, fault).trace.inserts|
    ensures Normalise(sc, f).Some? && Indices(Normalise(sc, f).value.columns, sc.insert).Some?
    ensures SaveAs(sc, true, f, table, fault).trace.inserts[k] ==
      Insert(table, Record(Normalise(sc, f).value.rows[k], Indices(Normalise(sc, f).value.columns, sc.insert).value))
  {
    var g := Normalise(sc, f).value;
    var n := Executed(sc, g, fault);
    assert SaveAs(sc, true, f, table, fault).trace.inserts == Inserts(sc, g, table, n);
  }

  /**
   On a frame with the extracted labels, a save goes through unless the
   driver raises; an INSERT raising at row `k` leaves the `k` earlier
   inserts.
   */
  lemma SaveTableOutcome(f: Frame, table: string, fault: Fault)
    requires f.Valid() && f.columns == TableColumns
    ensures var r := Save(true, f, table, fault);
      && (r.saved <==> fault == NoFault || (fault.ExecuteFault? && fault.row >= |f.rows|))
      && (fault.ExecuteFault? && fault.row < |f.rows| ==> |r.trace.inserts| == fault.row)
  {
    NormaliseTableColumns(f);
    InsertColumnsSelfIndexed();
    SaveExecuted(Results, f, table, fault);
  }

  /** Once the frame normalises and its labels resolve, only the driver can stop the save. */
  lemma SaveExecuted(sc: Schema, f: Frame, table: string, fault: Fault)
    requires f.Valid() && Normalise(sc, f).Some? && Indices(Normalise(sc, f).value.columns, sc.insert).Some?
    ensures var r := SaveAs(sc, true, f, table, fault);
      && (r.saved <==> fault == NoFault || (fault.ExecuteFault? && fault.row >= |f.rows|))
      && (fault.ExecuteFault? && fault.row < |f.rows| ==> |r.trace.inserts| == fault.row)
  {
  }

  /**
   On a frame with the extracted labels, each insert stores its row with
   the peak name kept as text and each measurement as a number or NULL.
   */
  lemma SaveTableValues(f: Frame, table: string, fault: Fault)
    requires f.Valid() && f.columns == TableColumns
    ensures var r := Save(true, f, table, fault);
      forall k :: 0 <= k < |r.trace.inserts| ==> StoredAs(f.rows[k], r.trace.inserts[k].values)
  {
    NormaliseTableColumns(f);
    InsertColumnsSelfIndexed();
    var r := Save(true, f, table, fault);
    forall k | 0 <= k < |r.trace.inserts|
      ensures StoredAs(f.rows[k], r.trace.inserts[k].values)
    {
      NormaliseTableRow(f, k);
      SaveRecords(Results, f, table, fault, k);
      StoredRow(f.rows[k], r.trace.inserts[k].values, Normalise(Results, f).value.rows[k]);
    }
  }

  /** The values recorded from one normalised row are stored as StoredAs says. */
  lemma StoredRow(row: Row, vs: seq<Value>, g: Row)
    requires |row| == 5 && |g| == 5 && vs == Record(g, [0, 1, 2, 3, 4])
    requires g[0] == ClearCell(row[0], NullTexts)
    requires forall j :: 1 <= j < 5 ==> g[j] == ToNumeric(ClearCell(row[j], NullTexts))
    ensures StoredAs(row, vs)
  {
    forall j | 1 <= j < 5
      ensures StoredNumber(row[j], vs[j])
    {
      StoredNumberOfCell(row[j]);
    }
  }

  /** Clearing then coercing a cell stores it as StoredNumber describes. */
  lemma StoredNumberOfCell(v: Value)
    ensures StoredNumber(v, ToNumeric(ClearCell(v, NullTexts)))
  {
    PlaceholdersNotNumbers();
  }

  /** Neither placeholder is numeric text. */
  lemma PlaceholdersNotNumbers()
    ensures !IsNumberText(Dash) && !IsNumberText("")
  {
    UnsignedStartsWithDigit(Dash);
    UnsignedStartsWithDigit(Dash[1..]);
  }

  /**
   What row `row` of the extracted labels becomes in the database: the
   peak name as given, then each measurement as a number, or NULL where
   the cell is `---`, empty, missing or not numeric text.
   */
  ghost predicate StoredAs(row: Row, vs: seq<Value>)
    requires |row| == 5
  {
    && |vs| == 5
    && vs[0] == ClearCell(row[0], NullTexts)
    && forall j :: 1 <= j < 5 ==> StoredNumber(row[j], vs[j])
  }

  /** A measurement cell and the value stored for it. */
  ghost predicate StoredNumber(v: Value, stored: Value) {
    match v
    case Null => stored == Null
    case Num(x) => stored == v
    case Str(t) =>
      if IsNumberText(t) then stored == Num(ParseNumber(t).value) else stored == Null
  }

  // ---------------------------------------------------------------------
  // From page text to database rows

  /** `\d+\.\d+` text stored as the number its digits denote. */
  ghost predicate DecimalStored(t: string, v: Value) {
    exists d: nat :: IsDecimalAt(t, d) && v == Num(DecimalValue(t[..d], t[d + 1..]))
  }

  /** An NGSP or area cell: NULL for `---`, otherwise its decimal value. */
  ghost predicate FieldStored(t: string, v: Value) {
    if t == Dash then v == Null else DecimalStored(t, v)
  }

  /**
   The database row for an extracted row: the peak name as text, NGSP and
   area as numbers or NULL, retention time and peak area always numbers.
   */
  ghost predicate PeakStored(row: Row, vs: seq<Value>)
    requires IsPeakRow(row)
  {
    && |vs| == 5
    && vs[0] == row[0]
    && FieldStored(row[1].text, vs[1])
    && FieldStored(row[2].text, vs[2])
    && DecimalStored(row[3].text, vs[3])
    && vs[4] == Num(DigitsValue(row[4].text) as real)
  }

  /**
   Saving the table extracted from `text`: it is saved unless the driver
   raises, and each insert carries the values its row's text denotes.
   */
  lemma SaveExtracted(text: string, table: string, fault: Fault)
    requires ExtractTable(text).Some?
    ensures var f := ExtractTable(text).value; var r := Save(true, f, table, fault);
      && (r.saved <==> fault == NoFault || (fault.ExecuteFault? && fault.row >= |f.rows|))
      && (r.saved ==> |r.trace.inserts| == |f.rows|)
      && forall k :: 0 <= k < |r.trace.inserts| ==>
        IsPeakRow(f.rows[k]) && PeakStored(f.rows[k], r.trace.inserts[k].values)
  {
    var f := ExtractTable(text).value;
    var r := Save(true, f, table, fault);
    SaveTableOutcome(f, table, fault);
    SaveTableValues(f, table, fault);
    ExtractRowsArePeakRows(text);
    forall k | 0 <= k < |r.trace.inserts|
      ensures PeakStored(f.rows[k], r.trace.inserts[k].values)
    {
      PeakRowStored(f.rows[k], r.trace.inserts[k].values);
    }
  }

  /** For an extracted row, StoredAs pins down the values PeakStored describes. */
  lemma PeakRowStored(row: Row, vs: seq<Value>)
    requires IsPeakRow(row) && StoredAs(row, vs)
    ensures PeakStored(row, vs)
  {
    assert row[0].text !in NullTexts by {
      assert |row[0].text| >= 2;
      assert row[0].text[0] != '-';
    }
    FieldCellStored(row[1], vs[1]);
    FieldCellStored(row[2], vs[2]);
    DecimalCellStored(row[3], vs[3]);
    ParseDigits(row[4].text);
    PlaceholdersNotNumbers();
  }

  lemma FieldCellStored(v: Value, stored: Value)
    requires v.Str? && IsFieldText(v.text) && StoredNumber(v, stored)
    ensures FieldStored(v.text, stored)
  {
    PlaceholdersNotNumbers();
    if v.text != Dash {
      DecimalCellStored(v, stored);
    }
  }

  lemma DecimalCellStored(v: Value, stored: Value)
    requires v.Str? && IsDecimal(v.text) && StoredNumber(v, stored)
    ensures DecimalStored(v.text, stored)
  {
    var d: nat :| IsDecimalAt(v.text, d);
    ParseDecimal(v.text, d);
  }
}
