/**
 The module-level logic of the Streamlit dashboard `app2.py`: the upload
 path (unpacking the extracted table and the data-valid gate), then the
 view of the stored results: dates parsed and undated rows dropped, the
 default date range, the inclusive date filter, the distinct sample ids,
 the selected sample's details and results, and the chromatogram path.
 Widget values (the chosen dates, the selected id) and date parsing are
 inputs; rendering is left out.
 */
module Dashboard {
  import opened Basics
  import opened Seqs
  import opened Tables
  import opened PdfExtractor
  import opened FetchData
  import opened Paths
  import opened FigureCrop
  import SaveTable

  // ---------------------------------------------------------------------
  // Upload path

  /** The exceptions the upload path raises, each caught and logged by the handler around it. */
  datatype UploadError =
    | NotIterable                             // unpacking None
    | UnpackMismatch(values: nat)             // unpacking a frame yields its column labels
    | ArityMismatch(given: nat, accepted: nat) // the save call passes too many arguments

  /** The gate: the table, the sample id and the report date were all found. */
  predicate DataValid<T, U, V>(table: Option<T>, sampleId: Option<U>, reportDate: Option<V>) {
    table.Some? && sampleId.Some? && reportDate.Some?
  }

  /** Whether the gate lets a save through, and what the save returned. */
  datatype SaveAttempt = Skipped | Attempted(saved: bool)

  /**
   The gate as written: `save` is called, and its answer kept, exactly
   when all three values are present.
   */
  function Gate<T, U, V>(table: Option<T>, sampleId: Option<U>, reportDate: Option<V>,
                         save: (T, U, V) -> bool): (a: SaveAttempt)
    ensures a.Attempted? <==> DataValid(table, sampleId, reportDate)
    ensures a.Attempted? ==> a.saved == save(table.value, sampleId.value, reportDate.value)
  {
    if DataValid(table, sampleId, reportDate) then Attempted(save(table.value, sampleId.value, reportDate.value))
    else Skipped
  }

  /** Parameters of `save_table_to_db` and arguments the dashboard passes to it. */
  const SaveParameters: nat := 2
  const SaveArguments: nat := 4

  /**
   The upload path from the extracted table on: the result of
   `extract_table_from_text` is unpacked into three names. None cannot be
   unpacked; a frame unpacks into its column labels, so only a frame of
   exactly three columns gets through, after which the three labels pass
   the gate and the save call fails on its argument count.
   */
  function Upload(extracted: Option<Frame>): (e: UploadError)
    ensures extracted.None? <==> e == NotIterable
    ensures extracted.Some? ==> (|extracted.value.columns| != 3 <==> e == UnpackMismatch(|extracted.value.columns|))
    ensures e.ArityMismatch? <==> extracted.Some? && |extracted.value.columns| == 3
  {
    match extracted
    case None => NotIterable
    case Some(f) =>
      if |f.columns| != 3 then UnpackMismatch(|f.columns|)
      else
        // the three labels are all present, so the gate calls the save,
        // which raises on the number of arguments
        ArityMismatch(SaveArguments, SaveParameters)
  }

  /**
   Whatever text the page yields, the upload ends in the exception
   handler before anything is saved: a page where the peak-row pattern
   matches nowhere gives None, which cannot be unpacked, and any other
   page gives a frame of five columns, which does not unpack into three
   names.
   */
  lemma UploadNeverSaves(text: string)
    ensures Upload(ExtractTable(text)) ==
      if forall p :: 0 <= p <= |text| ==> MatchAt(text, p).None? then NotIterable else UnpackMismatch(5)
  {
    ExtractNoneIffNoMatch(text);
    var r := ExtractTable(text);
    if r.Some? {
      assert |r.value.columns| == |TableColumns| == 5;
    }
  }

  /**
   The upload path as evidently intended: the extractor yields the table
   together with a sample id and a report date, and the table is saved by
   `save_table_to_db(df, table_name)` exactly when all three were found.
   */
  function IntendedUpload(extracted: Option<Frame>, sampleId: Option<string>, reportDate: Option<string>,
                          connected: bool, table: string, fault: SaveTable.Fault): (a: SaveAttempt)
    requires extracted.Some? ==> extracted.value.Valid()
    ensures a.Attempted? <==> DataValid(extracted, sampleId, reportDate)
    ensures a.Attempted? ==> a.saved == SaveTable.Save(connected, extracted.value, table, fault).saved
  {
    Gate(extracted, sampleId, reportDate,
         (f: Frame, s: string, d: string) => f.Valid() && SaveTable.Save(connected, f, table, fault).saved)
  }

  /**
   Intended upload of a page: a save is attempted exactly when the page
   has a peak table and the sample id and report date were found, and on
   a live connection it succeeds unless the driver raises.
   */
  lemma IntendedUploadSaves(text: string, sampleId: Option<string>, reportDate: Option<string>,
                            table: string, fault: SaveTable.Fault)
    ensures var a := IntendedUpload(ExtractTable(text), sampleId, reportDate, true, table, fault);
      && (a.Attempted? <==> ExtractTable(text).Some? && sampleId.Some? && reportDate.Some?)
      && (a.Attempted? ==>
            (a.saved <==> fault == SaveTable.NoFault
                          || (fault.ExecuteFault? && fault.row >= |ExtractTable(text).value.rows|)))
  {
    if ExtractTable(text).Some? {
      SaveTable.SaveExtracted(text, table, fault);
    }
  }

  // ---------------------------------------------------------------------
  // Dates

  const ReqDate: string := "InRs_ReqDate"
  const ReqNo: string := "InRs_ReqNo"
  const MapCode: string := "InRs_Map_code"
  const RetTime: string := "InRs_Ret_Time"
  const Machine: string := "InRs_Machine"
  const Result: string := "InRs_Result"

  /** A DataFrame cell built from a list of dictionaries: NaN where the record lacks the key. */
  function Cell(rec: Record, key: string): Value {
    if key in rec then rec[key] else Null
  }

  /** A row of the frame with its parsed request date (a day number), or None for NaT. */
  datatype Row = Row(record: Record, date: Option<int>)

  /**
   `pd.to_datetime(df["InRs_ReqDate"], errors='coerce')`: each record with
   its date parsed by `parseDate`, which gives None where pandas gives NaT.
   */
  function ParseDates(records: seq<Record>, parseDate: Value -> Option<int>): (rows: seq<Row>)
    ensures |rows| == |records|
    ensures forall i :: 0 <= i < |records| ==>
      rows[i].record == records[i] && rows[i].date == parseDate(Cell(records[i], ReqDate))
  {
    seq(|records|, i requires 0 <= i < |records| => Row(records[i], parseDate(Cell(records[i], ReqDate))))
  }

  predicate Dated(r: Row) {
    r.date.Some?
  }

  /** `dropna(subset=["InRs_ReqDate"])`: the dated rows, in order. */
  function DropUndated(rows: seq<Row>): (d: seq<Row>)
    ensures forall i :: 0 <= i < |d| ==> Dated(d[i]) && d[i] in rows
    ensures forall i :: 0 <= i < |rows| && Dated(rows[i]) ==> rows[i] in d
  {
    Filter(rows, Dated)
  }

  /** The earliest date among the rows, skipping undated ones; None when none is dated. */
  function Earliest(rows: seq<Row>): (d: Option<int>)
    ensures d.None? <==> forall i :: 0 <= i < |rows| ==> !Dated(rows[i])
    ensures d.Some? ==> exists i :: 0 <= i < |rows| && rows[i].date == d
    ensures d.Some? ==> forall i :: 0 <= i < |rows| && Dated(rows[i]) ==> d.value <= rows[i].date.value
    decreases |rows|
  {
    if |rows| == 0 then None
    else
      var rest := Earliest(rows[1..]);
      assert forall i :: 1 <= i < |rows| ==> rows[i] == rows[1..][i - 1];
      if rows[0].date.None? then rest
      else if rest.None? || rows[0].date.value <= rest.value then rows[0].date
      else rest
  }

  /** The latest date among the rows, skipping undated ones; None when none is dated. */
  function Latest(rows: seq<Row>): (d: Option<int>)
    ensures d.None? <==> forall i :: 0 <= i < |rows| ==> !Dated(rows[i])
    ensures d.Some? ==> exists i :: 0 <= i < |rows| && rows[i].date == d
    ensures d.Some? ==> forall i :: 0 <= i < |rows| && Dated(rows[i]) ==> rows[i].date.value <= d.value
    decreases |rows|
  {
    if |rows| == 0 then None
    else
      var rest := Latest(rows[1..]);
      assert forall i :: 1 <= i < |rows| ==> rows[i] == rows[1..][i - 1];
      if rows[0].date.None? then rest
      else if rest.None? || rest.value <= rows[0].date.value then rows[0].date
      else rest
  }

  /** A date range chosen in the two date inputs. */
  datatype Range = Range(start: int, end: int)

  /**
   The default range: the earliest and the latest date of the dated rows.
   Both bounds are dates some row carries, and every row lies within them.
   */
  function DefaultRange(rows: seq<Row>): (r: Option<Range>)
    ensures r.None? <==> forall i :: 0 <= i < |rows| ==> !Dated(rows[i])
    ensures r.Some? ==> r.value.start <= r.value.end
    ensures r.Some? ==> exists i :: 0 <= i < |rows| && rows[i].date == Some(r.value.start)
    ensures r.Some? ==> exists i :: 0 <= i < |rows| && rows[i].date == Some(r.value.end)
    ensures r.Some? ==> forall i :: 0 <= i < |rows| && Dated(rows[i]) ==> InRange(rows[i], r.value)
  {
    var lo, hi := Earliest(rows), Latest(rows);
    if lo.None? then None
    else Some(Range(lo.value, hi.value))
  }

  /** The row's date lies in the range, both ends included. */
  predicate InRange(r: Row, range: Range) {
    r.date.Some? && range.start <= r.date.value <= range.end
  }

  /** The mask `(date >= start) & (date <= end)`. */
  function Within(range: Range): Row -> bool {
    (x: Row) => InRange(x, range)
  }

  // ---------------------------------------------------------------------
  // Filters

  /** A `From Date` after the `To Date` is reported instead of filtering. */
  datatype RangeError = StartAfterEnd(start: int, end: int)

  /**
   The rows dated within the range, inclusive at both ends, in their
   original order; a range that starts after it ends is an error.
   */
  function FilterByDate(rows: seq<Row>, range: Range): (r: Result<seq<Row>, RangeError>)
    ensures r.Failure? <==> range.start > range.end
    ensures r.Failure? ==> r.error == StartAfterEnd(range.start, range.end)
    ensures r.Success? ==> forall x :: x in r.value <==> x in rows && InRange(x, range)
    ensures r.Success? ==> |r.value| <= |rows|
  {
    if range.start > range.end then Failure(StartAfterEnd(range.start, range.end))
    else Success(Filter(rows, Within(range)))
  }

  /** The date filter keeps relative order: filtering a concatenation filters each part. */
  lemma FilterByDateOrder(a: seq<Row>, b: seq<Row>, range: Range)
    requires range.start <= range.end
    ensures FilterByDate(a + b, range).value == FilterByDate(a, range).value + FilterByDate(b, range).value
  {
    FilterConcat(a, b, Within(range));
  }

  /** A range covering every date keeps every dated row, so the default range filters nothing out. */
  lemma DefaultRangeKeepsAll(rows: seq<Row>)
    requires forall i :: 0 <= i < |rows| ==> Dated(rows[i])
    requires DefaultRange(rows).Some?
    ensures FilterByDate(rows, DefaultRange(rows).value) == Success(rows)
  {
    var range := DefaultRange(rows).value;
    FilterAll(rows, Within(range));
  }

  /** The sample id column of the rows, in order. */
  function SampleColumn(rows: seq<Row>): (ids: seq<Value>)
    ensures |ids| == |rows| && forall i :: 0 <= i < |rows| ==> ids[i] == Cell(rows[i].record, ReqNo)
  {
    seq(|rows|, i requires 0 <= i < |rows| => Cell(rows[i].record, ReqNo))
  }

  /**
   `df_filtered["InRs_ReqNo"].unique()`: each sample id of the rows once,
   in order of first appearance.
   */
  function SampleIds(rows: seq<Row>): (ids: seq<Value>)
    ensures NoDuplicates(ids)
    ensures forall v :: v in ids <==> v in SampleColumn(rows)
    ensures forall i, j :: 0 <= i < j < |ids| ==>
      FirstIndex(SampleColumn(rows), ids[i]) < FirstIndex(SampleColumn(rows), ids[j])
  {
    var column := SampleColumn(rows);
    DedupElements(column);
    DedupFirstAppearance(column);
    Dedup(column)
  }

  /**
   `series == selected` compares cell by cell; a missing cell (NaN) equals
   nothing, and comparing with None selects nothing.
   */
  predicate IsSample(r: Row, selected: Option<Value>) {
    selected.Some? && Cell(r.record, ReqNo) != Null && Cell(r.record, ReqNo) == selected.value
  }

  /** The rows of the selected sample, in order. */
  function SampleRows(rows: seq<Row>, selected: Option<Value>): (d: seq<Row>)
    ensures forall x :: x in d <==> x in rows && IsSample(x, selected)
    ensures selected.None? || selected == Some(Null) ==> d == []
  {
    var d := Filter(rows, (x: Row) => IsSample(x, selected));
    assert |d| > 0 ==> IsSample(d[0], selected);
    d
  }

  /** One line of the "Sample Details" table, with its renamed headers. */
  datatype DetailRow = DetailRow(sampleId: Value, resultDate: Option<int>, machine: Value, result: Value)

  /** One line of the "Sample Results" table. */
  datatype ResultRow = ResultRow(peakName: Value, retentionTime: Value)

  const DetailHeaders: seq<string> := ["Sample ID", "Result Date", "InRs_Machine", "InRs_Result"]
  const ResultHeaders: seq<string> := ["Peak Name", "Retention Time (min)"]

  /** The details table: the id, date, machine and result of each selected row. */
  function Details(rows: seq<Row>): (d: seq<DetailRow>)
    ensures |d| == |rows|
    ensures forall i :: 0 <= i < |rows| ==>
      d[i] == DetailRow(Cell(rows[i].record, ReqNo), rows[i].date, Cell(rows[i].record, Machine), Cell(rows[i].record, Result))
  {
    seq(|rows|, i requires 0 <= i < |rows| =>
      DetailRow(Cell(rows[i].record, ReqNo), rows[i].date, Cell(rows[i].record, Machine), Cell(rows[i].record, Result)))
  }

  /** The results table: the peak name and retention time of each selected row. */
  function Results(rows: seq<Row>): (r: seq<ResultRow>)
    ensures |r| == |rows|
    ensures forall i :: 0 <= i < |rows| ==> r[i] == ResultRow(Cell(rows[i].record, MapCode), Cell(rows[i].record, RetTime))
  {
    seq(|rows|, i requires 0 <= i < |rows| => ResultRow(Cell(rows[i].record, MapCode), Cell(rows[i].record, RetTime)))
  }

  // ---------------------------------------------------------------------
  // Chromatogram

  /**
   How the f-string prints the selected id: text as it is, no selection
   as `None`. A missing id prints as `None` or `nan` depending on the
   column's dtype, and a numeric id as pandas formats it; neither is
   modelled.
   */
  function IdText(selected: Option<Value>): Option<string> {
    match selected
    case None => Some("None")
    case Some(Null) => None
    case Some(Str(t)) => Some(t)
    case Some(Num(_)) => None
  }

  /** `f"{IMAGE_DIR}/{selected_sample_id}_graph.jpg"`. */
  function ChromatogramPath(imageDir: string, id: string): string {
    imageDir + "/" + id + GraphJpg
  }

  /**
   The dashboard looks for the chromatogram exactly where the figure of
   the page image `id.jpg` is written, when the image directory is given
   without a trailing `/` and the id is a plain name holding no `.jpg`.
   */
  lemma ChromatogramIsFigure(imageDir: string, id: string)
    requires |imageDir| > 0 && imageDir[|imageDir| - 1] != '/'
    requires !Contains(id, Jpg) && (|id| > 0 ==> id[0] != '/')
    ensures ChromatogramPath(imageDir, id) == FigurePath(imageDir, id + Jpg)
  {
    FigurePathOfJpg(imageDir, id);
    var name := id + GraphJpg;
    assert name[0] != Sep by {
      if |id| == 0 {
        assert name == GraphJpg;
      } else {
        assert name[0] == id[0];
      }
    }
    assert PathJoin(imageDir, name) == imageDir + [Sep] + name;
    var head := imageDir + "/";
    assert head == imageDir + [Sep];
    Associative(head, id, GraphJpg);
  }

  lemma Associative<T>(x: seq<T>, y: seq<T>, z: seq<T>)
    ensures x + y + z == x + (y + z)
  {
  }

  // ---------------------------------------------------------------------
  // The page

  /** What the results part of the page shows. */
  datatype View =
    | NoData                            // fetch returned None or no records
    | NoDates                           // records, but no date that parses
    | Rejected(error: RangeError)        // the chosen range is inverted
    | Shown(sampleIds: seq<Value>, details: seq<DetailRow>, results: seq<ResultRow>, chromatogram: Option<string>)

  /** The frame after date parsing and `dropna`. */
  function DatedRows(records: seq<Record>, parseDate: Value -> Option<int>): seq<Row> {
    DropUndated(ParseDates(records, parseDate))
  }

  /** The range the filter uses: the chosen dates, or the defaults when none were chosen. */
  function RangeUsed(chosen: Option<Range>, defaults: Range): Range {
    if chosen.Some? then chosen.value else defaults
  }

  /**
   The results part of the page. `data` is what `fetch_data_from_db`
   returned, `chosen` the dates in the two inputs (None when left at
   their defaults) and `selected` the selectbox value.
   */
  function Page(data: Option<seq<Record>>, parseDate: Value -> Option<int>, chosen: Option<Range>,
                selected: Option<Value>, imageDir: string): (v: View)
    ensures v == NoData <==> data.None? || |data.value| == 0
    ensures v == NoDates <==> (data.Some? && |data.value| > 0 && DefaultRange(DatedRows(data.value, parseDate)).None?)
    ensures v.Rejected? ==> chosen.Some? && chosen.value.start > chosen.value.end
    ensures chosen.None? ==> !v.Rejected?
    ensures v.Shown? || v.Rejected? ==> data.Some? && DefaultRange(DatedRows(data.value, parseDate)).Some?
    ensures v.Shown? ==>
      var range := RangeUsed(chosen, DefaultRange(DatedRows(data.value, parseDate)).value);
      var chosenRows := Filter(DatedRows(data.value, parseDate), Within(range));
      var sample := SampleRows(chosenRows, selected);
      && range.start <= range.end
      && v.sampleIds == SampleIds(chosenRows)
      && v.details == Details(sample) && v.results == Results(sample)
      // every line shown belongs to the selected sample and the range, and was fetched
      && (forall i :: 0 <= i < |sample| ==>
            InRange(sample[i], range) && IsSample(sample[i], selected) && sample[i].record in data.value)
      && (v.chromatogram.Some? <==> IdText(selected).Some?)
      && (v.chromatogram.Some? ==> v.chromatogram.value == ChromatogramPath(imageDir, IdText(selected).value))
  {
    if data.None? || |data.value| == 0 then NoData
    else
      var rows := DatedRows(data.value, parseDate);
      var defaults := DefaultRange(rows);
      if defaults.None? then NoDates
      else
        match FilterByDate(rows, RangeUsed(chosen, defaults.value))
        case Failure(e) => Rejected(e)
        case Success(chosenRows) =>
          var sample := SampleRows(chosenRows, selected);
          SampleFetched(data.value, parseDate, chosenRows, sample, RangeUsed(chosen, defaults.value), selected);
          var path := if IdText(selected).Some? then Some(ChromatogramPath(imageDir, IdText(selected).value)) else None;
          Shown(SampleIds(chosenRows), Details(sample), Results(sample), path)
  }

  /** Rows kept by the filters are rows of the parsed frame, so their records were fetched. */
  lemma SampleFetched(records: seq<Record>, parseDate: Value -> Option<int>, chosenRows: seq<Row>,
                      sample: seq<Row>, range: Range, selected: Option<Value>)
    requires forall x :: x in chosenRows <==> x in DatedRows(records, parseDate) && InRange(x, range)
    requires forall x :: x in sample <==> x in chosenRows && IsSample(x, selected)
    ensures forall i :: 0 <= i < |sample| ==>
      InRange(sample[i], range) && IsSample(sample[i], selected) && sample[i].record in records
  {
    var parsed := ParseDates(records, parseDate);
    forall i | 0 <= i < |sample|
      ensures sample[i].record in records
    {
      assert sample[i] in DatedRows(records, parseDate);
      var k :| 0 <= k < |parsed| && parsed[k] == sample[i];
      assert sample[i].record == records[k];
    }
  }
}
