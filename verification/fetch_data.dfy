/**
 `fetch_data_from_db`: every row of the results table read back as a
 dictionary from column name to value. Whether a connection is obtained,
 whether the query raises, the column names of `cursor.description` and
 the fetched rows are inputs.
 */
module FetchData {
  import opened Basics
  import opened Tables
  import Config
  import DbConnection

  /** One fetched row as a dictionary: column name to value. */
  type Record = map<string, Value>

  function Min(a: nat, b: nat): nat {
    if a <= b then a else b
  }

  /**
   `dict(zip(columns, row))`: pairs are taken up to the shorter of the
   two, and a repeated column name keeps the value of its last occurrence.
   */
  function Zip(columns: seq<string>, row: seq<Value>): (rec: Record)
    ensures forall k :: k in rec <==> k in columns[..Min(|columns|, |row|)]
    ensures forall i :: 0 <= i < Min(|columns|, |row|) && LastAmong(columns, i, Min(|columns|, |row|)) ==>
      rec[columns[i]] == row[i]
  {
    ZipFirst(columns, row, Min(|columns|, |row|))
  }

  /** Position `i` holds the last occurrence of its name among the first `n` columns. */
  predicate LastAmong(columns: seq<string>, i: nat, n: nat)
    requires i < n <= |columns|
  {
    forall j :: i < j < n ==> columns[j] != columns[i]
  }

  /** The dictionary built from the first `n` pairs, inserted in order. */
  function ZipFirst(columns: seq<string>, row: seq<Value>, n: nat): (rec: Record)
    requires n <= |columns| && n <= |row|
    ensures forall k :: k in rec <==> k in columns[..n]
    ensures forall i :: 0 <= i < n && LastAmong(columns, i, n) ==> rec[columns[i]] == row[i]
    decreases n
  {
    if n == 0 then map[]
    else
      var prefix := ZipFirst(columns, row, n - 1);
      ZipStep(columns, row, n, prefix);
      prefix[columns[n - 1] := row[n - 1]]
  }

  /** Inserting the `n`-th pair keeps the earlier names that occur last. */
  lemma ZipStep(columns: seq<string>, row: seq<Value>, n: nat, prefix: Record)
    requires 0 < n <= |columns| && n <= |row|
    requires forall k :: k in prefix <==> k in columns[..n - 1]
    requires forall i :: 0 <= i < n - 1 && LastAmong(columns, i, n - 1) ==> prefix[columns[i]] == row[i]
    ensures var rec := prefix[columns[n - 1] := row[n - 1]];
      && (forall k :: k in rec <==> k in columns[..n])
      && (forall i :: 0 <= i < n && LastAmong(columns, i, n) ==> rec[columns[i]] == row[i])
  {
    var rec := prefix[columns[n - 1] := row[n - 1]];
    assert columns[..n] == columns[..n - 1] + [columns[n - 1]];
    forall i | 0 <= i < n && LastAmong(columns, i, n)
      ensures rec[columns[i]] == row[i]
    {
      if i < n - 1 {
        assert columns[n - 1] != columns[i];
        assert LastAmong(columns, i, n - 1);
        assert columns[i] in columns[..n - 1];
      }
    }
  }

  /** The values of `rec` read back in the order of `columns`. */
  function Project(columns: seq<string>, rec: Record): (row: seq<Value>)
    requires forall i :: 0 <= i < |columns| ==> columns[i] in rec
    ensures |row| == |columns|
    ensures forall i :: 0 <= i < |columns| ==> row[i] == rec[columns[i]]
  {
    seq(|columns|, i requires 0 <= i < |columns| => rec[columns[i]])
  }

  /**
   With distinct column names and a row of full width, the record holds
   exactly the columns, each with its own value, and reading it back in
   column order gives the row.
   */
  lemma ZipProject(columns: seq<string>, row: seq<Value>)
    requires NoDuplicateNames(columns) && |row| == |columns|
    ensures forall k :: k in Zip(columns, row) <==> k in columns
    ensures forall i :: 0 <= i < |columns| ==> Zip(columns, row)[columns[i]] == row[i]
    ensures Project(columns, Zip(columns, row)) == row
  {
    assert columns[..|columns|] == columns;
    var rec := Zip(columns, row);
    forall i | 0 <= i < |columns|
      ensures rec[columns[i]] == row[i]
    {
      assert LastAmong(columns, i, |columns|);
    }
  }

  predicate NoDuplicateNames(columns: seq<string>) {
    forall i, j :: 0 <= i < j < |columns| ==> columns[i] != columns[j]
  }

  /**
   Truncation: columns beyond the row's end are absent from the record,
   and values beyond the last column are dropped.
   */
  lemma ZipTruncates(columns: seq<string>, row: seq<Value>, k: string)
    requires k in columns && k !in columns[..Min(|columns|, |row|)]
    ensures k !in Zip(columns, row)
  {
  }

  // ---------------------------------------------------------------------
  // fetch_data_from_db

  /** What the function returns, and whether it closed the connection. */
  datatype Fetched = Fetched(records: Option<seq<Record>>, closed: bool)

  /**
   `fetch_data_from_db(table_name)`. `connected` is whether
   `connect_to_database` returned a connection, `queryFails` whether the
   cursor, the query or the fetch raised, `columns` the names in
   `cursor.description`, and `rows` what `fetchall` returned.
   */
  function Fetch(connected: bool, queryFails: bool, columns: seq<string>, rows: Option<seq<seq<Value>>>): (f: Fetched)
    ensures f.records.None? <==> !connected || queryFails
    ensures f.closed <==> connected && !queryFails
    ensures f.records.Some? && rows.None? ==> f.records.value == []
    ensures f.records.Some? && rows.Some? ==>
      && |f.records.value| == |rows.value|
      && forall i :: 0 <= i < |rows.value| ==> f.records.value[i] == Zip(columns, rows.value[i])
  {
    if !connected then Fetched(None, false)
    // the except clause returns without closing the cursor or connection
    else if queryFails then Fetched(None, false)
    else if rows.None? then Fetched(Some([]), true)
    else Fetched(Some(seq(|rows.value|, i requires 0 <= i < |rows.value| => Zip(columns, rows.value[i]))), true)
  }

  /**
   `fetch_data_from_db(table_name)` from its first line: the call to
   `connect_to_database()` comes before the `try`, so an error reading
   the configuration escapes; a string the driver rejects gives None.
   */
  function FetchFromDb(config: Result<Config.Settings, Config.ConfigError>, accepts: string -> bool,
                       queryFails: bool, columns: seq<string>, rows: Option<seq<seq<Value>>>): (r: Result<Fetched, Config.ConfigError>)
    ensures r.Failure? <==> config.Failure?
    ensures r.Failure? ==> r.error == config.error
    ensures r.Success? ==>
      var cs := DbConnection.ConnectionString(config.value.database);
      && (r.value.records.None? <==> cs.None? || !accepts(cs.value) || queryFails)
      && (r.value.closed <==> cs.Some? && accepts(cs.value) && !queryFails)
      // on the connection made, the result is the fetch's: one zipped record per returned row
      && r.value == Fetch(cs.Some? && accepts(cs.value), queryFails, columns, rows)
      && (r.value.records.Some? && rows.Some? ==>
            |r.value.records.value| == |rows.value|
            && forall i :: 0 <= i < |rows.value| ==> r.value.records.value[i] == Zip(columns, rows.value[i]))
  {
    var conn :- DbConnection.Connect(config, accepts);
    Success(Fetch(conn.Some?, queryFails, columns, rows))
  }

  /**
   A successful fetch with distinct column names returns one record per
   row, in fetch order, each pairing every column with that row's value in
   the same position, and nothing else.
   */
  lemma FetchRecords(columns: seq<string>, rows: seq<seq<Value>>)
    requires NoDuplicateNames(columns)
    requires forall r :: 0 <= r < |rows| ==> |rows[r]| == |columns|
    ensures var f := Fetch(true, false, columns, Some(rows));
      && f.closed && f.records.Some? && |f.records.value| == |rows|
      && forall r :: 0 <= r < |rows| ==>
        && (forall k :: k in f.records.value[r] <==> k in columns)
        && Project(columns, f.records.value[r]) == rows[r]
  {
    forall r | 0 <= r < |rows|
      ensures var rec := Zip(columns, rows[r]);
        (forall k :: k in rec <==> k in columns) && Project(columns, rec) == rows[r]
    {
      ZipProject(columns, rows[r]);
    }
  }
}
