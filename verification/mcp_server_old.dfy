/**
 * The query tool of the first MCP server: the same read-only gate as the pg
 * agent but on the stripped request as is (no alias rewriting), the loop
 * that makes every row value JSON-friendly in place, and the choice of
 * response once the optional export has been attempted.
 */
module McpServerOld {
  import opened Wrappers
  import opened PyText
  import opened PyValue
  import opened JsonSerialize
  import opened QueryGate

  /** The `export_format` the tool uses when the caller gives none. */
  const DefaultExportFormat := "excel"

  const UnsupportedFormat := "Unsupported export format"

  /** Every value of `row` after `row[key] = make_json_serializable(value)` for each key. */
  function SerializeRow(row: Row): (r: Row)
    ensures Keys(r) == Keys(row)
    ensures forall j :: 0 <= j < |r| ==> Plain(r[j].1)
  {
    seq(|row|, j requires 0 <= j < |row| => (row[j].0, MakeJsonSerializable(row[j].1)))
  }

  /** A row is converted exactly as the whole row taken as a dict would be. */
  lemma SerializeRowIsDictConversion(row: Row)
    ensures Dict(SerializeRow(row)) == MakeJsonSerializable(Dict(row))
  {
  }

  /** Converting the rows a second time changes nothing. */
  lemma {:induction false} SerializeRowIdempotent(row: Row)
    ensures SerializeRow(SerializeRow(row)) == SerializeRow(row)
  {
    forall j | 0 <= j < |row|
      ensures MakeJsonSerializable(SerializeRow(row)[j].1) == SerializeRow(row)[j].1
    {
      PlainUnchanged(SerializeRow(row)[j].1);
    }
  }

  function SerializeAll(rows: seq<Row>): (r: seq<Row>)
    ensures |r| == |rows|
    ensures forall i :: 0 <= i < |rows| ==> r[i] == SerializeRow(rows[i])
  {
    seq(|rows|, i requires 0 <= i < |rows| => SerializeRow(rows[i]))
  }

  /** The nested loop over `result` that overwrites each row's values in place. */
  method SerializeRows(result: array<Row>)
    modifies result
    ensures forall i :: 0 <= i < result.Length ==> result[i] == SerializeRow(old(result[i]))
  {
    for i := 0 to result.Length
      invariant forall k :: 0 <= k < i ==> result[k] == SerializeRow(old(result[k]))
      invariant forall k :: i <= k < result.Length ==> result[k] == old(result[k])
    {
      for j := 0 to |result[i]|
        invariant |result[i]| == |old(result[i])|
        invariant forall m :: 0 <= m < j ==> result[i][m] == SerializeRow(old(result[i]))[m]
        invariant forall m :: j <= m < |result[i]| ==> result[i][m] == old(result[i])[m]
        invariant forall k :: 0 <= k < i ==> result[k] == SerializeRow(old(result[k]))
        invariant forall k :: i < k < result.Length ==> result[k] == old(result[k])
      {
        var (key, value) := result[i][j];
        result[i] := result[i][j := (key, MakeJsonSerializable(value))];
      }
    }
  }

  /** The suffix of the export file: `.csv` for `csv`, `.xlsx` for anything else. */
  function ExportSuffix(format: string): (s: string)
    ensures s == ".csv" || s == ".xlsx"
    ensures s == ".csv" <==> format == "csv"
  {
    if format == "csv" then ".csv" else ".xlsx"
  }

  /**
   * The response once the rows are fetched and converted. `failure` is the
   * text of the exception the file writing or the upload raises, if any; an
   * export format other than `csv` and `excel` raises one of its own before
   * either is attempted.
   */
  function ExportOutcome(format: string, data: seq<Row>, failure: Option<string>): (r: Response)
    ensures r.Succeeded?
    ensures r.data.Some? <==> format == []
    ensures r.data.Some? ==> r.data.value == data && r.message == "Query succeeded"
    ensures r.exportError.Some? <==> r.message == "Query succeeded but export failed"
    ensures format != [] && format != "csv" && format != "excel" ==> r.exportError == Some(UnsupportedFormat)
    ensures (format == "csv" || format == "excel") ==> r.exportError == failure
    ensures (format == "csv" || format == "excel") && failure.None? ==>
      r.message == "Query and export to " + format + " successful"
  {
    if format == [] then Succeeded("Query succeeded", Some(data), None)
    else
      var err := if format == "csv" || format == "excel" then failure else Some(UnsupportedFormat);
      match err
      case None => Succeeded("Query and export to " + format + " successful", None, None)
      case Some(e) => Succeeded("Query succeeded but export failed", None, Some(e))
  }

  /** An unsupported format reports the same outcome whatever the export would have done. */
  lemma UnsupportedIgnoresFailure(format: string, data: seq<Row>, f1: Option<string>, f2: Option<string>)
    requires format != [] && format != "csv" && format != "excel"
    ensures ExportOutcome(format, data, f1) == ExportOutcome(format, data, f2)
  {
  }

  /**
   * `postgres_query_agent` of the first MCP server after its preliminary
   * platform call. `fetch` is the database (the rows `conn.fetch` returns for
   * a query text, or the text of its exception) and `exportFailure` the
   * outcome of writing and uploading the export file.
   */
  method PostgresQueryAgent(request: string, exportFormat: string := DefaultExportFormat,
                            fetch: string -> Result<seq<Row>, string>, exportFailure: Option<string>)
    returns (response: Response)
    ensures !IsSelect(Strip(request)) ==> response == ValidationError
    ensures IsSelect(Strip(request)) ==>
      match fetch(Strip(request))
      case Err(e) => response == Failed("database_error", e)
      case Ok(rows) => response == ExportOutcome(exportFormat, SerializeAll(rows), exportFailure)
  {
    var sql := Strip(request);
    if !IsSelect(sql) {
      return ValidationError;
    }
    match fetch(sql)
    case Err(e) =>
      response := Failed("database_error", e);
    case Ok(rows) =>
      var result := new Row[|rows|](i requires 0 <= i < |rows| => rows[i]);
      SerializeRows(result);
      assert result[..] == SerializeAll(rows);
      response := ExportOutcome(exportFormat, result[..], exportFailure);
  }
}
