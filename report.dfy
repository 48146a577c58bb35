/**
 * The table save_to_csv writes: a header record, then one record per row of
 * read_collection_logs, each cell as the text `str()` gives it. Reading the table
 * back gives the rows again, so nothing of a row is lost in the report.
 */
module CsvReport {
  import opened Outcomes
  import opened PyText
  import opened PlexReport
  import opened SeqLemmas

  /** One CSV record: its cells, before quoting. */
  type Record = seq<string>

  const Header: Record := ["Collection", "Processed Movies", "Missing Movies"]

  /** The record of one row: the collection name, then both counts in decimal. */
  function RecordOf(row: Row): (r: Record)
    ensures |r| == 3 && r[0] == row.collection
    ensures NoSpace(r[1]) && NoSpace(r[2])
  {
    [row.collection, ShowInt(row.processed), ShowInt(row.missing)]
  }

  /** `writerows(collection_data)`: one record per row, in row order. */
  function RecordsOf(rows: seq<Row>): (records: seq<Record>)
    ensures |records| == |rows|
    ensures forall k :: 0 <= k < |rows| ==> |records[k]| == 3 && records[k][0] == rows[k].collection
    decreases |rows|
  {
    if rows == [] then [] else [RecordOf(rows[0])] + RecordsOf(rows[1..])
  }

  /** The whole file: the header record, then the records of the rows. */
  function ReportTable(rows: seq<Row>): (table: seq<Record>)
    ensures |table| == |rows| + 1 && table[0] == Header
    ensures forall k :: 0 <= k < |rows| ==> |table[k + 1]| == 3 && table[k + 1][0] == rows[k].collection
  {
    [Header] + RecordsOf(rows)
  }

  // ----- Reading the table back -----

  /** A record of three cells whose last two are integers gives back a row. */
  function ReadRecord(record: Record): (row: Option<Row>)
    ensures row.Some? ==> |record| == 3 && row.value.collection == record[0]
  {
    if |record| != 3 then None
    else match (ParseInt(record[1]), ParseInt(record[2]))
      case (Some(p), Some(m)) => Some(Row(record[0], p, m))
      case _ => None
  }

  function ReadRecords(records: seq<Record>): (rows: Option<seq<Row>>)
    ensures rows.Some? ==> |rows.value| == |records|
    decreases |records|
  {
    if records == [] then Some([])
    else match (ReadRecord(records[0]), ReadRecords(records[1..]))
      case (Some(row), Some(rest)) => Some([row] + rest)
      case _ => None
  }

  /** A table with the report's header, read back into rows. */
  function ReadTable(table: seq<Record>): (rows: Option<seq<Row>>)
    ensures rows.Some? ==> table != [] && table[0] == Header && |rows.value| == |table| - 1
  {
    if table == [] || table[0] != Header then None else ReadRecords(table[1..])
  }

  lemma RecordRoundTrip(row: Row)
    ensures ReadRecord(RecordOf(row)) == Some(row)
  {
    ParseShowInt(row.processed);
    ParseShowInt(row.missing);
  }

  lemma {:induction false} RecordsRoundTrip(rows: seq<Row>)
    ensures ReadRecords(RecordsOf(rows)) == Some(rows)
    decreases |rows|
  {
    if rows != [] {
      var records := RecordsOf(rows);
      RecordRoundTrip(rows[0]);
      RecordsRoundTrip(rows[1..]);
      DropFirstAppend([RecordOf(rows[0])], RecordsOf(rows[1..]));
      assert records[1..] == RecordsOf(rows[1..]);
      assert [rows[0]] + rows[1..] == rows;
    }
  }

  /** The report keeps every row: name and both counts can be read back from it. */
  lemma ReportRoundTrip(rows: seq<Row>)
    ensures ReadTable(ReportTable(rows)) == Some(rows)
  {
    var table := ReportTable(rows);
    DropFirstAppend([Header], RecordsOf(rows));
    assert table[1..] == RecordsOf(rows);
    RecordsRoundTrip(rows);
  }

  /** Different rows give different reports. */
  lemma ReportInjective(a: seq<Row>, b: seq<Row>)
    requires ReportTable(a) == ReportTable(b)
    ensures a == b
  {
    ReportRoundTrip(a);
    ReportRoundTrip(b);
  }

  /** A successful run's report has one record per selected folder, led by the header. */
  lemma ReportOfRun(folders: seq<Folder>, selected: seq<string>)
    requires ReadLogs(folders, selected).Ok?
    ensures ReportTable(ReadLogs(folders, selected).value)[0] == Header
    ensures |ReportTable(ReadLogs(folders, selected).value)| == |SelectedIndices(folders, selected)| + 1
  {
    ReadLogsRows(folders, selected);
  }
}
