/** The table writer (`save_to_csv`): pivots the records into a table whose columns are
    `input_list` followed by every algorithm name in sorted order, one row per record.
    A row is a sequence of cell strings; the CSV byte encoding is not modelled. */
module CsvTable {
  import opened Wrappers
  import opened StringOrder
  import opened LogParser

  /** Every key of every record except `input_list`. */
  function AlgorithmNames(results: seq<Record>): (names: set<string>)
    ensures InputListKey !in names
    ensures forall i :: 0 <= i < |results| ==> results[i].Keys - {InputListKey} <= names
    ensures forall k :: k in names ==> exists i :: 0 <= i < |results| && k in results[i]
  {
    set i, k | 0 <= i < |results| && k in results[i] && k != InputListKey :: k
  }

  /** `["input_list"] + sorted(set(key for result in results for key in result.keys()
      if key != "input_list"))`. */
  function Columns(results: seq<Record>): (cols: seq<string>)
    ensures |cols| >= 1 && cols[0] == InputListKey
    ensures StrictlyAscending(cols[1..])
    ensures forall k :: k in cols[1..] <==> k != InputListKey && exists i :: 0 <= i < |results| && k in results[i]
    ensures forall i, k :: 0 <= i < |results| && k in results[i] ==> k in cols
  {
    var names := AlgorithmNames(results);
    var cols := [InputListKey] + SortedStrings(names);
    assert cols[1..] == SortedStrings(names);
    forall i, k | 0 <= i < |results| && k in results[i]
      ensures k in cols
    {
      if k != InputListKey {
        assert k in names;
      }
    }
    cols
  }

  /** No column name occurs twice. */
  predicate Distinct(cols: seq<string>)
  {
    forall i, j :: 0 <= i < j < |cols| ==> cols[i] != cols[j]
  }

  /** The header names every column once: `input_list` is not among the algorithm names,
      and those are strictly ascending. */
  lemma ColumnsDistinct(results: seq<Record>)
    ensures Distinct(Columns(results))
  {
    var cols := Columns(results);
    assert InputListKey !in cols[1..];
    DistinctAfterHead(cols);
  }

  /** A name followed by strictly ascending names it is not among has no repeats. */
  lemma DistinctAfterHead(cols: seq<string>)
    requires |cols| >= 1 && cols[0] !in cols[1..] && StrictlyAscending(cols[1..])
    ensures Distinct(cols)
  {
    var rest := cols[1..];
    forall i, j | 0 <= i < j < |cols|
      ensures cols[i] != cols[j]
    {
      assert cols[j] == rest[j - 1];
      if i > 0 {
        assert cols[i] == rest[i - 1];
        assert Below(rest[i - 1], rest[j - 1]);
        BelowIrreflexive(cols[i]);
      }
    }
  }

  /** `rowdict.get(key, "")`: a column the record lacks is an empty cell. */
  function Cell(rec: Record, key: string): (cell: string)
    ensures key in rec ==> cell == rec[key]
    ensures key !in rec ==> cell == ""
  {
    if key in rec then rec[key] else ""
  }

  /** `DictWriter` turning one record into a row: it raises `ValueError` for a key that is
      not a column; otherwise the row has a cell for every column, in column order. */
  function RowOf(rec: Record, fieldnames: seq<string>): (r: Option<seq<string>>)
    ensures r.None? <==> exists k :: k in rec && k !in fieldnames
    ensures r.Some? ==> |r.value| == |fieldnames|
    ensures r.Some? ==> forall j :: 0 <= j < |fieldnames| && fieldnames[j] in rec ==> r.value[j] == rec[fieldnames[j]]
    ensures r.Some? ==> forall j :: 0 <= j < |fieldnames| && fieldnames[j] !in rec ==> r.value[j] == ""
  {
    if rec.Keys <= (set f | f in fieldnames) then
      Some(seq(|fieldnames|, j requires 0 <= j < |fieldnames| => Cell(rec, fieldnames[j])))
    else
      None
  }

  /** The record of a row's non-empty cells, each keyed by its column: the dict
      `csv.DictReader` returns for the row, without its `''` entries. */
  function RecordOfRow(fieldnames: seq<string>, row: seq<string>): Record
    requires |row| == |fieldnames| && Distinct(fieldnames)
  {
    map j | 0 <= j < |fieldnames| && row[j] != [] :: fieldnames[j] := row[j]
  }

  /** A record whose keys are all columns and whose values are all non-empty is written
      without loss: the record of its row's non-empty cells is the record itself. */
  lemma RowRoundTrip(rec: Record, fieldnames: seq<string>)
    requires Distinct(fieldnames)
    requires forall k :: k in rec ==> k in fieldnames
    requires forall k :: k in rec ==> rec[k] != []
    ensures RowOf(rec, fieldnames).Some?
    ensures RecordOfRow(fieldnames, RowOf(rec, fieldnames).value) == rec
  {
    var row := RowOf(rec, fieldnames).value;
    var back := RecordOfRow(fieldnames, row);
    forall k | k in rec
      ensures k in back && back[k] == rec[k]
    {
      var j :| 0 <= j < |fieldnames| && fieldnames[j] == k;
      assert row[j] == rec[k];
    }
    forall k | k in back
      ensures k in rec
    {
      var j :| 0 <= j < |fieldnames| && row[j] != [] && fieldnames[j] == k;
    }
  }

  /** `writerow` does not raise for any record under the header built from all records. */
  lemma RowWritten(results: seq<Record>, i: nat, fieldnames: seq<string>)
    requires i < |results| && fieldnames == Columns(results)
    ensures RowOf(results[i], fieldnames).Some?
  {
    var rec := results[i];
    assert forall k :: k in rec ==> k in fieldnames;
  }

  /** A written row holds, column by column, the record's cell for that column. */
  lemma RowHoldsCells(rec: Record, fieldnames: seq<string>, row: seq<string>)
    requires RowOf(rec, fieldnames) == Some(row)
    ensures |row| == |fieldnames|
    ensures forall j :: 0 <= j < |row| ==> row[j] == Cell(rec, fieldnames[j])
  {
  }

  /** The rows after the header hold, column by column, their records' cells. */
  lemma RowsHoldCells(results: seq<Record>, rows: seq<seq<string>>)
    requires |rows| == |results| + 1
    requires forall k :: 1 <= k < |rows| ==> RowOf(results[k - 1], rows[0]) == Some(rows[k])
    ensures forall i :: 0 <= i < |rows| ==> |rows[i]| == |rows[0]|
    ensures forall i, j :: 1 <= i < |rows| && 0 <= j < |rows[i]| ==> rows[i][j] == Cell(results[i - 1], rows[0][j])
  {
    forall i | 1 <= i < |rows|
      ensures |rows[i]| == |rows[0]|
      ensures forall j :: 0 <= j < |rows[i]| ==> rows[i][j] == Cell(results[i - 1], rows[0][j])
    {
      RowHoldsCells(results[i - 1], rows[0], rows[i]);
    }
  }

  /** The script's pipeline: every record a successful parse yields is written as a row
      whose non-empty cells, keyed by the header, are that very record. */
  lemma ParsedRecordsSurvive(content: string)
    requires ParseLog(content).Ok?
    ensures var rs := ParseLog(content).value;
      forall i :: 0 <= i < |rs| ==> Survives(rs[i], Columns(rs))
  {
    ParsedValuesAllNonEmpty(content);
    RecordsSurvive(ParseLog(content).value);
  }

  /** Every value of every record a successful parse yields is non-empty. */
  lemma ParsedValuesAllNonEmpty(content: string)
    requires ParseLog(content).Ok?
    ensures var rs := ParseLog(content).value;
      forall i, k :: 0 <= i < |rs| && k in rs[i] ==> rs[i][k] != []
  {
    var rs := ParseLog(content).value;
    var chunks := TestCases(content);
    ParseLogMeaning(content);
    forall i | 0 <= i < |rs|
      ensures forall k :: k in rs[i] ==> rs[i][k] != []
    {
      ParsedValuesNonEmpty(chunks[i], rs[i]);
    }
  }

  /** Records with non-empty values all survive being written under their own header. */
  lemma RecordsSurvive(rs: seq<Record>)
    requires forall i, k :: 0 <= i < |rs| && k in rs[i] ==> rs[i][k] != []
    ensures forall i :: 0 <= i < |rs| ==> Survives(rs[i], Columns(rs))
  {
    var cols := Columns(rs);
    ColumnsDistinct(rs);
    forall i | 0 <= i < |rs|
      ensures Survives(rs[i], cols)
    {
      var rec := rs[i];
      assert forall k :: k in rec ==> k in cols;
      assert forall k :: k in rec ==> rec[k] != [];
      RowRoundTrip(rec, cols);
    }
  }

  /** `rec` is written as a row under `cols` whose non-empty cells are `rec`. */
  predicate Survives(rec: Record, cols: seq<string>)
  {
    && Distinct(cols)
    && RowOf(rec, cols).Some?
    && RecordOfRow(cols, RowOf(rec, cols).value) == rec
  }

  /** What `save_to_csv` leaves behind: nothing for an empty result set, otherwise the
      rows of the CSV file, header first. */
  datatype Report = NothingSaved | Written(rows: seq<seq<string>>)

  /** `save_to_csv` without the file: no file for an empty result set; otherwise the
      header row and then one row per record, in order. */
  method SaveToCsv(results: seq<Record>) returns (report: Report)
    ensures report.NothingSaved? <==> results == []
    ensures report.Written? ==> |report.rows| == |results| + 1 && report.rows[0] == Columns(results)
    ensures report.Written? ==> forall i :: 0 <= i < |report.rows| ==> |report.rows[i]| == |report.rows[0]|
    ensures report.Written? ==>
      forall i, j :: 1 <= i < |report.rows| && 0 <= j < |report.rows[i]| ==> report.rows[i][j] == Cell(results[i - 1], report.rows[0][j])
  {
    if results == [] {
      return NothingSaved;
    }
    var fieldnames := Columns(results);
    var rows := [fieldnames];
    for i := 0 to |results|
      invariant |rows| == i + 1 && rows[0] == fieldnames
      invariant forall k :: 1 <= k <= i ==> RowOf(results[k - 1], fieldnames) == Some(rows[k])
    {
      var row := RowOf(results[i], fieldnames);
      RowWritten(results, i, fieldnames);
      rows := rows + [row.value];
    }
    RowsHoldCells(results, rows);
    return Written(rows);
  }
}
