/** From a raw table to a parsed file (`parseCSV`, `parseXLSX`,
    `normalizeRow`, `parseFile`): the rows after the header row become
    records keyed by the header cells, blank records are dropped, and the
    keys are normalised. The two readers share this model; they differ only
    in which header cells get a placeholder key. */
module FileParser {
  import opened Text
  import opened Inventory
  import opened Header

  /** Which reader runs: `parseCSV` or `parseXLSX`. */
  datatype Format = Csv | Xlsx

  newtype byte = b: int | 0 <= b < 256

  // ---- record keys ----

  /** The key a header cell without a usable name gets: `_empty_<column>`. */
  function Placeholder(i: nat): (k: string)
    ensures |k| > 7 && k[..7] == "_empty_" && k[7..] == NatToString(i)
  {
    "_empty_" + NatToString(i)
  }

  /** Different columns get different placeholders. */
  lemma PlaceholderInjective(i: nat, j: nat)
    ensures Placeholder(i) == Placeholder(j) ==> i == j
  {
    NatToStringInjective(i, j);
  }

  /** A header row the key builder can use: no cell is a non-zero number
      (`HeaderRowHasNoNumber` shows the chosen row is always one). */
  predicate TextRow(row: seq<Cell>) {
    forall c :: c in row ==> !NonzeroNumber(c)
  }

  /** Whether a header cell gets a placeholder: CSV replaces a falsy header
      (`header || ...`), XLSX also one that is blank once trimmed
      (`header && String(header).trim() ? ...`). */
  predicate NeedsPlaceholder(format: Format, cell: Cell) {
    match cell
    case Num(_) => true
    case Str(s) => s == [] || (format == Xlsx && Trim(s) == [])
  }

  /** The record key of header cell `i`. */
  function KeyOf(format: Format, cell: Cell, i: nat): (k: string)
    requires !NonzeroNumber(cell)
    ensures cell.Str? && cell.s != [] && (format == Csv || !AllSpace(cell.s)) ==> k == cell.s
    ensures cell.Num? || cell.s == [] || (format == Xlsx && AllSpace(cell.s)) ==> k == Placeholder(i)
  {
    if NeedsPlaceholder(format, cell) then Placeholder(i) else cell.s
  }

  // ---- records ----

  /** The keys of the header cells, column by column. */
  function HeaderKeys(format: Format, header: seq<Cell>): (ks: seq<string>)
    requires TextRow(header)
    ensures |ks| == |header|
    ensures forall j :: 0 <= j < |header| ==> ks[j] == KeyOf(format, header[j], j)
  {
    seq(|header|, j requires 0 <= j < |header| => KeyOf(format, header[j], j))
  }

  // ---- objects ----

  /** A JavaScript object with string keys: its keys in first-insertion
      order and its current values. */
  datatype Obj = Obj(keys: seq<string>, vals: map<string, Cell>)

  const EmptyObj := Obj([], map[])

  /** `obj[k] = v`: a new key goes to the end, an existing one keeps its place. */
  function Put(o: Obj, k: string, v: Cell): Obj {
    Obj(if k in o.vals then o.keys else o.keys + [k], o.vals[k := v])
  }

  /** The keys list the properties exactly, each once. */
  ghost predicate ValidObj(o: Obj) {
    (forall k :: k in o.vals <==> k in o.keys) &&
    forall i, j :: 0 <= i < j < |o.keys| ==> o.keys[i] != o.keys[j]
  }

  /** A fresh object after `obj[keys[i]] = cells[i]` for `i` below `n`, in order. */
  function Assign(keys: seq<string>, cells: seq<Cell>, n: nat): Obj
    requires n <= |keys| == |cells|
  {
    if n == 0 then EmptyObj else Put(Assign(keys, cells, n - 1), keys[n - 1], cells[n - 1])
  }

  /** One more assignment. */
  lemma AssignNext(keys: seq<string>, cells: seq<Cell>, n: nat, k: string, v: Cell)
    requires n < |keys| == |cells| && k == keys[n] && v == cells[n]
    ensures Put(Assign(keys, cells, n), k, v) == Assign(keys, cells, n + 1)
    ensures Assign(keys, cells, n).vals[k := v] == Assign(keys, cells, n + 1).vals
  {
  }

  /** The object holds each assigned key once and nothing else. */
  lemma {:induction false} AssignKeys(keys: seq<string>, cells: seq<Cell>, n: nat)
    requires n <= |keys| == |cells|
    ensures ValidObj(Assign(keys, cells, n))
    ensures forall k :: k in Assign(keys, cells, n).vals <==> k in keys[..n]
  {
    if n > 0 {
      AssignKeys(keys, cells, n - 1);
      var o := Assign(keys, cells, n - 1);
      var k := keys[n - 1];
      assert keys[..n] == keys[..n - 1] + [k];
      if k !in o.vals {
        assert forall i :: 0 <= i < |o.keys| ==> (o.keys + [k])[i] == o.keys[i];
      }
    }
  }

  /** Distinct assigned keys are the object's keys, in assignment order. */
  lemma {:induction false} AssignKeysInOrder(keys: seq<string>, cells: seq<Cell>, n: nat)
    requires n <= |keys| == |cells|
    requires forall i, j :: 0 <= i < j < n ==> keys[i] != keys[j]
    ensures Assign(keys, cells, n).keys == keys[..n]
  {
    if n > 0 {
      AssignKeysInOrder(keys, cells, n - 1);
      AssignKeys(keys, cells, n - 1);
      assert keys[n - 1] !in keys[..n - 1];
      assert keys[..n] == keys[..n - 1] + [keys[n - 1]];
    }
  }

  /** Which keys the object has, and in which order, does not depend on the values. */
  lemma {:induction false} AssignKeysIgnoreCells(keys: seq<string>, a: seq<Cell>, b: seq<Cell>, n: nat)
    requires n <= |keys| == |a| == |b|
    ensures Assign(keys, a, n).keys == Assign(keys, b, n).keys
    ensures Assign(keys, a, n).vals.Keys == Assign(keys, b, n).vals.Keys
  {
    if n > 0 {
      AssignKeysIgnoreCells(keys, a, b, n - 1);
    }
  }

  /** A key holds the value of its last assignment: a later column of the
      same name overwrites an earlier one. */
  lemma {:induction false} AssignValue(keys: seq<string>, cells: seq<Cell>, n: nat, j: nat)
    requires j < n <= |keys| == |cells|
    requires forall i :: j < i < n ==> keys[i] != keys[j]
    ensures keys[j] in Assign(keys, cells, n).vals && Assign(keys, cells, n).vals[keys[j]] == cells[j]
  {
    if j < n - 1 {
      AssignValue(keys, cells, n - 1, j);
    }
  }

  /** Every value of the object is one of the assigned cells. */
  lemma {:induction false} AssignValuesFromCells(keys: seq<string>, cells: seq<Cell>, n: nat)
    requires n <= |keys| == |cells|
    ensures forall k :: k in Assign(keys, cells, n).vals ==> Assign(keys, cells, n).vals[k] in cells[..n]
  {
    if n > 0 {
      AssignValuesFromCells(keys, cells, n - 1);
      assert cells[..n] == cells[..n - 1] + [cells[n - 1]];
    }
  }

  // ---- records ----

  /** `row[index] ?? ''`: a cell missing past the row's end reads as empty text. */
  function CellAt(row: seq<Cell>, i: nat): Cell {
    if i < |row| then row[i] else Str("")
  }

  /** The row's cells under the `width` header columns. */
  function Cells(row: seq<Cell>, width: nat): (cs: seq<Cell>)
    ensures |cs| == width
    ensures forall i :: 0 <= i < width ==> cs[i] == CellAt(row, i)
  {
    seq(width, i requires 0 <= i < width => CellAt(row, i))
  }

  /** The record a data row becomes. */
  function Record(format: Format, header: seq<Cell>, row: seq<Cell>): Obj
    requires TextRow(header)
  {
    Assign(HeaderKeys(format, header), Cells(row, |header|), |header|)
  }

  /** The record of one data row, built as the source builds it: a loop over
      the header cells that assigns each cell of the row to its key. */
  method BuildRecord(format: Format, header: seq<Cell>, row: seq<Cell>) returns (obj: Obj)
    requires TextRow(header)
    ensures obj == Record(format, header, row)
    ensures ValidObj(obj)
  {
    var keys, cells := HeaderKeys(format, header), Cells(row, |header|);
    obj := EmptyObj;
    for index := 0 to |header|
      invariant obj == Assign(keys, cells, index)
    {
      obj := Put(obj, KeyOf(format, header[index], index), CellAt(row, index));
    }
    AssignKeys(keys, cells, |header|);
  }

  /** The record has exactly the header cells' keys, in the same order for
      every data row. */
  lemma RecordKeys(format: Format, header: seq<Cell>, a: seq<Cell>, b: seq<Cell>)
    requires TextRow(header)
    ensures Record(format, header, a).keys == Record(format, header, b).keys
    ensures forall k :: k in Record(format, header, a).vals <==>
      exists j :: 0 <= j < |header| && KeyOf(format, header[j], j) == k
  {
    var keys := HeaderKeys(format, header);
    AssignKeysIgnoreCells(keys, Cells(a, |header|), Cells(b, |header|), |header|);
    AssignKeys(keys, Cells(a, |header|), |header|);
    assert keys[..|header|] == keys;
  }

  /** Each key holds the row's cell in the last column with that key; a cell
      missing past the row's end reads as empty text. */
  lemma RecordValue(format: Format, header: seq<Cell>, row: seq<Cell>, j: nat)
    requires TextRow(header) && j < |header|
    requires forall i :: j < i < |header| ==> KeyOf(format, header[i], i) != KeyOf(format, header[j], j)
    ensures KeyOf(format, header[j], j) in Record(format, header, row).vals
    ensures Record(format, header, row).vals[KeyOf(format, header[j], j)] == CellAt(row, j)
  {
    AssignValue(HeaderKeys(format, header), Cells(row, |header|), |header|, j);
  }

  /** Cells beyond the header width are ignored. */
  lemma RecordIgnoresExtraCells(format: Format, header: seq<Cell>, row: seq<Cell>)
    requires TextRow(header) && |header| <= |row|
    ensures Record(format, header, row) == Record(format, header, row[..|header|])
  {
    assert Cells(row, |header|) == Cells(row[..|header|], |header|);
  }

  /** A value that counts as content: anything but text that is blank once
      trimmed (a number always renders as non-empty text). */
  predicate Content(c: Cell) {
    match c
    case Str(s) => Trim(s) != []
    case Num(_) => true
  }

  /** The filter `Object.values(record).some(...)`: some value is content. */
  predicate HasContent(o: Obj) {
    exists k :: k in o.vals && Content(o.vals[k])
  }

  /** A record has content iff some column's value is content; when the
      header keys are distinct that is some cell under the header. */
  lemma RecordContent(format: Format, header: seq<Cell>, row: seq<Cell>)
    requires TextRow(header)
    ensures (forall j :: 0 <= j < |header| ==> !Content(CellAt(row, j))) ==> !HasContent(Record(format, header, row))
    ensures (forall i, j :: 0 <= i < j < |header| ==> KeyOf(format, header[i], i) != KeyOf(format, header[j], j)) ==>
      (HasContent(Record(format, header, row)) <==> exists j :: 0 <= j < |header| && Content(CellAt(row, j)))
  {
    var keys, cells := HeaderKeys(format, header), Cells(row, |header|);
    var o := Record(format, header, row);
    AssignKeys(keys, cells, |header|);
    AssignValuesFromCells(keys, cells, |header|);
    assert cells[..|header|] == cells;
    assert keys[..|header|] == keys;
    if j :| 0 <= j < |header| && Content(CellAt(row, j)) {
      if forall i :: j < i < |header| ==> keys[i] != keys[j] {
        AssignValue(keys, cells, |header|, j);
        assert Content(o.vals[keys[j]]);
      }
    }
  }

  /** The records of the data rows, one per row, before the filter. */
  function Records(format: Format, header: seq<Cell>, rows: seq<seq<Cell>>): (r: seq<Obj>)
    requires TextRow(header)
    ensures |r| == |rows|
    ensures forall i :: 0 <= i < |rows| ==> r[i] == Record(format, header, rows[i])
  {
    seq(|rows|, i requires 0 <= i < |rows| => Record(format, header, rows[i]))
  }

  /** The records that survive the filter, in row order. */
  function KeptRecords(format: Format, header: seq<Cell>, rows: seq<seq<Cell>>): seq<Obj>
    requires TextRow(header)
  {
    Filter(HasContent, Records(format, header, rows))
  }

  // ---- normalised rows ----

  /** `obj[h]` as `normalizeRow` turns it into a row value: text or number
      as found, `''` for a missing property. */
  function ValueOf(o: Obj, h: string): Cell {
    if h in o.vals then o.vals[h] else Str("")
  }

  /** The values of the raw keys. */
  function ValuesOf(o: Obj, rawHeaders: seq<string>): (vs: seq<Cell>)
    ensures |vs| == |rawHeaders|
    ensures forall i :: 0 <= i < |rawHeaders| ==> vs[i] == ValueOf(o, rawHeaders[i])
  {
    seq(|rawHeaders|, i requires 0 <= i < |rawHeaders| => ValueOf(o, rawHeaders[i]))
  }

  /** `rawHeaders.map(normalizeKey)`. */
  function NormalizedKeys(rawHeaders: seq<string>): (ks: seq<string>)
    ensures |ks| == |rawHeaders|
    ensures forall i :: 0 <= i < |rawHeaders| ==> ks[i] == NormalizeKey(rawHeaders[i])
  {
    seq(|rawHeaders|, i requires 0 <= i < |rawHeaders| => NormalizeKey(rawHeaders[i]))
  }

  /** The row `normalizeRow` returns: each value under its normalised key. */
  function NormalizedRow(o: Obj, rawHeaders: seq<string>): InventoryRow {
    Assign(NormalizedKeys(rawHeaders), ValuesOf(o, rawHeaders), |rawHeaders|).vals
  }

  /** `normalizeRow`: a loop over the raw keys that stores each value under
      the normalised key. */
  method NormalizeRow(o: Obj, rawHeaders: seq<string>) returns (row: InventoryRow)
    ensures row == NormalizedRow(o, rawHeaders)
  {
    var names, values := NormalizedKeys(rawHeaders), ValuesOf(o, rawHeaders);
    row := map[];
    for i := 0 to |rawHeaders|
      invariant row == Assign(names, values, i).vals
    {
      var key := NormalizeKey(rawHeaders[i]);
      var value := ValueOf(o, rawHeaders[i]);
      AssignNext(names, values, i, key, value);
      row := row[key := value];
    }
  }

  /** The row maps exactly the normalised raw keys, and under a name that
      several raw keys share it keeps the value of the last of them. */
  lemma NormalizedRowContents(o: Obj, rawHeaders: seq<string>)
    ensures forall k :: k in NormalizedRow(o, rawHeaders) <==> k in NormalizedKeys(rawHeaders)
    ensures forall j ::
      (0 <= j < |rawHeaders| && forall i :: j < i < |rawHeaders| ==> NormalizeKey(rawHeaders[i]) != NormalizeKey(rawHeaders[j])) ==>
      NormalizeKey(rawHeaders[j]) in NormalizedRow(o, rawHeaders) &&
      NormalizedRow(o, rawHeaders)[NormalizeKey(rawHeaders[j])] == ValueOf(o, rawHeaders[j])
  {
    var names, values := NormalizedKeys(rawHeaders), ValuesOf(o, rawHeaders);
    AssignKeys(names, values, |rawHeaders|);
    assert names[..|rawHeaders|] == names;
    forall j | 0 <= j < |rawHeaders| &&
      (forall i :: j < i < |rawHeaders| ==> NormalizeKey(rawHeaders[i]) != NormalizeKey(rawHeaders[j]))
      ensures NormalizeKey(rawHeaders[j]) in NormalizedRow(o, rawHeaders)
      ensures NormalizedRow(o, rawHeaders)[NormalizeKey(rawHeaders[j])] == ValueOf(o, rawHeaders[j])
    {
      AssignValue(names, values, |rawHeaders|, j);
    }
  }

  // ---- the parsed file ----

  /** `records.map((r) => normalizeRow(r, rawHeaders))`. */
  function NormalizedRows(records: seq<Obj>, rawHeaders: seq<string>): (rows: seq<InventoryRow>)
    ensures |rows| == |records|
    ensures forall i :: 0 <= i < |records| ==> rows[i] == NormalizedRow(records[i], rawHeaders)
  {
    seq(|records|, i requires 0 <= i < |records| => NormalizedRow(records[i], rawHeaders))
  }

  /** The file made of the kept records: empty when there is none, else the
      first record's keys, normalised, as headers and every record as a row. */
  function FileOfRecords(records: seq<Obj>): ParsedFile {
    if records == [] then EmptyFile
    else
      var rawHeaders := records[0].keys;
      ParsedFile(NormalizedKeys(rawHeaders), NormalizedRows(records, rawHeaders))
  }

  /** The file the data rows under a header row give. */
  function TableFile(format: Format, header: seq<Cell>, rows: seq<seq<Cell>>): ParsedFile
    requires TextRow(header)
  {
    FileOfRecords(KeptRecords(format, header, rows))
  }

  /** The parsed file from the raw table, or why there is none: no rows give
      the empty file; otherwise the records of the rows after the header row. */
  function ParsedTable(format: Format, t: Table): Result<ParsedFile> {
    if t == [] then Ok(EmptyFile)
    else
      match HeaderRowIndex(t)
      case Err(e) => Err(e)
      case Ok(h) =>
        HeaderRowHasNoNumber(t);
        Ok(TableFile(format, t[h], t[h + 1..]))
  }

  /** The records of one more row. */
  lemma RecordsAppend(format: Format, header: seq<Cell>, rows: seq<seq<Cell>>, i: nat)
    requires TextRow(header) && i < |rows|
    ensures Records(format, header, rows[..i + 1]) ==
      Records(format, header, rows[..i]) + [Record(format, header, rows[i])]
  {
    var a, b := Records(format, header, rows[..i + 1]), Records(format, header, rows[..i]);
    assert forall k :: 0 <= k < i ==> a[k] == b[k];
  }

  /** The loop over the data rows: build each record, keep those with content. */
  method CollectRecords(format: Format, headerRow: seq<Cell>, dataRows: seq<seq<Cell>>) returns (records: seq<Obj>)
    requires TextRow(headerRow)
    ensures records == KeptRecords(format, headerRow, dataRows)
  {
    records := [];
    for i := 0 to |dataRows|
      invariant records == Filter(HasContent, Records(format, headerRow, dataRows[..i]))
    {
      var obj := BuildRecord(format, headerRow, dataRows[i]);
      RecordsAppend(format, headerRow, dataRows, i);
      FilterAppend(HasContent, Records(format, headerRow, dataRows[..i]), obj);
      if HasContent(obj) {
        records := records + [obj];
      }
    }
    assert dataRows[..|dataRows|] == dataRows;
  }

  /** The loop over the kept records: normalise each against the first one's keys. */
  method NormalizeRecords(records: seq<Obj>) returns (file: ParsedFile)
    ensures file == FileOfRecords(records)
  {
    if records == [] {
      return EmptyFile;
    }
    var rawHeaders := records[0].keys;
    var headers := NormalizedKeys(rawHeaders);
    var rows: seq<InventoryRow> := [];
    for i := 0 to |records|
      invariant |rows| == i
      invariant forall k :: 0 <= k < i ==> rows[k] == NormalizedRow(records[k], rawHeaders)
    {
      var row := NormalizeRow(records[i], rawHeaders);
      rows := rows + [row];
    }
    assert rows == NormalizedRows(records, rawHeaders);
    file := ParsedFile(headers, rows);
  }

  /** The rows after the header row: collect the kept records, normalise them. */
  method ParseDataRows(format: Format, headerRow: seq<Cell>, dataRows: seq<seq<Cell>>) returns (file: ParsedFile)
    requires TextRow(headerRow)
    ensures file == TableFile(format, headerRow, dataRows)
  {
    var records := CollectRecords(format, headerRow, dataRows);
    file := NormalizeRecords(records);
  }

  /** A header scan that throws fails the parse with the same error. */
  lemma ParsedTableOfFailedScan(format: Format, t: Table)
    requires t != [] && HeaderRowIndex(t).Err?
    ensures ParsedTable(format, t) == Err(HeaderRowIndex(t).error)
  {
  }

  /** A table with rows whose header scan succeeds parses to the file of the
      rows after the header row, and that row holds no non-zero number. */
  lemma ParsedTableOfHeader(format: Format, t: Table)
    requires t != [] && HeaderRowIndex(t).Ok?
    ensures HeaderRowIndex(t).value < |t| && TextRow(t[HeaderRowIndex(t).value])
    ensures ParsedTable(format, t) ==
      Ok(TableFile(format, t[HeaderRowIndex(t).value], t[HeaderRowIndex(t).value + 1..]))
  {
    HeaderRowHasNoNumber(t);
  }

  /** A table whose header row is `h` parses to the file of the rows after it. */
  lemma ParsedTableAtRow(format: Format, t: Table, h: nat)
    requires t != [] && HeaderRowIndex(t).Ok? && HeaderRowIndex(t).value == h && h < |t| && TextRow(t[h])
    ensures ParsedTable(format, t) == Ok(TableFile(format, t[h], t[h + 1..]))
  {
    ParsedTableOfHeader(format, t);
  }

  /** `parseCSV` / `parseXLSX` from the reader's table on: the header scan,
      the records, the normalised file. */
  method ParseTable(format: Format, t: Table) returns (r: Result<ParsedFile>)
    ensures r == ParsedTable(format, t)
  {
    if |t| == 0 {
      return Ok(EmptyFile);
    }
    var located := LocateHeaderRow(t);
    if located.Err? {
      ParsedTableOfFailedScan(format, t);
      return Err(located.error);
    }
    var headerRowIndex := located.value;
    HeaderRowHasNoNumber(t);
    ParsedTableAtRow(format, t, headerRowIndex);
    var file := ParseDataRows(format, t[headerRowIndex], t[headerRowIndex + 1..]);
    r := Ok(file);
  }

  /** The data rows after the header: a row is kept iff its record has content. */
  lemma KeptRecordsOfRows(format: Format, header: seq<Cell>, rows: seq<seq<Cell>>)
    requires TextRow(header)
    ensures forall o :: o in KeptRecords(format, header, rows) <==>
      HasContent(o) && exists row :: row in rows && o == Record(format, header, row)
  {
    var rs := Records(format, header, rows);
    forall o | HasContent(o) && exists row :: row in rows && o == Record(format, header, row)
      ensures o in rs
    {
      var row :| row in rows && o == Record(format, header, row);
      var i :| 0 <= i < |rows| && rows[i] == row;
      assert rs[i] == o;
    }
  }

  /** Rows without content under the header leave no record, so the file is empty. */
  lemma TableFileOfBlankRows(format: Format, header: seq<Cell>, rows: seq<seq<Cell>>)
    requires TextRow(header)
    requires forall row, j :: row in rows && 0 <= j < |header| ==> !Content(CellAt(row, j))
    ensures KeptRecords(format, header, rows) == []
    ensures TableFile(format, header, rows) == EmptyFile
  {
    var rs := Records(format, header, rows);
    forall o | o in rs ensures !HasContent(o) {
      var i :| 0 <= i < |rows| && rs[i] == o;
      RecordContent(format, header, rows[i]);
    }
    FilterNone(HasContent, rs);
  }

  /** The keys of the header row's records (the same for every data row). */
  function HeaderRecordKeys(format: Format, header: seq<Cell>): seq<string>
    requires TextRow(header)
  {
    Record(format, header, []).keys
  }

  /** Every kept record has the header row's keys. */
  lemma KeptRecordsKeys(format: Format, header: seq<Cell>, rows: seq<seq<Cell>>)
    requires TextRow(header)
    ensures forall o :: o in KeptRecords(format, header, rows) ==> o.keys == HeaderRecordKeys(format, header)
  {
    KeptRecordsOfRows(format, header, rows);
    forall o | o in KeptRecords(format, header, rows) ensures o.keys == HeaderRecordKeys(format, header) {
      var row :| row in rows && o == Record(format, header, row);
      RecordKeys(format, header, row, []);
    }
  }

  /** The file made of records sharing their keys: the headers are those keys
      normalised, and every row maps exactly the headers. */
  lemma FileOfRecordsShape(records: seq<Obj>, keys: seq<string>)
    requires records != [] && records[0].keys == keys
    ensures FileOfRecords(records).headers == NormalizedKeys(keys)
    ensures forall row, k :: row in FileOfRecords(records).rows ==>
      (k in row <==> k in FileOfRecords(records).headers)
  {
    var p := FileOfRecords(records);
    forall row | row in p.rows ensures forall k :: k in row <==> k in p.headers {
      var i :| 0 <= i < |p.rows| && p.rows[i] == row;
      NormalizedRowContents(records[i], keys);
    }
  }

  /** A file with rows takes its headers from the header row: the keys of its
      cells, normalised; every row maps exactly those names. When the header
      cells' keys are distinct, the headers are those keys normalised, one per
      column, in column order. */
  lemma TableFileShape(format: Format, header: seq<Cell>, rows: seq<seq<Cell>>)
    requires TextRow(header) && TableFile(format, header, rows).rows != []
    ensures TableFile(format, header, rows).headers == NormalizedKeys(HeaderRecordKeys(format, header))
    ensures forall row, k :: row in TableFile(format, header, rows).rows ==>
      (k in row <==> k in TableFile(format, header, rows).headers)
    ensures (forall i, j :: 0 <= i < j < |header| ==> HeaderKeys(format, header)[i] != HeaderKeys(format, header)[j]) ==>
      TableFile(format, header, rows).headers == NormalizedKeys(HeaderKeys(format, header))
  {
    var records := KeptRecords(format, header, rows);
    KeptRecordsKeys(format, header, rows);
    FileOfRecordsShape(records, HeaderRecordKeys(format, header));
    var keys := HeaderKeys(format, header);
    if forall i, j :: 0 <= i < j < |header| ==> keys[i] != keys[j] {
      AssignKeysInOrder(keys, Cells([], |header|), |header|);
      assert keys[..|header|] == keys;
    }
  }

  /** When every data row has content, each becomes one row of the file, in
      source order. */
  lemma TableFileRows(format: Format, header: seq<Cell>, rows: seq<seq<Cell>>)
    requires TextRow(header) && rows != []
    requires forall row :: row in rows ==> HasContent(Record(format, header, row))
    ensures |TableFile(format, header, rows).rows| == |rows|
    ensures forall k :: 0 <= k < |rows| ==>
      TableFile(format, header, rows).rows[k] == NormalizedRow(Record(format, header, rows[k]), HeaderRecordKeys(format, header))
  {
    var rs := Records(format, header, rows);
    FilterAll(HasContent, rs);
    assert KeptRecords(format, header, rows) == rs;
    RecordKeys(format, header, rows[0], []);
  }

  // ---- choosing the reader ----

  /** The UTF-8 byte-order mark. */
  const Bom: seq<byte> := [0xEF, 0xBB, 0xBF]

  /** `parseFile`'s test: the CSV reader for a CSV MIME type or a buffer that
      starts with a byte-order mark, the workbook reader otherwise. */
  function ChooseFormat(buffer: seq<byte>, mimeType: string): (f: Format)
    ensures f == Csv <==> mimeType == "text/csv" || mimeType == "application/csv" || Bom <= buffer
  {
    var isCsv := mimeType == "text/csv" || mimeType == "application/csv" ||
      (|buffer| >= 3 && buffer[0] == 0xEF && buffer[1] == 0xBB && buffer[2] == 0xBF);
    if isCsv then Csv else Xlsx
  }

  /** The two readers (`csv-parse` and the workbook reader), which turn the
      bytes into a raw table or fail. */
  type Reader = (Format, seq<byte>) -> Result<Table>

  /** The parsed file of an upload. */
  function Parse(buffer: seq<byte>, mimeType: string, read: Reader): Result<ParsedFile> {
    var format := ChooseFormat(buffer, mimeType);
    match read(format, buffer)
    case Err(e) => Err(e)
    case Ok(t) => ParsedTable(format, t)
  }

  /** `parseFile`: pick the reader, read the table, parse it. */
  method ParseFile(buffer: seq<byte>, mimeType: string, read: Reader) returns (r: Result<ParsedFile>)
    ensures r == Parse(buffer, mimeType, read)
  {
    var format := ChooseFormat(buffer, mimeType);
    var table := read(format, buffer);
    if table.Err? {
      return Err(table.error);
    }
    r := ParseTable(format, table.value);
  }
}
