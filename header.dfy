/** Locating the header row of a raw table (`rowHasRequiredColumns` and the
    `for` loop over the first 50 rows in `parseCSV` and `parseXLSX`). */
module Header {
  import opened Text
  import opened Inventory

  /** A raw table as a reader produces it: rows of cells, rows may differ in length. */
  type Table = seq<seq<Cell>>

  /** Why parsing gives no file: the reader rejected the bytes, or the header
      scan met a numeric cell, on which `normalizeKey` raises a TypeError. */
  datatype ParseError = ReaderFailed(message: string) | HeaderCellNotText(row: nat)

  datatype Result<T> = Ok(value: T) | Err(error: ParseError)

  /** `normalizeKey`: lower-case, then trim. */
  function NormalizeKey(key: string): string {
    Trim(ToLower(key))
  }

  /** A normalised key is trimmed, the same as trimming first, and empty
      exactly for blank text. */
  lemma NormalizeKeyShape(key: string)
    ensures Trimmed(NormalizeKey(key))
    ensures NormalizeKey(key) == ToLower(Trim(key))
    ensures NormalizeKey(key) == [] <==> AllSpace(key)
  {
    TrimToLower(key);
  }

  /** Normalising twice is normalising once. */
  lemma NormalizeKeyIdempotent(key: string)
    ensures NormalizeKey(NormalizeKey(key)) == NormalizeKey(key)
  {
    var r := NormalizeKey(key);
    NormalizeKeyShape(key);
    ToLowerIdempotent(Trim(key));
    TrimShape(r);
    calc {
      NormalizeKey(r);
      Trim(ToLower(r));
      { assert ToLower(r) == r; }
      Trim(r);
      r;
    }
  }

  /** A non-zero number: truthy, so the header scan hands it to `normalizeKey`. */
  predicate NonzeroNumber(c: Cell) {
    c.Num? && c.n != 0.0
  }

  /** A cell the header scan keeps: truthy and not blank once trimmed. */
  predicate Nonblank(c: Cell) {
    match c
    case Str(s) => Trim(s) != []
    case Num(n) => n != 0.0
  }

  /** Text that normalises to `col` (a non-empty name) is not blank. */
  lemma NamedCellNonblank(s: string, col: string)
    requires col != [] && NormalizeKey(s) == col
    ensures Nonblank(Str(s))
  {
    NormalizeKeyShape(s);
  }

  /** `rowHasRequiredColumns`: the kept cells, normalised into a set, must
      hold every required column. `Some(b)` when the scan completes with
      answer `b`; `None` when a kept cell is a number, which makes
      `normalizeKey` throw. */
  function RowHasRequiredColumns(row: seq<Cell>): (r: Option<bool>)
    ensures r.None? <==> exists c :: c in row && NonzeroNumber(c)
  {
    var kept := Filter(Nonblank, row);
    if exists c :: c in kept && c.Num? then None
    else
      var names := set c | c in kept && c.Str? :: NormalizeKey(c.s);
      Some(forall col :: col in RequiredColumns ==> col in names)
  }

  /** A row with a cell that reads `col` once lower-cased and trimmed. */
  predicate Names(row: seq<Cell>, col: string) {
    exists c :: c in row && c.Str? && NormalizeKey(c.s) == col
  }

  /** A row is a header iff it has no non-zero number and names every
      required column, in any case and with any padding. */
  lemma RowHasRequiredColumnsIff(row: seq<Cell>)
    ensures RowHasRequiredColumns(row) == Some(true) <==>
      (forall c :: c in row ==> !NonzeroNumber(c)) &&
      forall col :: col in RequiredColumns ==> Names(row, col)
  {
    var kept := Filter(Nonblank, row);
    var names := set c | c in kept && c.Str? :: NormalizeKey(c.s);
    forall col | col in RequiredColumns ensures Names(row, col) <==> col in names {
      if Names(row, col) {
        var c :| c in row && c.Str? && NormalizeKey(c.s) == col;
        NamedCellNonblank(c.s, col);
        assert c in kept;
      }
    }
  }

  /** Extra cells, wherever they stand, never stop a header row from
      qualifying unless they are numbers. */
  lemma RowHasRequiredColumnsWithExtraCells(row: seq<Cell>, before: seq<Cell>, after: seq<Cell>)
    requires RowHasRequiredColumns(row) == Some(true)
    requires forall c :: c in before + after ==> !NonzeroNumber(c)
    ensures RowHasRequiredColumns(before + row + after) == Some(true)
  {
    var whole := before + row + after;
    RowHasRequiredColumnsIff(row);
    forall c | c in whole ensures !NonzeroNumber(c) {
      assert c in before + after || c in row;
    }
    forall col | col in RequiredColumns ensures Names(whole, col) {
      var c :| c in row && c.Str? && NormalizeKey(c.s) == col;
      assert c in whole;
    }
    RowHasRequiredColumnsIff(whole);
  }

  /** How many rows the header scan looks at: `Math.min(rows.length, 50)`. */
  function ScanEnd(t: Table): (n: nat)
    ensures n <= |t| && n <= 50
    ensures n == |t| || n == 50
  {
    if |t| < 50 then |t| else 50
  }

  /** The verdicts of `rowHasRequiredColumns` on the rows the scan looks at. */
  function Verdicts(t: Table): (v: seq<Option<bool>>)
    ensures |v| == ScanEnd(t)
    ensures forall j :: 0 <= j < |v| ==> v[j] == RowHasRequiredColumns(t[j])
  {
    seq(ScanEnd(t), j requires 0 <= j < ScanEnd(t) => RowHasRequiredColumns(t[j]))
  }

  /** The scan from verdict `i` on: the first qualifying row, 0 when no
      scanned row qualifies, an error at the first row that throws. */
  function Search(v: seq<Option<bool>>, i: nat): Result<nat>
    requires i <= |v|
    decreases |v| - i
  {
    if i == |v| then Ok(0)
    else
      match v[i]
      case None => Err(HeaderCellNotText(i))
      case Some(found) => if found then Ok(i) else Search(v, i + 1)
  }

  /** The header row index `parseCSV` and `parseXLSX` settle on. */
  function HeaderRowIndex(t: Table): Result<nat> {
    Search(Verdicts(t), 0)
  }

  /** The first `n` rows were scanned and neither qualified nor threw. */
  predicate Passed(t: Table, n: nat)
    requires n <= |t|
  {
    forall j :: 0 <= j < n ==> RowHasRequiredColumns(t[j]) == Some(false)
  }

  /** What the scan from verdict `i` returns, read back. */
  lemma {:induction false} SearchCases(v: seq<Option<bool>>, i: nat)
    requires i <= |v|
    ensures Search(v, i).Ok? ==>
      var h := Search(v, i).value;
      (i <= h < |v| && v[h] == Some(true) && forall j :: i <= j < h ==> v[j] == Some(false)) ||
      (h == 0 && forall j :: i <= j < |v| ==> v[j] == Some(false))
    ensures Search(v, i).Err? ==>
      var e := Search(v, i).error;
      e.HeaderCellNotText? && i <= e.row < |v| && v[e.row].None? &&
      forall j :: i <= j < e.row ==> v[j] == Some(false)
    decreases |v| - i
  {
    if i < |v| && v[i] == Some(false) {
      SearchCases(v, i + 1);
    }
  }

  /** The chosen header is the first qualifying row among the first
      `min(length, 50)`; otherwise, when no scanned row throws, it is row 0. */
  lemma HeaderRowIndexCases(t: Table)
    ensures HeaderRowIndex(t).Ok? ==>
      var h := HeaderRowIndex(t).value;
      (h < ScanEnd(t) && RowHasRequiredColumns(t[h]) == Some(true) && Passed(t, h)) ||
      (h == 0 && Passed(t, ScanEnd(t)))
    ensures HeaderRowIndex(t).Err? ==>
      var e := HeaderRowIndex(t).error;
      e.HeaderCellNotText? && e.row < ScanEnd(t) &&
      RowHasRequiredColumns(t[e.row]).None? && Passed(t, e.row)
  {
    var v := Verdicts(t);
    SearchCases(v, 0);
    var r := Search(v, 0);
    if r.Ok? && r.value < |v| && v[r.value] == Some(true) {
      assert forall j :: 0 <= j < r.value ==> v[j] == Some(false);
    } else if r.Ok? {
      assert forall j :: 0 <= j < |v| ==> v[j] == Some(false);
    } else {
      assert forall j :: 0 <= j < r.error.row ==> v[j] == Some(false);
    }
  }

  /** The scan finds the first qualifying verdict. */
  lemma {:induction false} SearchFinds(v: seq<Option<bool>>, i: nat, h: nat)
    requires i <= h < |v| && v[h] == Some(true)
    requires forall j :: i <= j < h ==> v[j] == Some(false)
    ensures Search(v, i) == Ok(h)
    decreases h - i
  {
    if i < h {
      SearchFinds(v, i + 1, h);
    }
  }

  /** Title rows above the header are skipped: when rows `0..h` do not
      qualify and row `h < 50` does, row `h` is the header. */
  lemma HeaderRowAfterTitleRows(t: Table, h: nat)
    requires h < ScanEnd(t) && RowHasRequiredColumns(t[h]) == Some(true) && Passed(t, h)
    ensures HeaderRowIndex(t) == Ok(h)
  {
    SearchFinds(Verdicts(t), 0, h);
  }

  /** A qualifying row at index 50 or later is never chosen. */
  lemma HeaderRowWithinLimit(t: Table)
    requires HeaderRowIndex(t).Ok?
    ensures HeaderRowIndex(t).value < 50
  {
    HeaderRowIndexCases(t);
  }

  /** The row the scan settles on never holds a non-zero number, so every
      cell of it is text or the falsy 0. */
  lemma HeaderRowHasNoNumber(t: Table)
    requires t != [] && HeaderRowIndex(t).Ok?
    ensures HeaderRowIndex(t).value < |t|
    ensures forall c :: c in t[HeaderRowIndex(t).value] ==> !NonzeroNumber(c)
  {
    HeaderRowIndexCases(t);
  }

  /** The header scan, as the source runs it: a loop over the first
      `min(length, 50)` rows that stops at the first qualifying one, then the
      fallback to row 0. */
  method LocateHeaderRow(t: Table) returns (r: Result<nat>)
    ensures r == HeaderRowIndex(t)
  {
    var headerRowIndex := -1;
    var i := 0;
    while i < ScanEnd(t)
      invariant i <= ScanEnd(t)
      invariant Search(Verdicts(t), i) == HeaderRowIndex(t)
      invariant headerRowIndex == -1
    {
      var found := RowHasRequiredColumns(t[i]);
      if found.None? {
        return Err(HeaderCellNotText(i));
      }
      if found.value {
        headerRowIndex := i;
        break;
      }
      i := i + 1;
    }
    if headerRowIndex < 0 {
      headerRowIndex := 0;
    }
    r := Ok(headerRowIndex);
  }
}
