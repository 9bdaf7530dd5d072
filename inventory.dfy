/** The shapes shared by the parser, the validators and the upload summary:
    cells, inventory rows, the parsed file and the validation results. */
module Inventory {
  import opened Text

  /** A table cell as the readers hand it over and as an inventory row keeps
      it: text or a number. */
  datatype Cell = Str(s: string) | Num(n: real)

  /** One inventory row: normalised column name to value. */
  type InventoryRow = map<string, Cell>

  /** What the parser returns: the normalised header names and the rows. */
  datatype ParsedFile = ParsedFile(headers: seq<string>, rows: seq<InventoryRow>)

  /** The file with no header and no row. */
  const EmptyFile := ParsedFile([], [])

  /** The columns every inventory file must carry, in reporting order. */
  const RequiredColumns: seq<string> := ["status", "cost", "price"]

  /** A flagged row of a status rule: its index in the parsed rows plus 2
      (the sheet line only when the header is the first line and no blank
      row was dropped) and the status text as found. */
  datatype StatusItem = StatusItem(row: nat, status: string)

  /** A flagged row of the cost rule: its reported row number (as for a
      status rule) and both numbers. */
  datatype CostItem = CostItem(row: nat, cost: real, price: real)

  /** The rule-specific `details` object of a result; `None` stands for a
      property left `undefined`. */
  datatype Details =
    | Required(required: seq<string>, missing: Option<seq<string>>, found: seq<string>)
    | Skipped(message: string)
    | StatusCount(count: nat, items: Option<seq<StatusItem>>)
    | CostCount(total: nat, costItems: Option<seq<CostItem>>)

  datatype ValidationResult = ValidationResult(rule: string, passed: bool, details: Details)

  /** The elements of `s` that satisfy `p`, in their order in `s`. */
  function Filter<T(!new)>(p: T -> bool, s: seq<T>): (r: seq<T>)
    ensures |r| <= |s|
    ensures forall x :: x in r <==> x in s && p(x)
  {
    if s == [] then []
    else
      var r := Filter(p, s[..|s| - 1]);
      assert s == s[..|s| - 1] + [s[|s| - 1]];
      if p(s[|s| - 1]) then r + [s[|s| - 1]] else r
  }

  /** Filtering one more element. */
  lemma FilterAppend<T(!new)>(p: T -> bool, s: seq<T>, x: T)
    ensures Filter(p, s + [x]) == Filter(p, s) + (if p(x) then [x] else [])
  {
    assert (s + [x])[..|s|] == s;
  }

  /** A filter that every element passes keeps the sequence. */
  lemma {:induction false} FilterAll<T(!new)>(p: T -> bool, s: seq<T>)
    requires forall x :: x in s ==> p(x)
    ensures Filter(p, s) == s
  {
    if s != [] {
      var init := s[..|s| - 1];
      assert forall x :: x in init ==> x in s;
      FilterAll(p, init);
      assert Filter(p, s) == Filter(p, init) + [s[|s| - 1]];
      assert s == init + [s[|s| - 1]];
    }
  }

  /** A filter that no element passes leaves nothing. */
  lemma {:induction false} FilterNone<T(!new)>(p: T -> bool, s: seq<T>)
    requires forall x :: x in s ==> !p(x)
    ensures Filter(p, s) == []
  {
    if s != [] {
      var init := s[..|s| - 1];
      assert forall x :: x in init ==> x in s;
      FilterNone(p, init);
    }
  }

  /** `s.slice(0, n)`: at most the first `n` elements. */
  function Take<T>(s: seq<T>, n: nat): (r: seq<T>)
    ensures |r| == if |s| <= n then |s| else n
    ensures r == s[..|r|]
  {
    if |s| <= n then s else s[..n]
  }
}
