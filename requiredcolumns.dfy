/** The `required_columns` rule (`validateRequiredColumns`): which of the
    required columns the normalised headers lack. */
module RequiredColumnsRule {
  import opened Text
  import opened Inventory

  /** Whether a column is absent from the headers (`!headers.includes(col)`). */
  function Absent(headers: seq<string>): string -> bool {
    col => col !in headers
  }

  /** The required columns the headers lack, in the order they are required. */
  function MissingColumns(headers: seq<string>): (missing: seq<string>)
    ensures forall col :: col in missing <==> col in RequiredColumns && col !in headers
  {
    Filter(Absent(headers), RequiredColumns)
  }

  /** The missing list spelled out: `status`, then `cost`, then `price`, each
      present exactly when the headers lack it. */
  lemma MissingColumnsInOrder(headers: seq<string>)
    ensures MissingColumns(headers) ==
      (if "status" in headers then [] else ["status"]) +
      (if "cost" in headers then [] else ["cost"]) +
      (if "price" in headers then [] else ["price"])
  {
    var p := Absent(headers);
    var rc := RequiredColumns;
    assert rc[..0] == [] && rc[..1] == [] + [rc[0]];
    assert rc[..2] == rc[..1] + [rc[1]] && rc[..3] == rc[..2] + [rc[2]] && rc == rc[..3];
    FilterAppend(p, rc[..0], rc[0]);
    FilterAppend(p, rc[..1], rc[1]);
    FilterAppend(p, rc[..2], rc[2]);
  }

  /** The result of the rule on `headers`; the rows play no part. */
  function RequiredColumnsResult(headers: seq<string>): ValidationResult {
    var missing := MissingColumns(headers);
    ValidationResult("required_columns", |missing| == 0,
      Required(RequiredColumns, if |missing| > 0 then Some(missing) else None, headers))
  }

  /** The rule passes iff every required column is a header, and then leaves
      `missing` undefined; it always reports the required list and the headers
      as found. */
  lemma RequiredColumnsPassedIff(headers: seq<string>)
    ensures RequiredColumnsResult(headers).passed <==> forall col :: col in RequiredColumns ==> col in headers
    ensures RequiredColumnsResult(headers).details.missing.None? <==> RequiredColumnsResult(headers).passed
    ensures RequiredColumnsResult(headers).details.required == ["status", "cost", "price"]
    ensures RequiredColumnsResult(headers).details.found == headers
  {
    var missing := MissingColumns(headers);
    if !RequiredColumnsResult(headers).passed {
      assert missing[0] in missing;
    }
  }

  /** With no headers at all (the empty file) the rule fails and reports all
      three columns missing. */
  lemma RequiredColumnsOfNoHeaders()
    ensures RequiredColumnsResult([]) ==
      ValidationResult("required_columns", false, Required(RequiredColumns, Some(RequiredColumns), []))
  {
    var none: seq<string> := [];
    MissingColumnsInOrder(none);
    assert "status" !in none && "cost" !in none && "price" !in none;
    assert MissingColumns(none) == ["status"] + ["cost"] + ["price"];
    assert MissingColumns(none) == RequiredColumns;
  }

  /** `validateRequiredColumns`: a loop over the required columns that pushes
      each one the headers lack. */
  method ValidateRequiredColumns(rows: seq<InventoryRow>, headers: seq<string>) returns (r: ValidationResult)
    ensures r == RequiredColumnsResult(headers)
  {
    var missing: seq<string> := [];
    for i := 0 to |RequiredColumns|
      invariant missing == Filter(Absent(headers), RequiredColumns[..i])
    {
      var col := RequiredColumns[i];
      FilterAppend(Absent(headers), RequiredColumns[..i], col);
      assert RequiredColumns[..i + 1] == RequiredColumns[..i] + [col];
      if col !in headers {
        missing := missing + [col];
      }
    }
    assert RequiredColumns[..|RequiredColumns|] == RequiredColumns;
    r := ValidationResult("required_columns", |missing| == 0,
      Required(RequiredColumns, if |missing| > 0 then Some(missing) else None, headers));
  }
}
