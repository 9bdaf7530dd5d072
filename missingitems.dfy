/** The `missing_items` rule (`validateMissingItems`): rows whose status is
    exactly one of the missing statuses. */
module MissingItemsRule {
  import opened Text
  import opened Inventory
  import opened StatusScan

  /** `MISSING_STATUSES`. */
  const MissingStatuses: seq<string> := ["MISSING", "MISSING INV"]

  /** The test on the upper-cased, trimmed status: an exact match, with no
      collapsing of inner white space. */
  predicate IsMissing(status: string) {
    status in MissingStatuses
  }

  /** The rule's result on the parsed rows and headers. */
  function MissingItemsResult(rows: seq<InventoryRow>, headers: seq<string>): ValidationResult {
    StatusRuleResult("missing_items", IsMissing, rows, headers)
  }

  /** Case and padding do not matter: ` missing inv ` is flagged. */
  lemma PaddedMissingFlagged()
    ensures Flagged(IsMissing, map["status" := Str(" missing inv ")], "status")
  {
    var t := "MISSING INV";
    assert ToUpper(" missing inv ") == " " + t + " ";
    TrimPadded(" ", t, " ");
  }

  /** Inner spacing does: `MISSING  INV`, with two spaces, is not flagged. */
  lemma DoubleSpacedMissingNotFlagged()
    ensures !Flagged(IsMissing, map["status" := Str("MISSING  INV")], "status")
  {
    var t := "MISSING  INV";
    assert ToUpper(t) == [] + t + [];
    TrimPadded([], t, []);
  }

  /** `validateMissingItems`: skip without a `status` header, else walk the
      rows and push an entry for each missing status. */
  method ValidateMissingItems(rows: seq<InventoryRow>, headers: seq<string>) returns (r: ValidationResult)
    ensures r == MissingItemsResult(rows, headers)
  {
    if StatusColumn !in headers {
      return ValidationResult("missing_items", true, Skipped(SkipMessage));
    }
    var statusCol := StatusColumn;
    var items: seq<StatusItem> := [];
    for idx := 0 to |rows|
      invariant items == StatusItems(IsMissing, rows[..idx], statusCol)
    {
      var row := rows[idx];
      var status := NormalizedStatus(row, statusCol);
      StatusItemsAppend(IsMissing, rows, statusCol, idx);
      if status.Some? && status.value in MissingStatuses {
        items := items + [StatusItem(idx + 2, ItemStatus(row, statusCol))];
      }
    }
    assert rows[..|rows|] == rows;
    r := ValidationResult("missing_items", |items| == 0, StatusCount(|items|, if |items| > 0 then Some(items) else None));
  }
}
