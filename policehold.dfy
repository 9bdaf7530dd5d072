/** The `police_hold` rule (`validatePoliceHold`): rows whose status is a
    police hold, in either vocabulary and with any spacing between the two
    words. */
module PoliceHoldRule {
  import opened Text
  import opened Inventory
  import opened StatusScan

  /** `POLICE_HOLD_STATUSES`. */
  const PoliceHoldStatuses: seq<string> := ["POLICE_HOLD", "POLICE INVENTORY HOLD"]

  /** The test on the upper-cased, trimmed status: one of the listed
      statuses, or `POLICE_HOLD` once each run of white space becomes `_`. */
  predicate IsPoliceHold(status: string) {
    status in PoliceHoldStatuses || ReplaceSpaceRuns(status) == "POLICE_HOLD"
  }

  /** The rule's result on the parsed rows and headers. */
  function PoliceHoldResult(rows: seq<InventoryRow>, headers: seq<string>): ValidationResult {
    StatusRuleResult("police_hold", IsPoliceHold, rows, headers)
  }

  /** The statuses flagged are exactly `POLICE_HOLD`, `POLICE INVENTORY HOLD`
      and `POLICE`, a run of white space, `HOLD`. */
  lemma PoliceHoldIff(t: string)
    ensures IsPoliceHold(t) <==>
      t == "POLICE_HOLD" || t == "POLICE INVENTORY HOLD" || SpacedPair(t, "POLICE", "HOLD")
  {
    var a, b := "POLICE", "HOLD";
    assert NoSpace(a) && NoSpace(b) && '_' !in a && '_' !in b;
    assert a + ("_" + b) == "POLICE_HOLD";
    if ReplaceSpaceRuns(t) == "POLICE_HOLD" {
      ReplaceSpaceRunsToPair(t, a, b);
    }
    if t == "POLICE_HOLD" || SpacedPair(t, a, b) {
      ReplaceSpaceRunsOfPair(t, a, b);
    }
  }

  /** Case and padding do not matter, and the words may be apart by any run
      of white space: ` police  hold ` is flagged. */
  lemma PaddedPoliceHoldFlagged()
    ensures Flagged(IsPoliceHold, map["status" := Str(" police  hold ")], "status")
  {
    var t := "POLICE  HOLD";
    assert ToUpper(" police  hold ") == " " + t + " ";
    TrimPadded(" ", t, " ");
    DoubleSpacedPoliceHold();
  }

  /** Two spaces between the words still make a police hold. */
  lemma DoubleSpacedPoliceHold()
    ensures IsPoliceHold("POLICE  HOLD")
  {
    var t := "POLICE  HOLD";
    assert t[..6] == "POLICE" && t[8..] == "HOLD" && t[6..8] == "  ";
    PoliceHoldIff(t);
  }

  /** `validatePoliceHold`: skip without a `status` header, else walk the
      rows and push an entry for each police-hold status. */
  method ValidatePoliceHold(rows: seq<InventoryRow>, headers: seq<string>) returns (r: ValidationResult)
    ensures r == PoliceHoldResult(rows, headers)
  {
    if StatusColumn !in headers {
      return ValidationResult("police_hold", true, Skipped(SkipMessage));
    }
    var statusCol := StatusColumn;
    var items: seq<StatusItem> := [];
    for idx := 0 to |rows|
      invariant items == StatusItems(IsPoliceHold, rows[..idx], statusCol)
    {
      var row := rows[idx];
      var status := NormalizedStatus(row, statusCol);
      var isPoliceHold := status.Some? &&
        (status.value in PoliceHoldStatuses || ReplaceSpaceRuns(status.value) == "POLICE_HOLD");
      StatusItemsAppend(IsPoliceHold, rows, statusCol, idx);
      if isPoliceHold {
        items := items + [StatusItem(idx + 2, ItemStatus(row, statusCol))];
      }
    }
    assert rows[..|rows|] == rows;
    r := ValidationResult("police_hold", |items| == 0, StatusCount(|items|, if |items| > 0 then Some(items) else None));
  }
}
