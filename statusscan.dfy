/** What the two status rules (`police_hold` and `missing_items`) share:
    reading the status cell, the flagged rows in row order, and the shape of
    the result. The rules differ only in which statuses they flag. */
module StatusScan {
  import opened Text
  import opened Inventory

  /** The header both rules look for (`headers.find((h) => h === 'status')`). */
  const StatusColumn := "status"

  const SkipMessage := "No status column - skipping check"

  /** `String(val ?? '').toUpperCase().trim()` for the row's value under
      `col`: a missing value reads as empty text. A number gives `None`: its
      decimal rendering is not modelled, and no rule flags it. */
  function NormalizedStatus(row: InventoryRow, col: string): (status: Option<string>)
    ensures status.None? <==> col in row && row[col].Num?
    ensures col !in row ==> status == Some("")
  {
    if col !in row then Some("")
    else
      match row[col]
      case Str(s) => Some(Trim(ToUpper(s)))
      case Num(_) => None
  }

  /** A status read from text is upper-case text without white space at
      either end, so the rules compare against upper-case, trimmed names. */
  lemma NormalizedStatusShape(row: InventoryRow, col: string)
    requires NormalizedStatus(row, col).Some?
    ensures Trimmed(NormalizedStatus(row, col).value)
    ensures ToUpper(NormalizedStatus(row, col).value) == NormalizedStatus(row, col).value
  {
    if col in row {
      TrimShape(ToUpper(row[col].s));
      ToUpperOfTrimToUpper(row[col].s);
    }
  }

  /** The row's status is one the rule flags. */
  predicate Flagged(flags: string -> bool, row: InventoryRow, col: string) {
    NormalizedStatus(row, col).Some? && flags(NormalizedStatus(row, col).value)
  }

  /** `String(val)`: the status text as found, `undefined` when the row has
      no such value. */
  function ItemStatus(row: InventoryRow, col: string): string
    requires NormalizedStatus(row, col).Some?
  {
    if col in row then row[col].s else "undefined"
  }

  /** The entries of the flagged rows, in row order: the row's index in the
      parsed rows plus 2, and the status text as found. */
  function StatusItems(flags: string -> bool, rows: seq<InventoryRow>, col: string): seq<StatusItem> {
    if rows == [] then []
    else
      var n := |rows| - 1;
      StatusItems(flags, rows[..n], col) +
        if Flagged(flags, rows[n], col) then [StatusItem(n + 2, ItemStatus(rows[n], col))] else []
  }

  /** One more row. */
  lemma StatusItemsAppend(flags: string -> bool, rows: seq<InventoryRow>, col: string, i: nat)
    requires i < |rows|
    ensures StatusItems(flags, rows[..i + 1], col) == StatusItems(flags, rows[..i], col) +
      if Flagged(flags, rows[i], col) then [StatusItem(i + 2, ItemStatus(rows[i], col))] else []
  {
    assert rows[..i + 1][..i] == rows[..i];
  }

  /** Every entry is a flagged row, with its reported row number and its status as found. */
  lemma {:induction false} StatusItemsSound(flags: string -> bool, rows: seq<InventoryRow>, col: string)
    ensures forall item :: item in StatusItems(flags, rows, col) ==>
      2 <= item.row < |rows| + 2 && Flagged(flags, rows[item.row - 2], col) &&
      item.status == ItemStatus(rows[item.row - 2], col)
  {
    if rows != [] {
      var n := |rows| - 1;
      var init := rows[..n];
      StatusItemsSound(flags, init, col);
      var before := StatusItems(flags, init, col);
      forall item | item in StatusItems(flags, rows, col)
        ensures 2 <= item.row < |rows| + 2 && Flagged(flags, rows[item.row - 2], col) &&
          item.status == ItemStatus(rows[item.row - 2], col)
      {
        if item in before {
          assert init[item.row - 2] == rows[item.row - 2];
        }
      }
    }
  }

  /** The entries come in row order, so no row is listed twice. */
  lemma {:induction false} StatusItemsOrdered(flags: string -> bool, rows: seq<InventoryRow>, col: string)
    ensures forall k, l :: 0 <= k < l < |StatusItems(flags, rows, col)| ==>
      StatusItems(flags, rows, col)[k].row < StatusItems(flags, rows, col)[l].row
  {
    if rows != [] {
      var n := |rows| - 1;
      var init := rows[..n];
      StatusItemsOrdered(flags, init, col);
      StatusItemsSound(flags, init, col);
      var before := StatusItems(flags, init, col);
      var items := StatusItems(flags, rows, col);
      forall k, l | 0 <= k < l < |items| ensures items[k].row < items[l].row {
        assert items[k] == before[k] && before[k] in before;
        if l < |before| {
          assert items[l] == before[l];
        }
      }
    }
  }

  /** Every flagged row has an entry. */
  lemma {:induction false} StatusItemsComplete(flags: string -> bool, rows: seq<InventoryRow>, col: string)
    ensures forall i :: 0 <= i < |rows| && Flagged(flags, rows[i], col) ==>
      exists item :: item in StatusItems(flags, rows, col) && item.row == i + 2
  {
    if rows != [] {
      var n := |rows| - 1;
      var init := rows[..n];
      StatusItemsComplete(flags, init, col);
      var before := StatusItems(flags, init, col);
      var items := StatusItems(flags, rows, col);
      forall i | 0 <= i < |rows| && Flagged(flags, rows[i], col)
        ensures exists item :: item in items && item.row == i + 2
      {
        if i < n {
          assert init[i] == rows[i];
          var item :| item in before && item.row == i + 2;
          assert item in items;
        } else {
          assert items[|items| - 1].row == i + 2;
        }
      }
    }
  }

  /** No entry iff no row is flagged. */
  lemma StatusItemsEmptyIff(flags: string -> bool, rows: seq<InventoryRow>, col: string)
    ensures StatusItems(flags, rows, col) == [] <==> forall i :: 0 <= i < |rows| ==> !Flagged(flags, rows[i], col)
  {
    StatusItemsSound(flags, rows, col);
    StatusItemsComplete(flags, rows, col);
    var items := StatusItems(flags, rows, col);
    if items != [] {
      assert items[0] in items;
    }
  }

  /** The result of a status rule: skipped without a `status` header,
      otherwise the count and, when there are any, the entries. */
  function StatusRuleResult(rule: string, flags: string -> bool, rows: seq<InventoryRow>, headers: seq<string>): ValidationResult {
    if StatusColumn !in headers then ValidationResult(rule, true, Skipped(SkipMessage))
    else
      var items := StatusItems(flags, rows, StatusColumn);
      ValidationResult(rule, |items| == 0, StatusCount(|items|, if |items| > 0 then Some(items) else None))
  }

  /** A status rule is skipped, and passes, exactly when no header is
      `status`; otherwise `count` is the number of entries, `items` is absent
      iff that is 0, and the rule passes iff no row is flagged. */
  lemma StatusRuleOutcome(rule: string, flags: string -> bool, rows: seq<InventoryRow>, headers: seq<string>)
    ensures StatusRuleResult(rule, flags, rows, headers).rule == rule
    ensures StatusRuleResult(rule, flags, rows, headers).details.Skipped? <==> StatusColumn !in headers
    ensures StatusColumn !in headers ==>
      StatusRuleResult(rule, flags, rows, headers).passed &&
      StatusRuleResult(rule, flags, rows, headers).details.message == "No status column - skipping check"
    ensures StatusColumn in headers ==>
      var d := StatusRuleResult(rule, flags, rows, headers).details;
      d.StatusCount? && d.count == |StatusItems(flags, rows, StatusColumn)| &&
      (d.items.None? <==> d.count == 0) && (d.items.Some? ==> d.items.value == StatusItems(flags, rows, StatusColumn))
    ensures StatusRuleResult(rule, flags, rows, headers).passed <==>
      StatusColumn !in headers || forall i :: 0 <= i < |rows| ==> !Flagged(flags, rows[i], StatusColumn)
  {
    StatusItemsEmptyIff(flags, rows, StatusColumn);
  }
}
