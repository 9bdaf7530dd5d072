/** The `cost_vs_price` rule (`validateCostVsPrice`): rows whose cost is
    below their price, counted in full and listed up to 50. */
module CostVsPriceRule {
  import opened Text
  import opened Inventory

  const CostColumn := "cost"
  const PriceColumn := "price"
  const SkipMessage := "Missing cost or price column - skipping check"

  /** How many flagged rows the result lists (the rest are only counted). */
  const ItemLimit := 50

  /** `parseNum(row[col])`: no number for a missing value or empty text, the
      number itself for a numeric cell, and `Number(text)` otherwise, which
      is no number when it is NaN: text is a number exactly when it is
      non-empty white space or decimal text once trimmed. */
  function ParseNum(row: InventoryRow, col: string): (n: Option<real>)
    ensures n.Some? ==> col in row && row[col] != Str("")
    ensures col in row && row[col].Num? ==> n == Some(row[col].n)
    ensures col in row && row[col].Str? ==>
      (n.Some? <==> row[col].s != "" && (AllSpace(row[col].s) || DecimalText(Trim(row[col].s))))
  {
    if col !in row then None
    else
      match row[col]
      case Num(n) => Some(n)
      case Str(s) =>
        if s == "" then None
        else
          JsNumberDefinedIff(s);
          JsNumber(s)
  }

  /** Text that is not a number, such as `abc`, gives no number. */
  lemma ParseNumOfNonNumeric(row: InventoryRow, col: string)
    requires col in row && row[col] == Str("abc")
    ensures ParseNum(row, col) == None
  {
    assert !IsDigit('a') && !IsSpace('a') && !IsSpace('c');
    TrimShape("abc");
  }

  /** The decimal text of a natural number reads back as that number. */
  lemma ParseNumOfNatural(row: InventoryRow, col: string, n: nat)
    requires col in row && row[col] == Str(NatToString(n))
    ensures ParseNum(row, col) == Some(n as real)
  {
    JsNumberOfNatToString(n);
  }

  /** So does a negated one. */
  lemma ParseNumOfNegative(row: InventoryRow, col: string, n: nat)
    requires col in row && row[col] == Str("-" + NatToString(n))
    ensures ParseNum(row, col) == Some(-(n as real))
  {
    DigitsValueOfNatToString(n);
    JsNumberOfNegatedDigits(NatToString(n), "-" + NatToString(n));
  }

  /** Text of white space alone is not empty, so it goes to `Number`, which
      reads it as 0. */
  lemma ParseNumOfBlankText(row: InventoryRow, col: string)
    requires col in row && row[col].Str? && row[col].s != [] && AllSpace(row[col].s)
    ensures ParseNum(row, col) == Some(0.0)
  {
    TrimShape(row[col].s);
  }

  /** The row is flagged: both values are numbers and the cost is strictly
      below the price. */
  predicate CostBelowPrice(row: InventoryRow) {
    var cost, price := ParseNum(row, CostColumn), ParseNum(row, PriceColumn);
    cost.Some? && price.Some? && cost.value < price.value
  }

  /** The entries of the flagged rows, in row order: the row's index in the
      parsed rows plus 2, and both numbers. */
  function CostItems(rows: seq<InventoryRow>): seq<CostItem> {
    if rows == [] then []
    else
      var n := |rows| - 1;
      CostItems(rows[..n]) +
        if CostBelowPrice(rows[n])
        then [CostItem(n + 2, ParseNum(rows[n], CostColumn).value, ParseNum(rows[n], PriceColumn).value)]
        else []
  }

  /** One more row. */
  lemma CostItemsAppend(rows: seq<InventoryRow>, i: nat)
    requires i < |rows|
    ensures CostItems(rows[..i + 1]) == CostItems(rows[..i]) +
      if CostBelowPrice(rows[i])
      then [CostItem(i + 2, ParseNum(rows[i], CostColumn).value, ParseNum(rows[i], PriceColumn).value)]
      else []
  {
    assert rows[..i + 1][..i] == rows[..i];
  }

  /** Every entry is a flagged row, with its reported row number and its two numbers. */
  lemma {:induction false} CostItemsSound(rows: seq<InventoryRow>)
    ensures forall item :: item in CostItems(rows) ==>
      2 <= item.row < |rows| + 2 && CostBelowPrice(rows[item.row - 2]) &&
      Some(item.cost) == ParseNum(rows[item.row - 2], CostColumn) &&
      Some(item.price) == ParseNum(rows[item.row - 2], PriceColumn) &&
      item.cost < item.price
  {
    if rows != [] {
      var n := |rows| - 1;
      var init := rows[..n];
      CostItemsSound(init);
      var before := CostItems(init);
      forall item | item in CostItems(rows)
        ensures 2 <= item.row < |rows| + 2 && CostBelowPrice(rows[item.row - 2]) &&
          Some(item.cost) == ParseNum(rows[item.row - 2], CostColumn) &&
          Some(item.price) == ParseNum(rows[item.row - 2], PriceColumn) &&
          item.cost < item.price
      {
        if item in before {
          assert init[item.row - 2] == rows[item.row - 2];
        }
      }
    }
  }

  /** The entries come in row order. */
  lemma {:induction false} CostItemsOrdered(rows: seq<InventoryRow>)
    ensures forall k, l :: 0 <= k < l < |CostItems(rows)| ==> CostItems(rows)[k].row < CostItems(rows)[l].row
  {
    if rows != [] {
      var n := |rows| - 1;
      var init := rows[..n];
      CostItemsOrdered(init);
      CostItemsSound(init);
      var before := CostItems(init);
      var items := CostItems(rows);
      forall k, l | 0 <= k < l < |items| ensures items[k].row < items[l].row {
        assert items[k] == before[k] && before[k] in before;
        if l < |before| {
          assert items[l] == before[l];
        }
      }
    }
  }

  /** Every flagged row has an entry. */
  lemma {:induction false} CostItemsComplete(rows: seq<InventoryRow>)
    ensures forall i :: 0 <= i < |rows| && CostBelowPrice(rows[i]) ==>
      exists item :: item in CostItems(rows) && item.row == i + 2
  {
    if rows != [] {
      var n := |rows| - 1;
      var init := rows[..n];
      CostItemsComplete(init);
      var before := CostItems(init);
      var items := CostItems(rows);
      forall i | 0 <= i < |rows| && CostBelowPrice(rows[i])
        ensures exists item :: item in items && item.row == i + 2
      {
        if i < n {
          assert init[i] == rows[i];
          var item :| item in before && item.row == i + 2;
          assert item in items;
        } else {
          assert items[|items| - 1].row == i + 2;
        }
      }
    }
  }

  /** The rule's result on the parsed rows and headers. */
  function CostVsPriceResult(rows: seq<InventoryRow>, headers: seq<string>): ValidationResult {
    if CostColumn !in headers || PriceColumn !in headers then
      ValidationResult("cost_vs_price", true, Skipped(SkipMessage))
    else
      var items := CostItems(rows);
      ValidationResult("cost_vs_price", |items| == 0,
        CostCount(|items|, if |items| > 0 then Some(Take(items, ItemLimit)) else None))
  }

  /** The rule is skipped, and passes, exactly when a `cost` or a `price`
      header is missing. Otherwise `count` is the number of flagged rows,
      `items` the first 50 of their entries and absent iff there is none, and
      the rule passes iff no row is flagged. */
  lemma CostVsPriceOutcome(rows: seq<InventoryRow>, headers: seq<string>)
    ensures CostVsPriceResult(rows, headers).details.Skipped? <==> CostColumn !in headers || PriceColumn !in headers
    ensures CostVsPriceResult(rows, headers).details.Skipped? ==>
      CostVsPriceResult(rows, headers).passed &&
      CostVsPriceResult(rows, headers).details.message == "Missing cost or price column - skipping check"
    ensures !CostVsPriceResult(rows, headers).details.Skipped? ==>
      var d := CostVsPriceResult(rows, headers).details;
      d.CostCount? && d.total == |CostItems(rows)| && (d.costItems.None? <==> d.total == 0) &&
      (d.costItems.Some? ==>
        |d.costItems.value| == (if d.total < 50 then d.total else 50) &&
        d.costItems.value == CostItems(rows)[..|d.costItems.value|])
    ensures CostVsPriceResult(rows, headers).passed <==>
      CostColumn !in headers || PriceColumn !in headers || forall i :: 0 <= i < |rows| ==> !CostBelowPrice(rows[i])
  {
    CostItemsSound(rows);
    CostItemsComplete(rows);
    var items := CostItems(rows);
    if items != [] {
      assert items[0] in items;
    }
  }

  /** Costs and prices given as natural numbers, as numbers or as decimal
      text, flag the row iff the cost is strictly lower: equal values never
      flag it. */
  lemma CostBelowPriceOfNaturals(row: InventoryRow, c: nat, p: nat)
    requires CostColumn in row && PriceColumn in row
    requires row[CostColumn] == Num(c as real) || row[CostColumn] == Str(NatToString(c))
    requires row[PriceColumn] == Num(p as real) || row[PriceColumn] == Str(NatToString(p))
    ensures CostBelowPrice(row) <==> c < p
  {
    if row[CostColumn].Str? {
      ParseNumOfNatural(row, CostColumn, c);
    }
    if row[PriceColumn].Str? {
      ParseNumOfNatural(row, PriceColumn, p);
    }
  }

  /** `validateCostVsPrice`: skip without both headers, else walk the rows,
      push an entry for each flagged one, and report the count and the first
      50 entries. */
  method ValidateCostVsPrice(rows: seq<InventoryRow>, headers: seq<string>) returns (r: ValidationResult)
    ensures r == CostVsPriceResult(rows, headers)
  {
    if CostColumn !in headers || PriceColumn !in headers {
      return ValidationResult("cost_vs_price", true, Skipped(SkipMessage));
    }
    var costCol, priceCol := CostColumn, PriceColumn;
    var items: seq<CostItem> := [];
    for idx := 0 to |rows|
      invariant items == CostItems(rows[..idx])
    {
      var row := rows[idx];
      var cost := ParseNum(row, costCol);
      var price := ParseNum(row, priceCol);
      CostItemsAppend(rows, idx);
      if cost.Some? && price.Some? && cost.value < price.value {
        items := items + [CostItem(idx + 2, cost.value, price.value)];
      }
    }
    assert rows[..|rows|] == rows;
    r := ValidationResult("cost_vs_price", |items| == 0,
      CostCount(|items|, if |items| > 0 then Some(Take(items, ItemLimit)) else None));
  }
}
