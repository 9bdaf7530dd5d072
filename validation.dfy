/** `runValidations`: the four rules, each over the whole parsed file, in a
    fixed order. */
module ValidationService {
  import opened Text
  import opened Inventory
  import opened StatusScan
  import opened RequiredColumnsRule
  import opened PoliceHoldRule
  import opened MissingItemsRule
  import opened CostVsPriceRule

  /** The rule names in reporting order. */
  const RuleOrder: seq<string> := ["required_columns", "police_hold", "missing_items", "cost_vs_price"]

  /** The four results: each rule sees the same rows and headers and none
      sees another's result. */
  function RunValidations(p: ParsedFile): (rs: seq<ValidationResult>)
    ensures |rs| == |RuleOrder| == 4
    ensures forall i :: 0 <= i < 4 ==> rs[i].rule == RuleOrder[i]
  {
    [RequiredColumnsResult(p.headers), PoliceHoldResult(p.rows, p.headers),
     MissingItemsResult(p.rows, p.headers), CostVsPriceResult(p.rows, p.headers)]
  }

  /** The empty file fails `required_columns` with all three columns missing;
      the other three rules skip and pass. */
  lemma RunValidationsOfEmptyFile()
    ensures RunValidations(EmptyFile) == [
      ValidationResult("required_columns", false, Required(RequiredColumns, Some(RequiredColumns), [])),
      ValidationResult("police_hold", true, Skipped("No status column - skipping check")),
      ValidationResult("missing_items", true, Skipped("No status column - skipping check")),
      ValidationResult("cost_vs_price", true, Skipped("Missing cost or price column - skipping check"))]
  {
    RequiredColumnsOfNoHeaders();
  }

  /** No status is both a police hold and missing, so a row is flagged by at
      most one of the two status rules. */
  lemma StatusRulesDisjoint(row: InventoryRow)
    ensures !(Flagged(IsPoliceHold, row, StatusColumn) && Flagged(IsMissing, row, StatusColumn))
  {
    var t := NormalizedStatus(row, StatusColumn);
    if t.Some? && IsMissing(t.value) {
      PoliceHoldIff(t.value);
      var s := t.value;
      assert s == "MISSING" || s == "MISSING INV";
      assert !SpacedPair(s, "POLICE", "HOLD") by {
        assert s[..1] == "M";
      }
    }
  }
}
