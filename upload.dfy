/** `createUpload`: parse the file, run the four rules, summarise them, and
    persist one upload row followed by one row per rule result. The
    database is modelled as an in-memory store whose upload ids are
    handed out in sequence, as a serial column does. */
module UploadService {
  import opened Text
  import opened Inventory
  import opened Header
  import opened FileParser
  import opened StatusScan
  import opened RequiredColumnsRule
  import opened PoliceHoldRule
  import opened MissingItemsRule
  import opened CostVsPriceRule
  import opened ValidationService

  /** `validations.every((v) => v.passed)`. */
  function OverallPass(vs: seq<ValidationResult>): (pass: bool)
    ensures pass <==> forall i :: 0 <= i < |vs| ==> vs[i].passed
  {
    if vs == [] then true
    else vs[0].passed && OverallPass(vs[1..])
  }

  /** The upload's status: `SUCCESS` for a file that passes, `FAILED` otherwise. */
  function Status(pass: bool): (status: string)
    ensures status == "SUCCESS" || status == "FAILED"
    ensures status == "SUCCESS" <==> pass
  {
    if pass then "SUCCESS" else "FAILED"
  }

  /** `filename.endsWith('.csv')`, case-sensitive. */
  predicate EndsWithCsv(filename: string) {
    |filename| >= 4 && filename[|filename| - 4..] == ".csv"
  }

  /** The file type recorded with the upload, from the name alone. */
  function FileType(filename: string): (fileType: string)
    ensures fileType == "csv" || fileType == "xlsx"
  {
    if EndsWithCsv(filename) then "csv" else "xlsx"
  }

  /** The type is `csv` iff the name is some text followed by `.csv`;
      `report.CSV` and `report.csv.xlsx` are `xlsx`. */
  lemma FileTypeIff(filename: string)
    ensures FileType(filename) == "csv" <==> exists stem :: filename == stem + ".csv"
  {
    if EndsWithCsv(filename) {
      var stem := filename[..|filename| - 4];
      assert filename == stem + ".csv";
    }
  }

  /** A file passes iff every required column is a header and no row is a
      police hold, a missing item or priced above its cost. */
  lemma OverallPassIff(p: ParsedFile)
    ensures OverallPass(RunValidations(p)) <==>
      (forall col :: col in RequiredColumns ==> col in p.headers) &&
      (forall i :: 0 <= i < |p.rows| ==> !Flagged(IsPoliceHold, p.rows[i], StatusColumn)) &&
      (forall i :: 0 <= i < |p.rows| ==> !Flagged(IsMissing, p.rows[i], StatusColumn)) &&
      (forall i :: 0 <= i < |p.rows| ==> !CostBelowPrice(p.rows[i]))
  {
    var rs := RunValidations(p);
    RequiredColumnsPassedIff(p.headers);
    StatusRuleOutcome("police_hold", IsPoliceHold, p.rows, p.headers);
    StatusRuleOutcome("missing_items", IsMissing, p.rows, p.headers);
    CostVsPriceOutcome(p.rows, p.headers);
    assert OverallPass(rs) <==> rs[0].passed && rs[1].passed && rs[2].passed && rs[3].passed;
  }

  /** A file that lacks a required column fails, whatever its rows hold. */
  lemma MissingColumnFails(p: ParsedFile, col: string)
    requires col in RequiredColumns && col !in p.headers
    ensures !OverallPass(RunValidations(p))
    ensures Status(OverallPass(RunValidations(p))) == "FAILED"
  {
    RequiredColumnsPassedIff(p.headers);
  }

  /** A table with no row parses to the empty file, which fails. */
  lemma EmptyTableFails(format: Format)
    ensures ParsedTable(format, []) == Ok(EmptyFile)
    ensures Status(OverallPass(RunValidations(EmptyFile))) == "FAILED"
  {
    MissingColumnFails(EmptyFile, "status");
  }

  /** A row of the `uploads` table. */
  datatype UploadRow = UploadRow(id: nat, clientId: nat, filename: string, fileType: string,
                                 overallPass: bool, status: string)

  /** A row of the `validation_results` table. */
  datatype ValidationRow = ValidationRow(uploadId: nat, rule: string, passed: bool, details: Details)

  /** What `createUpload` returns. */
  datatype UploadSummary = UploadSummary(uploadId: nat, overallPass: bool, status: string)

  /** The validation rows of one upload: one per result, in the results' order. */
  function ValidationRows(uploadId: nat, vs: seq<ValidationResult>): seq<ValidationRow> {
    seq(|vs|, i requires 0 <= i < |vs| => ValidationRow(uploadId, vs[i].rule, vs[i].passed, vs[i].details))
  }

  /** An upload persists four validation rows, one per rule, in the order
      `required_columns`, `police_hold`, `missing_items`, `cost_vs_price`,
      each with the result's verdict and details. */
  lemma ValidationRowsInRuleOrder(uploadId: nat, p: ParsedFile)
    ensures |ValidationRows(uploadId, RunValidations(p))| == 4
    ensures forall i :: 0 <= i < 4 ==>
      var row := ValidationRows(uploadId, RunValidations(p))[i];
      row.uploadId == uploadId && row.rule == RuleOrder[i] &&
      row.passed == RunValidations(p)[i].passed && row.details == RunValidations(p)[i].details
  {
  }

  /** The two tables the upload writes to. */
  class UploadStore {
    var uploads: seq<UploadRow>
    var validationRows: seq<ValidationRow>
    var nextId: nat

    /** The ids of the stored uploads. */
    function UploadIds(): set<nat>
      reads this
    {
      set i | 0 <= i < |uploads| :: uploads[i].id
    }

    /** Upload ids increase in insertion order and stay below `nextId`, and
        every validation row belongs to a stored upload. */
    predicate Valid()
      reads this
    {
      (forall i, j :: 0 <= i < j < |uploads| ==> uploads[i].id < uploads[j].id) &&
      (forall i :: 0 <= i < |uploads| ==> uploads[i].id < nextId) &&
      (forall k :: 0 <= k < |validationRows| ==> validationRows[k].uploadId in UploadIds())
    }

    constructor()
      ensures Valid()
      ensures uploads == [] && validationRows == [] && nextId == 1
    {
      uploads := [];
      validationRows := [];
      nextId := 1;
    }

    /** `insertUpload`: stores the row under a fresh id and returns that id. */
    method InsertUpload(clientId: nat, filename: string, fileType: string, overallPass: bool, status: string)
      returns (id: nat)
      requires Valid()
      modifies this
      ensures Valid()
      ensures id == old(nextId) && id !in old(UploadIds()) && id in UploadIds()
      ensures uploads == old(uploads) + [UploadRow(id, clientId, filename, fileType, overallPass, status)]
      ensures validationRows == old(validationRows) && nextId == old(nextId) + 1
    {
      id := nextId;
      uploads := uploads + [UploadRow(id, clientId, filename, fileType, overallPass, status)];
      nextId := nextId + 1;
      assert forall i :: 0 <= i < |old(uploads)| ==> uploads[i] == old(uploads)[i];
      assert old(UploadIds()) <= UploadIds();
      assert uploads[|uploads| - 1].id == id;
    }

    /** `insertValidationResult`: appends one row for a stored upload. */
    method InsertValidationResult(uploadId: nat, rule: string, passed: bool, details: Details)
      requires Valid() && uploadId in UploadIds()
      modifies this
      ensures Valid()
      ensures validationRows == old(validationRows) + [ValidationRow(uploadId, rule, passed, details)]
      ensures uploads == old(uploads) && nextId == old(nextId)
    {
      validationRows := validationRows + [ValidationRow(uploadId, rule, passed, details)];
    }

    /** The `for...of` loop of `createUpload`: one validation row per
        result, in order. */
    method InsertValidationResults(uploadId: nat, validations: seq<ValidationResult>)
      requires Valid() && uploadId in UploadIds()
      modifies this
      ensures Valid()
      ensures validationRows == old(validationRows) + ValidationRows(uploadId, validations)
      ensures uploads == old(uploads) && nextId == old(nextId)
    {
      for i := 0 to |validations|
        invariant Valid() && uploads == old(uploads) && nextId == old(nextId)
        invariant validationRows == old(validationRows) + ValidationRows(uploadId, validations[..i])
      {
        var v := validations[i];
        InsertValidationResult(uploadId, v.rule, v.passed, v.details);
        assert ValidationRows(uploadId, validations[..i + 1]) ==
          ValidationRows(uploadId, validations[..i]) + [ValidationRow(uploadId, v.rule, v.passed, v.details)];
      }
      assert validations[..|validations|] == validations;
    }

    /** `createUpload`. A file that does not parse leaves both tables as they
        were. Otherwise the upload row is stored under a fresh id with the
        file type, the overall verdict and the status, and then one
        validation row per rule result, in the order the rules ran. The
        client id stands for the outcome of `findOrCreateClient`. */
    method CreateUpload(buffer: seq<byte>, filename: string, mimeType: string, clientId: nat, read: Reader)
      returns (r: Result<UploadSummary>)
      requires Valid()
      modifies this
      ensures Valid()
      ensures Parse(buffer, mimeType, read).Err? ==>
        r == Err(Parse(buffer, mimeType, read).error) &&
        uploads == old(uploads) && validationRows == old(validationRows) && nextId == old(nextId)
      ensures Parse(buffer, mimeType, read).Ok? ==>
        var vs := RunValidations(Parse(buffer, mimeType, read).value);
        var pass := OverallPass(vs);
        r == Ok(UploadSummary(old(nextId), pass, Status(pass))) &&
        uploads == old(uploads) + [UploadRow(old(nextId), clientId, filename, FileType(filename), pass, Status(pass))] &&
        validationRows == old(validationRows) + ValidationRows(old(nextId), vs) &&
        nextId == old(nextId) + 1
    {
      var parsed := ParseFile(buffer, mimeType, read);
      if parsed.Err? {
        return Err(parsed.error);
      }
      var validations := RunValidations(parsed.value);
      var overallPass := OverallPass(validations);
      var status := Status(overallPass);
      var fileType := FileType(filename);
      var uploadId := InsertUpload(clientId, filename, fileType, overallPass, status);
      InsertValidationResults(uploadId, validations);
      r := Ok(UploadSummary(uploadId, overallPass, status));
    }
  }
}
