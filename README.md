# Inventory file pipeline, modelled in Dafny

This project models the back end of the Inventory Verification Portal. The portal
takes an uploaded inventory report (CSV or a workbook) and turns it into a parsed
file. That file has normalised headers and rows that map each header to text or a
number. Four business rules then run over the file, and the upload is recorded with
a pass/fail summary.

The model follows the pipeline stage by stage:

- `text.dfy` (module `Text`) holds the JavaScript string primitives the pipeline
  relies on:
  - `trim`, and ASCII `toLowerCase`/`toUpperCase`;
  - `replace(/\s+/g, '_')`;
  - the decimal rendering of a column index;
  - `Number(text)` for decimal text.
- `inventory.dfy` (module `Inventory`) holds the shared shapes:
  - cells (`Str` or `Num`), inventory rows and the parsed file;
  - the required columns `status`, `cost` and `price`;
  - each rule's `details`, with `Option` standing for a property left `undefined`.
- `header.dfy` (module `Header`) covers `normalizeKey`, `rowHasRequiredColumns` and
  the header-row scan over the first 50 rows, with its fallback to row 0.
  - A non-zero number in a scanned row makes `normalizeKey` throw.
  - The model gives this an error value, `HeaderCellNotText`.
- `fileparser.dfy` (module `FileParser`) covers the rest of `parseCSV`/`parseXLSX`,
  starting from the reader's raw table:
  - each data row becomes a JavaScript object keyed by the header cells;
  - blank header cells get `_empty_<column>`;
  - rows without content are dropped;
  - `normalizeRow` builds each row;
  - `parseFile` chooses the reader by MIME type or byte-order mark.
  - The two readers share one model, parameterised by `Format`. They differ only in
    which header cells get a placeholder.
- `requiredcolumns.dfy`, `statusscan.dfy`, `policehold.dfy`, `missingitems.dfy` and
  `costvsprice.dfy` are the four validators.
  - Each is an imperative method with the source's loop: `required_columns` walks
    the required column names, and the other three walk the rows.
  - Each method is proved equal to a specification function, and the lemmas are
    about that function.
  - `StatusScan` holds what `police_hold` and `missing_items` share. The two rules
    differ only in the status test.
- `validation.dfy` (module `ValidationService`) is `runValidations`: the four results
  in a fixed order.
- `upload.dfy` (module `UploadService`) is `createUpload`:
  - the overall verdict, the status and the file type;
  - an `UploadStore` class standing for the two database tables. It receives one
    upload row and then one validation row per rule result, in rule order.

A few behaviours of the source are kept as written:

- Header cells that differ as raw text but normalise to the same name (`Cost` and
  `cost `) give `headers` that name twice. The row keeps the later column's value
  (`NormalizedRowContents`). Two identical raw cells become one object key, and
  so one header (`AssignKeys`).
- A header cell that literally reads `_empty_<i>` can collide with a placeholder.
  The later column then wins, as in the source.
- A file with a header row but no data row with content parses to the empty file
  (`TableFileOfBlankRows`).
- Text made of white space alone is not `''`, so the cost rule passes it to `Number`,
  which reads it as 0 (`ParseNumOfBlankText`).
- A numeric status never matches either status rule (`NormalizedStatus` gives
  `None`). No decimal rendering of a number spells a listed status, so this agrees
  with `String(val).toUpperCase().trim()`.

Each validator runs over the whole row list on its own, one after the other
(`RunValidations`). Every row maps exactly the header names, but a name can appear
twice in `headers`. With distinct header keys, the headers are those keys
normalised, in column order (`TableFileShape`).

The row number reported for a flagged row is its index among the parsed rows
plus 2. That is the sheet line only when the header row is the first line and no
blank row was dropped. Title rows above the header and dropped blank rows shift
the two apart.

## Model

| member | source | states |
|---|---|---|
| Text.TrimShape | backend/src/services/fileParser.service.ts:6 | `trim` leaves no white space at either end, gives `''` exactly for blank text, and keeps trimmed text unchanged |
| Text.TrimPadded | backend/src/validators/policeHold.ts:19 | white space around a word is exactly what `trim` removes |
| Text.ToLowerIdempotent | backend/src/services/fileParser.service.ts:6 | lower-casing twice is lower-casing once |
| Text.TrimToLower | backend/src/services/fileParser.service.ts:6 | lower-casing then trimming equals trimming then lower-casing |
| Text.ReplaceSpaceRunsOfPair | backend/src/validators/policeHold.ts:21 | `A_B` and `A`, a run of white space, `B` both become `A_B` after the replacement |
| Text.ReplaceSpaceRunsToPair | backend/src/validators/policeHold.ts:21 | conversely, only those two spellings become `A_B` (for words without white space or `_`) |
| Text.NatToStringInjective | backend/src/services/fileParser.service.ts:56 | different column indexes render as different decimal text |
| Text.UnsignedDecimalIff | backend/src/validators/costVsPrice.ts:5 | the unsigned reader accepts exactly digits with at most one decimal point and at least one digit |
| Text.JsNumberDefinedIff | backend/src/validators/costVsPrice.ts:5-6 | `Number(text)` is a number iff the text is white space alone or, once trimmed, an optional sign followed by unsigned decimal text; the model reads every other text as NaN; exponent, hexadecimal, binary, octal and `Infinity` forms, which JavaScript reads as numbers, are left out |
| Text.ToUpperOfTrimToUpper | backend/src/validators/policeHold.ts:19 | trimming upper-cased text leaves text that upper-casing keeps |
| Text.JsNumberOfNatToString | backend/src/validators/costVsPrice.ts:5 | `Number` of a natural number's decimal text is that number |
| Text.JsNumberOfNegatedDigits | backend/src/validators/costVsPrice.ts:5 | `Number` of `-` followed by digits is the negated value of the digits |
| Header.NormalizeKeyShape | backend/src/services/fileParser.service.ts:5-7 | a normalised key is trimmed, equals lower-casing the trimmed key, and is empty exactly for blank text |
| Header.NormalizeKeyIdempotent | backend/src/services/fileParser.service.ts:5-7 | normalising a key twice is normalising it once |
| Header.RowHasRequiredColumns | backend/src/services/fileParser.service.ts:20-23 | the scan of a row throws (`None`) exactly when the row holds a non-zero number |
| Header.RowHasRequiredColumnsIff | backend/src/services/fileParser.service.ts:19-26 | a row is a header iff it holds no non-zero number and, for each of `status`, `cost`, `price`, some cell reads that name in any case and with any padding |
| Header.RowHasRequiredColumnsWithExtraCells | backend/src/services/fileParser.service.ts:21-25 | extra non-numeric cells before or after a header row keep it a header |
| Header.ScanEnd | backend/src/services/fileParser.service.ts:37 | the scan looks at `min(length, 50)` rows |
| Header.HeaderRowIndexCases | backend/src/services/fileParser.service.ts:35-47 | the header index is the first qualifying row below `min(length, 50)`; when no scanned row qualifies or throws it is 0; a throwing row fails the scan, and all rows above it do not qualify |
| Header.HeaderRowAfterTitleRows | backend/src/services/fileParser.service.ts:37-42 | title rows above a qualifying row below 50 are skipped and that row becomes the header |
| Header.HeaderRowWithinLimit | backend/src/services/fileParser.service.ts:37 | a row at index 50 or later is never chosen |
| Header.HeaderRowHasNoNumber | backend/src/services/fileParser.service.ts:36-47 | the chosen header row exists and holds no non-zero number |
| Header.LocateHeaderRow | backend/src/services/fileParser.service.ts:36-47 | the loop with `break` and the fallback computes the header index (or the scan's error) |
| FileParser.Placeholder | backend/src/services/fileParser.service.ts:56 | a placeholder is `_empty_` followed by the column's decimal index |
| FileParser.PlaceholderInjective | backend/src/services/fileParser.service.ts:56 | different columns get different placeholders |
| FileParser.KeyOf | backend/src/services/fileParser.service.ts:105-107 | a named header cell keys its column by its own text; an empty cell (CSV), a blank cell (workbook) or a 0 gets the placeholder; CSV differs only in keeping blank non-empty text (line 56) |
| FileParser.HeaderKeys | backend/src/services/fileParser.service.ts:55-56 | one key per header cell, column by column |
| FileParser.Cells | backend/src/services/fileParser.service.ts:56 | a cell missing past the row's end reads as `''` |
| FileParser.AssignKeys | backend/src/services/fileParser.service.ts:54-57 | the object built lists each assigned key once and nothing else |
| FileParser.AssignKeysInOrder | backend/src/services/fileParser.service.ts:54-57 | when the assigned keys are distinct, the object's keys are exactly those keys in assignment order |
| FileParser.AssignValue | backend/src/services/fileParser.service.ts:56 | a key holds the value of its last assignment |
| FileParser.BuildRecord | backend/src/services/fileParser.service.ts:53-58 | the `forEach` over the header cells builds the record of the row, a well-formed object |
| FileParser.RecordKeys | backend/src/services/fileParser.service.ts:53-58 | every data row's record has the same keys in the same order, exactly the header cells' keys |
| FileParser.RecordValue | backend/src/services/fileParser.service.ts:56 | a key holds the row's cell in the last column with that key |
| FileParser.RecordIgnoresExtraCells | backend/src/services/fileParser.service.ts:55-57 | cells beyond the header width are ignored |
| FileParser.RecordContent | backend/src/services/fileParser.service.ts:60-62 | a record with no non-blank cell under the header is dropped; with distinct keys a record is kept iff some cell under the header is non-blank |
| FileParser.CollectRecords | backend/src/services/fileParser.service.ts:52-62 | the map-and-filter over the data rows gives the records with content, in row order |
| FileParser.KeptRecordsOfRows | backend/src/services/fileParser.service.ts:60-62 | a record is kept iff it has content and is the record of some data row |
| FileParser.NormalizedKeys | backend/src/services/fileParser.service.ts:69 | `headers` is the raw keys, each normalised, in order |
| FileParser.NormalizeRow | backend/src/services/fileParser.service.ts:9-17 | the loop of `normalizeRow` computes the normalised row |
| FileParser.NormalizedRowContents | backend/src/services/fileParser.service.ts:9-17 | the row maps exactly the normalised raw keys; a name shared by several raw keys keeps the last one's value; a missing value reads `''` |
| FileParser.NormalizeRecords | backend/src/services/fileParser.service.ts:64-73 | no record gives the empty file; otherwise the first record's keys, normalised, are the headers and each record is one row |
| FileParser.ParseDataRows | backend/src/services/fileParser.service.ts:52-73 | collecting and normalising the data rows gives the file of the rows under the header |
| FileParser.ParsedTableOfFailedScan | backend/src/services/fileParser.service.ts:20-23 | a throwing header scan fails the parse with the scan's error |
| FileParser.ParsedTableOfHeader | backend/src/services/fileParser.service.ts:49-50 | after a successful scan the header row is a text row and the file is built from the rows strictly after it |
| FileParser.ParsedTableAtRow | backend/src/services/fileParser.service.ts:49-50 | with header row `h`, the file is built from row `h` and the rows after it only |
| FileParser.ParseTable | backend/src/services/fileParser.service.ts:28-74 | `parseCSV`/`parseXLSX` from the raw table: no rows give the empty file, then the header scan, the records, the normalised file |
| FileParser.TableFileOfBlankRows | backend/src/services/fileParser.service.ts:64-66 | when no data row has content, the result is the empty file even though a header row exists |
| FileParser.KeptRecordsKeys | backend/src/services/fileParser.service.ts:68 | every kept record has the header row's keys, so `records[0]`'s keys are those of any record |
| FileParser.FileOfRecordsShape | backend/src/services/fileParser.service.ts:68-72 | the headers are the shared keys normalised, and every row maps exactly the headers |
| FileParser.TableFileShape | backend/src/services/fileParser.service.ts:68-72 | a non-empty file's headers are the header cells' keys, normalised, and every row maps exactly those names; with distinct header keys the headers are those keys normalised, one per column in column order |
| FileParser.TableFileRows | backend/src/services/fileParser.service.ts:52-72 | when every data row has content, each becomes one row, in source order |
| FileParser.ChooseFormat | backend/src/services/fileParser.service.ts:127-130 | the CSV reader is chosen iff the MIME type is `text/csv` or `application/csv` or the bytes start with `EF BB BF` |
| FileParser.ParseFile | backend/src/services/fileParser.service.ts:126-136 | `parseFile` reads with the chosen reader and parses the table, or passes on the reader's failure |
| RequiredColumnsRule.MissingColumns | backend/src/validators/requiredColumns.ts:6-10 | a column is reported missing iff it is required and not a header |
| RequiredColumnsRule.MissingColumnsInOrder | backend/src/validators/requiredColumns.ts:6-10 | the missing list is `status`, `cost`, `price` in that order, each present iff absent from the headers |
| RequiredColumnsRule.RequiredColumnsPassedIff | backend/src/validators/requiredColumns.ts:14-18 | the rule passes iff every required column is a header; `missing` is undefined iff it passes; `required` is always the three columns and `found` the headers unchanged |
| RequiredColumnsRule.RequiredColumnsOfNoHeaders | backend/src/validators/requiredColumns.ts:6-14 | with no headers the rule fails with all three columns missing |
| RequiredColumnsRule.ValidateRequiredColumns | backend/src/validators/requiredColumns.ts:3-21 | the loop pushing absent columns computes the rule's result, which depends on the headers only |
| StatusScan.NormalizedStatus | backend/src/validators/policeHold.ts:18-19 | a missing value reads as `''`; there is no status exactly when the value is a number, which neither rule flags (the same in missingItems.ts lines 18-19) |
| StatusScan.NormalizedStatusShape | backend/src/validators/policeHold.ts:19 | a status read from text is upper-case and has no white space at either end |
| StatusScan.StatusItemsSound | backend/src/validators/policeHold.ts:17-26 | every entry is a flagged row, at its index among the parsed rows + 2, with the status text as found |
| StatusScan.StatusItemsOrdered | backend/src/validators/policeHold.ts:16-26 | the entries come in row order, so no row is listed twice |
| StatusScan.StatusItemsComplete | backend/src/validators/policeHold.ts:17-26 | every flagged row has an entry |
| StatusScan.StatusItemsEmptyIff | backend/src/validators/policeHold.ts:28-35 | there is no entry iff no row is flagged |
| StatusScan.StatusRuleOutcome | backend/src/validators/policeHold.ts:7-35 | the rule is skipped (and passes) with the skip message iff no header is `status`; otherwise `count` is the number of entries, `items` is undefined iff the count is 0 and is every entry otherwise; it passes iff no row is flagged (the same for `missing_items`, missingItems.ts lines 7-32) |
| PoliceHoldRule.PoliceHoldIff | backend/src/validators/policeHold.ts:20-22 | a normalised status is a police hold iff it is `POLICE_HOLD`, `POLICE INVENTORY HOLD`, or `POLICE`, a run of white space, `HOLD` |
| PoliceHoldRule.PaddedPoliceHoldFlagged | backend/src/validators/policeHold.ts:19-22 | ` police  hold ` is flagged: case, padding and inner spacing do not matter |
| PoliceHoldRule.DoubleSpacedPoliceHold | backend/src/validators/policeHold.ts:22 | `POLICE  HOLD` with two spaces is a police hold |
| PoliceHoldRule.ValidatePoliceHold | backend/src/validators/policeHold.ts:6-36 | the `forEach` pushing police-hold rows computes the rule's result |
| MissingItemsRule.PaddedMissingFlagged | backend/src/validators/missingItems.ts:19-20 | ` missing inv ` is flagged: case and padding do not matter |
| MissingItemsRule.DoubleSpacedMissingNotFlagged | backend/src/validators/missingItems.ts:20 | `MISSING  INV` with two spaces is not flagged: no inner collapsing |
| MissingItemsRule.ValidateMissingItems | backend/src/validators/missingItems.ts:6-33 | the `forEach` pushing missing rows computes the rule's result |
| CostVsPriceRule.ParseNum | backend/src/validators/costVsPrice.ts:3-7 | a missing value and `''` give no number; a numeric cell gives itself; other text gives a number exactly when it is white space alone or decimal text once trimmed, and no number otherwise |
| CostVsPriceRule.ParseNumOfNonNumeric | backend/src/validators/costVsPrice.ts:5-6 | non-numeric text such as `abc` gives no number |
| CostVsPriceRule.ParseNumOfNatural | backend/src/validators/costVsPrice.ts:5-6 | decimal text of a natural number parses to that number |
| CostVsPriceRule.ParseNumOfNegative | backend/src/validators/costVsPrice.ts:5-6 | `-` followed by a natural number's text parses to its negation |
| CostVsPriceRule.ParseNumOfBlankText | backend/src/validators/costVsPrice.ts:4-5 | non-empty blank text is not caught by the `''` test and parses to 0 |
| CostVsPriceRule.CostItemsSound | backend/src/validators/costVsPrice.ts:23-29 | every entry is a row whose values both parse with cost strictly below price, at its index among the parsed rows + 2, with the two parsed numbers |
| CostVsPriceRule.CostItemsOrdered | backend/src/validators/costVsPrice.ts:23-29 | the entries come in row order |
| CostVsPriceRule.CostItemsComplete | backend/src/validators/costVsPrice.ts:23-29 | every flagged row has an entry |
| CostVsPriceRule.CostVsPriceOutcome | backend/src/validators/costVsPrice.ts:10-38 | skipped (and passing) iff `cost` or `price` is not a header; otherwise `count` is the number of flagged rows, `items` is the first `min(count, 50)` entries and undefined iff the count is 0; it passes iff no row is flagged |
| CostVsPriceRule.CostBelowPriceOfNaturals | backend/src/validators/costVsPrice.ts:26 | with natural costs and prices, as numbers or as text, a row is flagged iff cost < price: equal values are not flagged |
| CostVsPriceRule.ValidateCostVsPrice | backend/src/validators/costVsPrice.ts:9-39 | the `forEach` pushing flagged rows computes the rule's result |
| ValidationService.RunValidations | backend/src/services/validation.service.ts:9-14 | exactly four results, in the order `required_columns`, `police_hold`, `missing_items`, `cost_vs_price` |
| ValidationService.RunValidationsOfEmptyFile | backend/src/services/validation.service.ts:7-16 | on the empty file `required_columns` fails with all three columns missing and the other three rules skip and pass |
| ValidationService.StatusRulesDisjoint | backend/src/validators/missingItems.ts:4 | no row is flagged by both `police_hold` and `missing_items` |
| UploadService.OverallPass | backend/src/services/upload.service.ts:21 | the upload passes iff every result passed |
| UploadService.Status | backend/src/services/upload.service.ts:22 | the status is `SUCCESS` iff the upload passes, `FAILED` otherwise |
| UploadService.FileType | backend/src/services/upload.service.ts:27 | the file type is `csv` or `xlsx` |
| UploadService.FileTypeIff | backend/src/services/upload.service.ts:27 | the file type is `csv` iff the name ends with `.csv`, case-sensitively |
| UploadService.OverallPassIff | backend/src/services/upload.service.ts:19-21 | a parsed file passes iff every required column is a header and no row is a police hold, a missing item or has a cost below its price |
| UploadService.MissingColumnFails | backend/src/services/upload.service.ts:19-22 | a file lacking a required column fails with status `FAILED`, whatever its rows |
| UploadService.EmptyTableFails | backend/src/services/upload.service.ts:18-22 | a table with no rows parses to the empty file, whose upload is `FAILED` |
| UploadService.ValidationRowsInRuleOrder | backend/src/services/upload.service.ts:36-38 | an upload persists four validation rows, one per rule in rule order, each with the result's verdict and details |
| UploadService.UploadStore.InsertUpload | backend/src/services/upload.service.ts:28-34 | the upload row is appended under a fresh id, which is returned |
| UploadService.UploadStore.InsertValidationResult | backend/src/services/upload.service.ts:37 | one validation row is appended for a stored upload |
| UploadService.UploadStore.InsertValidationResults | backend/src/services/upload.service.ts:36-38 | the `for...of` loop appends one row per result, in order, and nothing else |
| UploadService.UploadStore.CreateUpload | backend/src/services/upload.service.ts:15-41 | a file that fails to parse leaves the tables unchanged; otherwise one upload row with file type, verdict and status is stored under a fresh id, followed by the validation rows, and the id, verdict and status are returned; every validation row refers to a stored upload |

## Left out

- The CSV tokeniser (`csv-parse` with `trim: true`) and the workbook reader (`XLSX.read`, first-sheet selection, `sheet_to_json`) are foreign libraries. They appear only as the `Reader` parameter, which yields a raw table or a failure. Reading the first sheet and the CSV reader's own trimming are part of that parameter.
- The `|| []` guard on missing workbook rows (lines 88 and 99 of the parser) is left out. A raw table here has no holes, so the guard never applies.
- Cells are text or numbers. Booleans, dates and `null` cells are not modelled, so neither is `String(val)` on them.
- Text.ToLower: folds ASCII letters only, because Unicode case mapping is outside the model. Text.ToUpper likewise.
- Text.JsNumber, Text.JsNumberDefinedIff, CostVsPriceRule.ParseNum: `Number` is modelled for optionally signed decimal text with white space around it. Exponents, hexadecimal, binary and octal literals and `Infinity` give no number here, whereas JavaScript gives one; the model rejects them to keep away from floating-point semantics.
- Floating-point arithmetic: numbers are exact reals, so rounding in `Number` and in the `<` comparison is not modelled.
- JavaScript's ordering of integer-like object keys (`Object.keys` puts them first) and the special key `__proto__` are left out. Keys keep first-insertion order, which matches the source for any header that does not look like an array index.
- A non-zero number in a scanned header row makes the source throw a `TypeError`. The model returns `HeaderCellNotText`, and the upload then records nothing.
- The database is an in-memory `UploadStore`: upload ids are handed out from 1 in sequence, and `details` is stored as a value rather than as JSON text. Timestamps, clients (`findOrCreateClient`, which becomes the `clientId` parameter), listing and lookup queries are left out.
- Asynchronous sequencing is not modelled: each insert succeeds and completes before the next. An insert failing halfway through the loop leaves partial rows in the source, and the model does not capture that.
- The HTTP layer (controllers, routes, the MIME/extension guard, the upload size limit, the bearer-token check) and the React front end are outside the pipeline and not modelled.
