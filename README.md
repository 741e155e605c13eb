# Personal-information intake: validation, submit decision and CSV import

The system collects one person's first name, second name, email, phone number and
Irish eircode and stores the record in a MySQL table `mysql_table`. There are two ways
in:

- `server.js` serves an HTML form. Its `POST /api/submit` handler makes sure the table
  exists (`ensureSchema`), validates the JSON body with `validateRow`, and either
  answers 400 with the list of failing fields, or inserts the record and answers with
  the new `insertId`. Any error thrown on the way becomes a 500.
- `index.js` is a batch importer. It reads `data/Personal_Information.csv`, removes a
  leading byte-order mark, parses the rows, validates each row with its own copy of
  `validateRow` (different column names, bare error tags), inserts the valid rows one
  at a time, and prints a summary of rows read, inserted and invalid or failed.

Both copies of `validateRow` normalise five raw values the same way:

- the names and the email are trimmed;
- the phone keeps only its ASCII digits;
- the eircode loses all whitespace.

They then test each value against a fixed regular expression and return
`{ok, errors, clean}`.

This project models that core in Dafny and proves what it guarantees.

| module (file) | what it models |
|---|---|
| `Wrappers` (wrappers.dfy) | `Option` and `Result` |
| `JsText` (jstext.dfy) | JavaScript `\s`, `String.prototype.trim`, `replace(/\D/g, "")`, `replace(/\s+/g, "")` |
| `Rules` (rules.dfy) | the four regular expressions, as predicates on strings, with lemmas characterising them |
| `Record` (record.dfy) | the five fields, the clean record, the `{ok, errors, clean}` result, the list of failing fields and its tags, the INSERT parameter vector and the column widths |
| `Server` (server.dfy) | server.js `validateRow` and the `POST /api/submit` decision |
| `CsvImport` (importer.dfy) | index.js `validateRow`, the byte-order-mark strip, the `runImport` loop and its counters |

Modelling choices:

- **Raw bodies and rows.** A raw JSON body or CSV row is a `map<string, string>`. A key
  that is absent (JSON `undefined` or `null`, a CSV column that does not exist) reads as
  `""`. That is what `?? ""` and `|| ""` produce for those values. An empty string stays
  `""` under both operators.
- **The database.** It is a parameter. `ensureSchema()` and each INSERT are an `Outcome`
  (`Done`, or `Threw(message)`). The server's INSERT is a `Result<nat, string>`, carrying
  the `insertId` or the message of the thrown error. For the importer,
  `db(k, clean)` is what `insertRow(clean)` does for data row `k` (0-based). Each row
  gets at most one INSERT, so the row index identifies the attempt.
- **CSV parsing.** It is a parameter `parse: string -> seq<map<string, string>>`. The
  importer's loop is a `method` with a `for` loop, a `continue`, and the real counters
  `rowNumber`, `total`, `inserted` and `invalid`. It is proved against the
  specification functions `Attempted`, `InsertedCount`, `InvalidCount` and `Log`.
- **Characters.** Dafny characters are Unicode scalar values; JavaScript strings are
  UTF-16 code units. On well-formed Unicode text (no unpaired surrogate) this does not
  change any verdict:
  - every character a name, phone or eircode accepts is at most U+00FF, which is one
    UTF-16 unit (`NameIsNarrowAndUnspaced`, `EircodeIsNarrowAndUnspaced`), so length
    limits agree;
  - the email rule has no length limit, and a supplementary character is "not
    whitespace, not `@`" both as one scalar and as two surrogate units;
  - no whitespace character and no ASCII digit is a surrogate, so `trim` and the two
    `replace` calls treat a supplementary character the way JavaScript treats its
    two units.
- **Whitespace.** `IsWs` is the ECMAScript WhiteSpace and LineTerminator set
  (U+0009–U+000D, U+0020, U+00A0, U+1680, U+2000–U+200A, U+2028, U+2029, U+202F, U+205F,
  U+3000, U+FEFF). This is the set `\s` matches and `trim` removes.

On these points the model follows the code:

- The eircode rule `^[0-9][A-Za-z0-9]{5}$` demands a leading digit, so `D02AB1` is
  rejected (`EircodeLeadingLetterFails`). So is any code given as 7 characters, such as
  `d02ab12`.
- The name rule's range `À-ÿ` is the code-point range U+00C0..U+00FF. It includes
  `×` (U+00D7) and `÷` (U+00F7), even though the comment says "letters/numbers"
  (`NameRangeTakesSigns`).
- The CSV headers are matched case-sensitively: `csv()` is called without a header
  mapper.

## Model

| member | source | states |
|---|---|---|
| JsText.TrimStartCuts | server.js:63-65 | the leading cut keeps a suffix of the input; every character it cuts off is whitespace; what it keeps is empty or starts with a non-space |
| JsText.TrimEndCuts | server.js:63-65 | the trailing cut keeps a prefix of the input; every character it cuts off is whitespace; what it keeps is empty or ends with a non-space |
| JsText.Trim | server.js:63-65 | `trim` leaves a string with no whitespace at either end, never longer than the input |
| JsText.TrimIsInfix | server.js:63-65 | what `trim` keeps is a contiguous run of the input with only whitespace before and after it |
| JsText.TrimStartThenEnd | server.js:63-65 | the leading cut followed by the trailing cut keeps an infix that starts where the leading cut stopped, with only whitespace around it |
| JsText.CutTwice | server.js:63-65 | cutting a whitespace run off the front and then one off the back leaves an infix with only whitespace around it |
| JsText.IsWs | server.js:63-75 | the characters `\s` matches and `trim` removes: U+0009–U+000D, U+0020, U+00A0, U+1680, U+2000–U+200A, U+2028, U+2029, U+202F, U+205F, U+3000 and U+FEFF |
| JsText.TrimStart | server.js:63-65 | the leading cut of `trim`: drops whitespace from the front one character at a time; never longer than the input |
| JsText.TrimEnd | server.js:63-65 | the trailing cut of `trim`: drops whitespace from the back one character at a time; never longer than the input |
| JsText.StripNonDigits | server.js:68-70 | `replace(/\D/g, "")` leaves only ASCII digits, never more characters than the input |
| JsText.StripWs | server.js:73-75 | `replace(/\s+/g, "")` leaves no whitespace, never more characters than the input |
| JsText.TrimStartFixes | server.js:63-65 | a string that does not start with whitespace is unchanged by the leading cut |
| JsText.TrimEndFixes | server.js:63-65 | a string that does not end with whitespace is unchanged by the trailing cut |
| JsText.TrimFixes | server.js:63-65 | a string with no whitespace at either end is its own trim |
| JsText.TrimIdempotent | index.js:33-35 | trimming twice gives the same as trimming once |
| JsText.TrimNoWs | server.js:63-65 | a string without whitespace is unchanged by `trim` |
| JsText.StripNonDigitsFixes | server.js:68-70 | a digit string is unchanged by the digit filter |
| JsText.StripNonDigitsAppend | server.js:68-70 | the digit filter works character by character: it distributes over concatenation |
| JsText.StripNonDigitsCounts | server.js:68-70 | the digit filter keeps every ASCII digit as often as the input holds it and removes every other character |
| JsText.StripNonDigitsIdempotent | index.js:38-40 | filtering the digits twice gives the same as once |
| JsText.StripWsFixes | server.js:73-75 | a whitespace-free string is unchanged by the whitespace filter |
| JsText.StripWsAppend | server.js:73-75 | the whitespace filter distributes over concatenation |
| JsText.StripWsCounts | server.js:73-75 | the whitespace filter removes every whitespace character and keeps every other character as often as the input holds it |
| JsText.StripWsIdempotent | index.js:43-45 | removing whitespace twice gives the same as once |
| JsText.TrimAfterStripNonDigits | server.js:68-70 | the `.trim()` after the digit filter changes nothing |
| JsText.TrimAfterStripWs | server.js:73-75 | the `.trim()` after the whitespace filter changes nothing |
| Rules.NameOk | server.js:46 | 1–20 characters, each an ASCII letter, an ASCII digit or U+00C0..U+00FF |
| Rules.EmailOk | server.js:49 | an `@` at some index `a` after the first character and a `.` at some index `d` at least two after `a` and before the last character, with the three runs before, between and after them made of characters that are neither whitespace nor `@` |
| Rules.PhoneOk | server.js:52 | exactly 10 characters, each an ASCII digit |
| Rules.EircodeOk | server.js:55 | exactly 6 characters: an ASCII digit, then five ASCII letters or digits |
| Rules.CountAround | server.js:49 | the count of `@` in a string is the count before index `a`, plus one if `s[a]` is `@`, plus the count after `a` |
| Rules.NoCountNoAt | server.js:49 | a string whose `@` count is zero holds no `@` |
| Rules.NoAtNoCount | server.js:49 | a string with no `@` has an `@` count of zero |
| Rules.EmailCharsClean | server.js:49 | a run of `[^\s@]` characters has no whitespace and no `@` |
| Rules.EmailPartsUnspaced | server.js:49 | an address split as local `@` domain `.` tail, with each part in `[^\s@]+`, has no whitespace |
| Rules.EmailDomainHasNoAt | server.js:49 | the part after the `@` of such an address has no `@` |
| Rules.SliceEmailChars | server.js:49 | a slice of a whitespace-free string that holds no `@` is a run of `[^\s@]` characters |
| Rules.OnlyAt | server.js:49 | in a string with exactly one `@`, found at index `a`, no other index holds `@` |
| Rules.EmailOkAt | server.js:49 | an `@` and a later `.` with non-empty runs of `[^\s@]` before, between and after them make the address accepted |
| Rules.EmailOkInWords | server.js:49 | an address the email rule accepts has no whitespace, exactly one `@`, a non-empty local part, and a `.` strictly inside the domain |
| Rules.EmailInWordsOk | server.js:49 | every address of that shape is accepted by the email rule |
| Rules.EmailRuleIff | server.js:49 | the email rule holds exactly when the address has no whitespace, exactly one `@`, a non-empty local part, and a `.` that is neither the first nor the last character of the domain |
| Rules.NameRangeTakesSigns | server.js:46 | the name rule accepts `×` and `÷` on their own and inside `2×3÷4` |
| Rules.NameIsNarrowAndUnspaced | server.js:46 | every character of an accepted name is at most U+00FF and not whitespace |
| Rules.NameCharIsNarrow | server.js:46 | one character of the name class is at most U+00FF and not whitespace |
| Rules.PhoneIffTenDigits | server.js:52 | after the digit filter, the phone rule holds exactly when the result has length 10 |
| Rules.EircodeIsNarrowAndUnspaced | server.js:55 | an accepted eircode has no whitespace and only ASCII characters |
| Rules.EircodeLeadingLetterFails | index.js:25 | an eircode whose first character is a letter is rejected |
| Rules.LongEmail | server.js:49 | the n-th witness address has length n + 5 |
| Rules.EmailHasNoLengthBound | server.js:49 | for every n there is an accepted address longer than n, so the rule admits more than the 255-character column holds |
| Rules.LongEmailShape | server.js:49 | the witness address is `a`s up to index n, then `@b.c` |
| Record.Failing | server.js:77-82 | the failing list is no longer than the list of checked fields |
| Record.FailingMembers | server.js:77-82 | a field is in the failing list exactly when it is in the checked list and fails its rule |
| Record.FailingKeepsOrder | server.js:77-82 | filtering a list in check order keeps it in check order |
| Record.FieldOrderComplete | server.js:77-82 | the five checks cover every field, each once, in rank order |
| Record.FailingOfFieldOrder | server.js:77-86 | for any verdicts, the failing list holds exactly the failing fields, each once, in check order, and is empty exactly when every verdict is true |
| Record.FailingFieldsExact | server.js:77-86 | the failing fields are exactly the fields that fail, each once, in the order first_name, second_name, email, phone_number, eircode; there are none exactly when every rule passes |
| Record.Tags | server.js:77-82 | one tag per field of the list |
| Record.TagsAt | server.js:77-82 | tag i is the tag of field i |
| Record.TagsNameFields | server.js:77-82 | with a different tag per field, a field's tag is in the list exactly when the field is |
| Record.TagsDistinct | server.js:77-82 | fields in check order with a different tag per field give a list without repeats |
| Record.FailingTagsExact | server.js:77-86 | the tag list names exactly the failing fields, never twice, at most five |
| Record.FailingSnoc | server.js:77-82 | checking one more field appends it to the failing list exactly when it fails |
| Record.TagsSnoc | server.js:77-82 | the tags of a list with one more field are the old tags plus that field's tag |
| Record.PushUnless | server.js:78 | one `if (!rule.test(v)) errors.push(tag)` line: the list is unchanged when the rule passes, and gains the tag at its end when it fails |
| Record.PushAll | server.js:77-82 | the five guarded pushes in check order, for any verdicts and tag spelling |
| Record.PushStep | server.js:77-82 | one `if (!rule.test(v)) errors.push(tag)` line extends the tags of the fields checked so far by one more field |
| Record.PushChainHead | server.js:78-80 | the first three push lines give the tags of the failing fields among the first three |
| Record.PushChainTail | server.js:81-82 | the last two push lines complete the tags of all five failing fields |
| Record.PushChain | server.js:77-82 | the five push lines give the tags of the failing fields, in check order |
| Record.PushAllIsTags | server.js:77-82 | the five push lines, for any rule verdicts and tags, give the tags of the failing fields in field order |
| Record.PushAllSpelled | server.js:77-82 | the same, with the verdicts and the tag strings written out as values |
| Record.RawField | server.js:63-75 | the raw value under a key, or `""` when the key is absent (`?? ""`, and the logical-or fallback to `""` at index.js:33-45) |
| Record.Columns | server.js:112-118 | the INSERT takes five parameters; parameter i is the clean value of field i of the check order |
| Record.InsertColumnsNamed | server.js:110 | column i of the INSERT's column list is the name of field i of the check order, so parameter i goes to the column of its own field |
| Record.PassingRecordFitsColumns | database.js:40-44 | a record that passes every rule fits the VARCHAR(20), VARCHAR(20), VARCHAR(10) and VARCHAR(6) columns |
| Server.ValidateRow | server.js:58-90 | `clean` holds the trimmed names and email, the digits of the phone and the unspaced eircode, whether or not the record is valid; `errors` is the `"<field> invalid"` tags of the failing fields in check order; `ok` holds exactly when `errors` is empty, and exactly when every rule passes |
| Server.ServerTag | server.js:78-82 | the server's tag for a field is its name followed by ` invalid` |
| Server.ServerErrors | server.js:77-82 | the five push lines give the `"<field> invalid"` tags of the failing fields |
| Server.ServerTagsSpelled | server.js:78-82 | the five server tags are `first_name invalid` … `eircode invalid` |
| Server.ServerTagInjective | server.js:78-82 | different fields have different server tags |
| Server.ServerErrorsExact | server.js:77-86 | a field's tag is in `errors` exactly when the field fails; no tag appears twice; at most five tags |
| Server.MissingFieldFails | server.js:63-75 | a field absent from the body is read as `""`, fails its rule and is reported |
| Server.Submit | server.js:93-127 | status 200, 400 and 500 go with the Inserted, Validation failed and Server error bodies; a failing `ensureSchema` gives 500 with its message and no insert, even for invalid input |
| Server.SubmitInsertsOnlyValid | server.js:96-119 | the INSERT is issued exactly when the schema step succeeded and every rule passed, with the five clean values in column order |
| Server.SubmitRejectsWithDetails | server.js:99-106 | invalid input after a successful schema step gives 400 with `details` equal to the non-empty `errors` |
| Server.SubmitReportsInsert | server.js:109-126 | a valid record whose INSERT succeeds gets 200 `Inserted` with that `insertId` and the clean columns as parameters; a 200 means the INSERT was issued and returned the reported `insertId`; an INSERT that throws gives 500 with its message |
| CsvImport.ValidateRow | index.js:28-60 | `clean` is read from `first_name`, `last_name`, `email`, `phone`, `eir_code` and normalised as on the server; `errors` is the bare field names of the failing fields in check order; `ok` holds exactly when `errors` is empty, and exactly when every rule passes |
| CsvImport.CsvTag | index.js:48-52 | the CSV copy's tag for a field is its bare name |
| CsvImport.CsvErrors | index.js:48-52 | the five push lines give the bare names of the failing fields |
| CsvImport.CsvTagsSpelled | index.js:48-52 | the five CSV tags are `first_name` … `eircode` |
| CsvImport.CsvTagInjective | index.js:48-52 | different fields have different CSV tags |
| CsvImport.CsvErrorsExact | index.js:47-56 | a field's name is in `errors` exactly when the field fails; no name twice; at most five |
| CsvImport.EmptyCellFails | index.js:33-45 | a missing or empty `first_name`, `last_name`, `email`, `phone` or `eir_code` cell fails the matching field |
| CsvImport.IgnoresServerKeys | index.js:33-45 | the CSV copy does not read `second_name`, `phone_number` or `eircode` columns at all |
| CsvImport.CopiesAgree | index.js:28-60 | given the same raw values under the two sets of names, both copies produce the same clean record and verdict, and each server tag is the CSV tag followed by ` invalid` |
| CsvImport.StripBom | index.js:97 | a text starting with U+FEFF loses exactly that character; any other text is unchanged |
| CsvImport.StripBomOnce | index.js:97 | of two leading U+FEFF, one stays |
| CsvImport.StripBomLeavesMark | index.js:97 | the stripped text starts with U+FEFF exactly when the file text started with two of them |
| CsvImport.Validated | index.js:109-114 | one validation result per parsed row |
| CsvImport.InsertedCount | index.js:125-128 | `inserted` never exceeds the number of rows |
| CsvImport.Attempted | index.js:117-128 | the indices of the rows an insert is attempted for, in order: at most one per row, each a valid row index |
| CsvImport.InvalidCount | index.js:117-135 | how many rows end in `invalid++` (failed validation or a thrown insert); at most the number of rows |
| CsvImport.RowLog | index.js:117-135 | a row writes at most one diagnostic, none exactly when it is valid and its insert goes through, and the diagnostic is numbered row index + 2 |
| CsvImport.Log | index.js:117-135 | the diagnostics of all rows, in row order; at most one per row |
| CsvImport.Tally | index.js:137-142 | the printed summary: `total` is the number of rows and `inserted + invalid == total` |
| CsvImport.Step | index.js:109-136 | one more row adds the row's own contribution to each counter, to the attempts and to the log |
| CsvImport.ImportRows | index.js:100-136 | `total` is the number of rows; `inserted + invalid == total`; the counters, the rows an insert is attempted for, and the diagnostics are those the specification functions give; loop invariant `rowNumber == total + 1` |
| CsvImport.CountsAddUp | index.js:117-135 | every row ends in exactly one of `inserted++` and `invalid++` |
| CsvImport.AttemptedExact | index.js:117-128 | an insert is attempted for a row exactly when it passes validation, once per row and in file order, so never retried |
| CsvImport.InsertedAtMostAttempted | index.js:125-135 | `inserted` never exceeds the number of valid rows |
| CsvImport.NoDbErrorInsertsAllValid | index.js:117-135 | when no insert of a valid row throws (invalid rows are never inserted), every valid row is inserted and the log lists only invalid rows |
| CsvImport.LogLength | index.js:117-135 | one diagnostic per row counted as invalid |
| CsvImport.LogRowNumbers | index.js:100-111 | diagnostic row numbers lie between 2 and the number of rows plus one, and strictly increase |
| CsvImport.LogInvalidExact | index.js:117-123 | `Row N invalid -> tags` is written exactly when the parsed record whose ordinal is N - 1 fails validation, with that record's tags |
| CsvImport.LogDbErrorExact | index.js:125-135 | `Row N database error -> message` is written exactly for a valid row whose insert throws that message; the loop goes on to the next row |
| CsvImport.RunImport | index.js:80-97 | a failing `ensureSchema` aborts with its message, and a missing file aborts, both before any row is read; otherwise the rows parsed from the mark-stripped text are run through the loop |

## Left out

- Express setup, `app.listen`, the port-in-use handling, `process.exit`, the `/health`
  route and static file serving: process and I/O plumbing with no decision logic.
- `database.js`: the mysql2 pool, the `CREATE TABLE` text and the connection probe are
  foreign-library calls. `ensureSchema` and the INSERT become outcomes passed in. Only
  the VARCHAR widths are used, in `PassingRecordFitsColumns`.
- `public/form.js`: DOM access, `fetch` and message display. Its rules are textually
  the same as the server's.
- csv-parser's tokenisation, `fs.existsSync`, `fs.readFileSync` and the stream: the
  rows are a parameter `parse`, and the file is an `Option<string>`. If the parser
  throws in the middle of the stream, the loop ends early and the summary is not
  printed; that path is not modelled.
- `async`/`await` scheduling: the rows are processed one after another and each INSERT
  completes before the next row, which is what the sequential loop models.
- The wording of the console output: a diagnostic is modelled as its row number plus
  its tags or message, and the summary as its three counters. `pool.end()` is not
  modelled.
- Server.ValidateRow: strings holding an unpaired surrogate are not representable, since
  a Dafny `char` is a Unicode scalar value. A JSON body can carry one (`"\ud800@b.c"`),
  and the email rule, having no `u` flag, accepts it as an ordinary code unit, so the
  server would store such an address.
- Server.ValidateRow: non-string JSON values are not modelled. `String(x)` of a number
  or boolean, and the difference between `??` (server) and `||` (CSV) on falsy values
  such as `0` or `false`, are outside the model. Every raw value is a string or absent.
- Server.Submit: an exception thrown by `validateRow` or by `res.json` itself is not
  modelled. The only thrown errors are those of `ensureSchema` and the INSERT.
- CsvImport.RunImport: an `ensureSchema` failure is modelled as an abort. In the
  program it reaches `runImport().catch`, which prints "Import failed" and exits with
  status 1. A missing file exits with status 1 after printing the path. A file that
  exists but that `readFileSync` cannot read (a permission error, a directory) throws
  into the same `catch` before any row is read; `file` has no case for it.
- CsvImport.LogInvalidExact: the diagnostic number N counts parsed records, not lines of
  the file. A quoted cell holding a newline makes them differ; the model speaks only of
  record ordinals.
