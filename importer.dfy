/**
 * index.js: the CSV copy of `validateRow`, the byte-order-mark strip applied to the
 * file text, and the `runImport` loop that validates each parsed row, inserts the
 * valid ones and keeps the summary counters.
 */
module CsvImport {
  import opened Wrappers
  import opened JsText
  import opened Rules
  import opened Record
  import Server

  /** The tags index.js pushes: the bare field name. */
  function CsvTag(f: Field): string {
    FieldName(f)
  }

  /** `validateRow(row)` for a CSV row: the same rules, read from the CSV column names. */
  function ValidateRow(row: map<string, string>): (r: Validation)
    ensures r.clean == CleanRecord(
      Trim(RawField(row, "first_name")),
      Trim(RawField(row, "last_name")),
      Trim(RawField(row, "email")),
      StripNonDigits(RawField(row, "phone")),
      StripWs(RawField(row, "eir_code")))
    ensures r.errors == Tags(CsvTag, FailingFields(r.clean))
    ensures r.ok <==> r.errors == []
    ensures r.ok <==> AllPass(r.clean)
  {
    var firstName := Trim(RawField(row, "first_name"));
    var secondName := Trim(RawField(row, "last_name"));
    var email := Trim(RawField(row, "email"));
    var phoneNumber := Trim(StripNonDigits(RawField(row, "phone")));
    var eircode := Trim(StripWs(RawField(row, "eir_code")));
    var clean := CleanRecord(firstName, secondName, email, phoneNumber, eircode);
    var errors := CsvErrors(clean);
    TrimAfterStripNonDigits(RawField(row, "phone"));
    TrimAfterStripWs(RawField(row, "eir_code"));
    FailingFieldsExact(clean);
    Validation(|errors| == 0, errors, clean)
  }

  /**
   * The five `if (!rule.test(value)) errors.push("<field>")` lines, written out with
   * their literal tags; Record.PushAllSpelled ties them to Record.PushAll.
   */
  function CsvErrors(c: CleanRecord): (errors: seq<string>)
    ensures errors == Tags(CsvTag, FailingFields(c))
  {
    var okFirst, okSecond, okEmail := NameOk(c.firstName), NameOk(c.secondName), EmailOk(c.email);
    var okPhone, okEircode := PhoneOk(c.phoneNumber), EircodeOk(c.eircode);
    var e1 := PushUnless([], okFirst, "first_name");
    var e2 := PushUnless(e1, okSecond, "second_name");
    var e3 := PushUnless(e2, okEmail, "email");
    var e4 := PushUnless(e3, okPhone, "phone_number");
    var errors := PushUnless(e4, okEircode, "eircode");
    CsvTagsSpelled();
    PushAllSpelled(Verdict(c), CsvTag, okFirst, okSecond, okEmail, okPhone, okEircode,
      "first_name", "second_name", "email", "phone_number", "eircode");
    errors
  }

  lemma CsvTagsSpelled()
    ensures CsvTag(FirstName) == "first_name"
    ensures CsvTag(SecondName) == "second_name"
    ensures CsvTag(Email) == "email"
    ensures CsvTag(PhoneNumber) == "phone_number"
    ensures CsvTag(Eircode) == "eircode"
  {
  }

  /** Different fields have different CSV tags. */
  lemma CsvTagInjective()
    ensures Injective(CsvTag)
  {
    forall f, g | CsvTag(f) == CsvTag(g) ensures f == g {
      assert |CsvTag(f)| == |FieldName(f)| && |CsvTag(g)| == |FieldName(g)|;
    }
  }

  /**
   * `errors` holds a field's name exactly when that field fails, no name twice,
   * and at most one per field.
   */
  lemma CsvErrorsExact(row: map<string, string>, r: Validation)
    requires r == ValidateRow(row)
    ensures forall f :: CsvTag(f) in r.errors <==> !Passes(r.clean, f)
    ensures forall i, j :: 0 <= i < j < |r.errors| ==> r.errors[i] != r.errors[j]
    ensures |r.errors| <= |FieldOrder|
  {
    CsvTagInjective();
    FailingTagsExact(CsvTag, r.clean);
  }

  /**
   * A missing or empty CSV cell is the empty string, which fails its rule: an empty
   * `last_name` puts `second_name` in the errors.
   */
  lemma EmptyCellFails(row: map<string, string>, key: string, f: Field)
    requires (key, f) in {("first_name", FirstName), ("last_name", SecondName), ("email", Email),
      ("phone", PhoneNumber), ("eir_code", Eircode)}
    requires RawField(row, key) == ""
    ensures !Passes(ValidateRow(row).clean, f)
    ensures CsvTag(f) in ValidateRow(row).errors
  {
    CsvErrorsExact(row, ValidateRow(row));
  }

  /** The CSV copy does not read the JSON names of the renamed columns. */
  lemma IgnoresServerKeys(row: map<string, string>, key: string, value: string)
    requires key in {"second_name", "phone_number", "eircode"}
    ensures ValidateRow(row[key := value]) == ValidateRow(row)
  {
    var row' := row[key := value];
    assert RawField(row', "first_name") == RawField(row, "first_name");
    assert RawField(row', "last_name") == RawField(row, "last_name");
    assert RawField(row', "email") == RawField(row, "email");
    assert RawField(row', "phone") == RawField(row, "phone");
    assert RawField(row', "eir_code") == RawField(row, "eir_code");
  }

  /**
   * The two copies of `validateRow` agree once the column names are mapped: the same
   * clean record, the same verdict, and the server tag is the CSV tag plus " invalid".
   */
  lemma CopiesAgree(body: map<string, string>, row: map<string, string>)
    requires RawField(body, "first_name") == RawField(row, "first_name")
    requires RawField(body, "second_name") == RawField(row, "last_name")
    requires RawField(body, "email") == RawField(row, "email")
    requires RawField(body, "phone_number") == RawField(row, "phone")
    requires RawField(body, "eircode") == RawField(row, "eir_code")
    ensures Server.ValidateRow(body).clean == ValidateRow(row).clean
    ensures Server.ValidateRow(body).ok == ValidateRow(row).ok
    ensures |Server.ValidateRow(body).errors| == |ValidateRow(row).errors|
    ensures forall i :: 0 <= i < |ValidateRow(row).errors| ==>
      Server.ValidateRow(body).errors[i] == ValidateRow(row).errors[i] + " invalid"
  {
    var c := ValidateRow(row).clean;
    var fs := FailingFields(c);
    TagsAt(CsvTag, fs);
    TagsAt(Server.ServerTag, fs);
  }

  /** U+FEFF, which `text.replace(/^\uFEFF/, "")` removes from the front of the file text. */
  const Bom: char := '\U{FEFF}'

  /** `text.replace(/^\uFEFF/, "")`: one leading U+FEFF is removed, nothing else changes. */
  function StripBom(text: string): (r: string)
    ensures |text| > 0 && text[0] == Bom ==> text == [Bom] + r
    ensures !(|text| > 0 && text[0] == Bom) ==> r == text
  {
    if |text| > 0 && text[0] == Bom then text[1..] else text
  }

  /** The pattern is anchored and not global: of two leading marks, one stays. */
  lemma StripBomOnce(rest: string)
    ensures StripBom([Bom, Bom] + rest) == [Bom] + rest
  {
    assert ([Bom, Bom] + rest)[1..] == [Bom] + rest;
  }

  /** The stripped text starts with U+FEFF exactly when the file started with two of them. */
  lemma StripBomLeavesMark(text: string)
    ensures (|StripBom(text)| > 0 && StripBom(text)[0] == Bom) <==>
      (|text| > 1 && text[0] == Bom && text[1] == Bom)
  {
  }

  /** One diagnostic line: `Row N invalid -> tags` or `Row N database error -> message`. */
  datatype Diagnostic =
    | RowInvalid(rowNumber: nat, tags: seq<string>)
    | RowDbError(rowNumber: nat, message: string)

  /** The three counters of the import summary. */
  datatype Summary = Summary(total: nat, inserted: nat, invalid: nat)

  /** The validation result of every parsed row, in file order. */
  function Validated(rows: seq<map<string, string>>): (vs: seq<Validation>)
    ensures |vs| == |rows|
  {
    seq(|rows|, i requires 0 <= i < |rows| => ValidateRow(rows[i]))
  }

  /**
   * The indices of the rows an insert is attempted for, in the order of the
   * attempts (0 is the first data row).
   */
  function Attempted(vs: seq<Validation>): (r: seq<nat>)
    ensures |r| <= |vs|
    ensures forall j :: 0 <= j < |r| ==> r[j] < |vs|
  {
    if vs == [] then []
    else
      var k := |vs| - 1;
      Attempted(vs[..k]) + (if vs[k].ok then [k] else [])
  }

  /** Row `k` is valid and its insert went through. */
  predicate Stored(k: nat, v: Validation, db: (nat, CleanRecord) -> Outcome) {
    v.ok && db(k, v.clean).Done?
  }

  /** How many rows end with `inserted++`. */
  function InsertedCount(vs: seq<Validation>, db: (nat, CleanRecord) -> Outcome): (n: nat)
    ensures n <= |vs|
  {
    if vs == [] then 0
    else
      var k := |vs| - 1;
      InsertedCount(vs[..k], db) + (if Stored(k, vs[k], db) then 1 else 0)
  }

  /** How many rows end with `invalid++`: the rows that fail validation or whose insert throws. */
  function InvalidCount(vs: seq<Validation>, db: (nat, CleanRecord) -> Outcome): (n: nat)
    ensures n <= |vs|
  {
    if vs == [] then 0
    else
      var k := |vs| - 1;
      InvalidCount(vs[..k], db) + (if Stored(k, vs[k], db) then 0 else 1)
  }

  /**
   * The diagnostic row `k` (0-based) produces. `rowNumber` starts at 1 for the header and
   * counts parsed records, so row `k` is reported as number `k + 2`.
   */
  function RowLog(k: nat, v: Validation, db: (nat, CleanRecord) -> Outcome): (r: seq<Diagnostic>)
    ensures |r| <= 1
    ensures r == [] <==> Stored(k, v, db)
    ensures r != [] ==> r[0].rowNumber == k + 2
  {
    if !v.ok then [RowInvalid(k + 2, v.errors)]
    else match db(k, v.clean)
      case Done => []
      case Threw(message) => [RowDbError(k + 2, message)]
  }

  /** Every diagnostic the loop writes, in order. */
  function Log(vs: seq<Validation>, db: (nat, CleanRecord) -> Outcome): (r: seq<Diagnostic>)
    ensures |r| <= |vs|
  {
    if vs == [] then []
    else
      var k := |vs| - 1;
      Log(vs[..k], db) + RowLog(k, vs[k], db)
  }

  /** The summary the loop prints. */
  function Tally(vs: seq<Validation>, db: (nat, CleanRecord) -> Outcome): (s: Summary)
    ensures s.total == |vs| && s.inserted + s.invalid == s.total
  {
    CountsAddUp(vs, db);
    Summary(|vs|, InsertedCount(vs, db), InvalidCount(vs, db))
  }

  /** What one more row adds to each of the loop's specification functions. */
  lemma Step(vs: seq<Validation>, i: nat, db: (nat, CleanRecord) -> Outcome)
    requires i < |vs|
    ensures InsertedCount(vs[..i + 1], db) == InsertedCount(vs[..i], db) + (if Stored(i, vs[i], db) then 1 else 0)
    ensures InvalidCount(vs[..i + 1], db) == InvalidCount(vs[..i], db) + (if Stored(i, vs[i], db) then 0 else 1)
    ensures Attempted(vs[..i + 1]) == Attempted(vs[..i]) + (if vs[i].ok then [i] else [])
    ensures Log(vs[..i + 1], db) == Log(vs[..i], db) + RowLog(i, vs[i], db)
  {
    assert vs[..i + 1][..i] == vs[..i];
  }

  /**
   * The `for await (const row of stream)` loop of `runImport`. `db(k, clean)` is what
   * `insertRow(clean)` does for data row `k`: it resolves or throws with a message.
   * Returns the summary counters, the rows an insert was attempted for, and the log.
   */
  method ImportRows(rows: seq<map<string, string>>, db: (nat, CleanRecord) -> Outcome)
    returns (summary: Summary, attempts: seq<nat>, log: seq<Diagnostic>)
    ensures summary == Tally(Validated(rows), db)
    ensures summary.total == |rows| && summary.inserted + summary.invalid == summary.total
    ensures attempts == Attempted(Validated(rows))
    ensures log == Log(Validated(rows), db)
  {
    ghost var vs := Validated(rows);
    var rowNumber := 1;
    var total, inserted, invalid := 0, 0, 0;
    attempts, log := [], [];
    for i := 0 to |rows|
      invariant total == i && rowNumber == total + 1
      invariant inserted + invalid == total
      invariant inserted == InsertedCount(vs[..i], db) && invalid == InvalidCount(vs[..i], db)
      invariant attempts == Attempted(vs[..i])
      invariant log == Log(vs[..i], db)
    {
      Step(vs, i, db);
      rowNumber := rowNumber + 1;
      total := total + 1;
      var result := ValidateRow(rows[i]);
      assert result == vs[i];
      if !result.ok {
        invalid := invalid + 1;
        log := log + [RowInvalid(rowNumber, result.errors)];
        continue;
      }
      attempts := attempts + [i];
      match db(i, result.clean)
      case Done =>
        inserted := inserted + 1;
      case Threw(message) =>
        invalid := invalid + 1;
        log := log + [RowDbError(rowNumber, message)];
    }
    assert vs[..|rows|] == vs;
    summary := Summary(total, inserted, invalid);
  }

  /** Every row ends in exactly one of `inserted++` and `invalid++`. */
  lemma {:induction false} CountsAddUp(vs: seq<Validation>, db: (nat, CleanRecord) -> Outcome)
    ensures InsertedCount(vs, db) + InvalidCount(vs, db) == |vs|
  {
    if vs != [] {
      CountsAddUp(vs[..|vs| - 1], db);
    }
  }

  /** An increasing list: no index twice. */
  predicate Increasing(s: seq<nat>) {
    forall i, j :: 0 <= i < j < |s| ==> s[i] < s[j]
  }

  /**
   * An insert is attempted for a row exactly when it passes validation, once per row
   * and in file order, so never retried.
   */
  lemma {:induction false} AttemptedExact(vs: seq<Validation>)
    ensures forall k: nat :: k in Attempted(vs) <==> k < |vs| && vs[k].ok
    ensures Increasing(Attempted(vs))
  {
    if vs != [] {
      var k := |vs| - 1;
      var init := vs[..k];
      AttemptedExact(init);
      forall j | 0 <= j < k ensures init[j] == vs[j] {
      }
      var a := Attempted(init);
      if vs[k].ok {
        forall i, j | 0 <= i < j < |a| + 1 ensures (a + [k])[i] < (a + [k])[j] {
          if j == |a| {
            assert a[i] in a;
          }
        }
      }
    }
  }

  /** At most the attempted rows are inserted: `inserted` never exceeds the valid rows. */
  lemma {:induction false} InsertedAtMostAttempted(vs: seq<Validation>, db: (nat, CleanRecord) -> Outcome)
    ensures InsertedCount(vs, db) <= |Attempted(vs)|
  {
    if vs != [] {
      InsertedAtMostAttempted(vs[..|vs| - 1], db);
    }
  }

  /** When no insert throws, every valid row is inserted and the log holds only invalid rows. */
  lemma {:induction false} NoDbErrorInsertsAllValid(vs: seq<Validation>, db: (nat, CleanRecord) -> Outcome)
    requires forall k :: 0 <= k < |vs| && vs[k].ok ==> db(k, vs[k].clean) == Done
    ensures InsertedCount(vs, db) == |Attempted(vs)|
    ensures forall d :: d in Log(vs, db) ==> d.RowInvalid?
  {
    if vs != [] {
      var k := |vs| - 1;
      var init := vs[..k];
      forall j | 0 <= j < |init| && init[j].ok ensures db(j, init[j].clean) == Done {
        assert init[j] == vs[j];
      }
      NoDbErrorInsertsAllValid(init, db);
    }
  }

  /** One diagnostic per row counted `invalid`. */
  lemma {:induction false} LogLength(vs: seq<Validation>, db: (nat, CleanRecord) -> Outcome)
    ensures |Log(vs, db)| == InvalidCount(vs, db)
  {
    if vs != [] {
      LogLength(vs[..|vs| - 1], db);
    }
  }

  /** Diagnostic row numbers run from 2 to one more than the number of rows, strictly increasing. */
  lemma {:induction false} LogRowNumbers(vs: seq<Validation>, db: (nat, CleanRecord) -> Outcome)
    ensures forall j :: 0 <= j < |Log(vs, db)| ==> 2 <= Log(vs, db)[j].rowNumber <= |vs| + 1
    ensures forall i, j :: 0 <= i < j < |Log(vs, db)| ==> Log(vs, db)[i].rowNumber < Log(vs, db)[j].rowNumber
  {
    if vs != [] {
      var k := |vs| - 1;
      LogRowNumbers(vs[..k], db);
    }
  }

  /** A `Row N invalid -> tags` line is written exactly for each row that fails validation. */
  lemma {:induction false} LogInvalidExact(vs: seq<Validation>, db: (nat, CleanRecord) -> Outcome)
    ensures forall n: nat, t :: RowInvalid(n, t) in Log(vs, db) <==>
      2 <= n < |vs| + 2 && !vs[n - 2].ok && vs[n - 2].errors == t
  {
    if vs != [] {
      var k := |vs| - 1;
      var init := vs[..k];
      LogInvalidExact(init, db);
      LogRowNumbers(init, db);
      forall j | 0 <= j < k ensures init[j] == vs[j] {
      }
    }
  }

  /** A `Row N database error -> message` line is written exactly for each insert that throws. */
  lemma {:induction false} LogDbErrorExact(vs: seq<Validation>, db: (nat, CleanRecord) -> Outcome)
    ensures forall n: nat, m :: RowDbError(n, m) in Log(vs, db) <==>
      2 <= n < |vs| + 2 && vs[n - 2].ok && db(n - 2, vs[n - 2].clean) == Threw(m)
  {
    if vs != [] {
      var k := |vs| - 1;
      var init := vs[..k];
      LogDbErrorExact(init, db);
      LogRowNumbers(init, db);
      forall j | 0 <= j < k ensures init[j] == vs[j] {
      }
    }
  }

  /** Why `runImport` stops without reading any row. */
  datatype Abort =
    | SchemaFailed(message: string)  // `ensureSchema()` threw: "Import failed: <message>"
    | FileNotFound                   // `fs.existsSync(filePath)` was false: "CSV file not found"

  /** What a completed import produced. */
  datatype Report = Report(rows: seq<map<string, string>>, summary: Summary, attempts: seq<nat>, log: seq<Diagnostic>)

  /**
   * `runImport()`: the schema step, the file check, the mark strip, then the loop.
   * `schema` is what `ensureSchema()` did, `file` is the file text if the file exists,
   * and `parse` is csv-parser turning text into rows keyed by the header line.
   */
  method RunImport(schema: Outcome, file: Option<string>, parse: string -> seq<map<string, string>>,
                   db: (nat, CleanRecord) -> Outcome)
    returns (r: Result<Report, Abort>)
    ensures schema.Threw? ==> r == Failure(SchemaFailed(schema.message))
    ensures schema.Done? && file.None? ==> r == Failure(FileNotFound)
    ensures schema.Done? && file.Some? ==> r.Success? && r.value.rows == parse(StripBom(file.value))
    ensures r.Success? ==>
      && r.value.summary == Tally(Validated(r.value.rows), db)
      && r.value.attempts == Attempted(Validated(r.value.rows))
      && r.value.log == Log(Validated(r.value.rows), db)
  {
    if schema.Threw? {
      return Failure(SchemaFailed(schema.message));
    }
    if file.None? {
      return Failure(FileNotFound);
    }
    var text := StripBom(file.value);
    var rows := parse(text);
    var summary, attempts, log := ImportRows(rows, db);
    r := Success(Report(rows, summary, attempts, log));
  }
}
