/**
 * server.js: `validateRow` for one JSON form body, and the decision the `POST /api/submit`
 * handler takes from the schema check, the validation result and the insert.
 */
module Server {
  import opened Wrappers
  import opened JsText
  import opened Rules
  import opened Record

  /** The tags server.js pushes: the field name followed by " invalid". */
  function ServerTag(f: Field): string {
    FieldName(f) + " invalid"
  }

  /** `validateRow(data)`: normalise the five body fields, test each, collect the tags. */
  function ValidateRow(body: map<string, string>): (r: Validation)
    ensures r.clean == CleanRecord(
      Trim(RawField(body, "first_name")),
      Trim(RawField(body, "second_name")),
      Trim(RawField(body, "email")),
      StripNonDigits(RawField(body, "phone_number")),
      StripWs(RawField(body, "eircode")))
    ensures r.errors == Tags(ServerTag, FailingFields(r.clean))
    ensures r.ok <==> r.errors == []
    ensures r.ok <==> AllPass(r.clean)
  {
    var firstName := Trim(RawField(body, "first_name"));
    var secondName := Trim(RawField(body, "second_name"));
    var email := Trim(RawField(body, "email"));
    var phoneNumber := Trim(StripNonDigits(RawField(body, "phone_number")));
    var eircode := Trim(StripWs(RawField(body, "eircode")));
    var clean := CleanRecord(firstName, secondName, email, phoneNumber, eircode);
    var errors := ServerErrors(clean);
    TrimAfterStripNonDigits(RawField(body, "phone_number"));
    TrimAfterStripWs(RawField(body, "eircode"));
    FailingFieldsExact(clean);
    Validation(|errors| == 0, errors, clean)
  }

  /**
   * The five `if (!rule.test(value)) errors.push("<field> invalid")` lines, written out
   * with their literal tags; Record.PushAllSpelled ties them to Record.PushAll.
   */
  function ServerErrors(c: CleanRecord): (errors: seq<string>)
    ensures errors == Tags(ServerTag, FailingFields(c))
  {
    var okFirst, okSecond, okEmail := NameOk(c.firstName), NameOk(c.secondName), EmailOk(c.email);
    var okPhone, okEircode := PhoneOk(c.phoneNumber), EircodeOk(c.eircode);
    var e1 := PushUnless([], okFirst, "first_name invalid");
    var e2 := PushUnless(e1, okSecond, "second_name invalid");
    var e3 := PushUnless(e2, okEmail, "email invalid");
    var e4 := PushUnless(e3, okPhone, "phone_number invalid");
    var errors := PushUnless(e4, okEircode, "eircode invalid");
    ServerTagsSpelled();
    PushAllSpelled(Verdict(c), ServerTag, okFirst, okSecond, okEmail, okPhone, okEircode,
      "first_name invalid", "second_name invalid", "email invalid", "phone_number invalid", "eircode invalid");
    errors
  }

  lemma ServerTagsSpelled()
    ensures ServerTag(FirstName) == "first_name invalid"
    ensures ServerTag(SecondName) == "second_name invalid"
    ensures ServerTag(Email) == "email invalid"
    ensures ServerTag(PhoneNumber) == "phone_number invalid"
    ensures ServerTag(Eircode) == "eircode invalid"
  {
  }

  /** Different fields have different server tags. */
  lemma ServerTagInjective()
    ensures Injective(ServerTag)
  {
    forall f, g | ServerTag(f) == ServerTag(g) ensures f == g {
      assert |ServerTag(f)| == |FieldName(f)| + 8;
      assert |ServerTag(g)| == |FieldName(g)| + 8;
    }
  }

  /**
   * `errors` holds a tag for a field exactly when that field fails, no tag twice,
   * and at most one per field.
   */
  lemma ServerErrorsExact(body: map<string, string>, r: Validation)
    requires r == ValidateRow(body)
    ensures forall f :: ServerTag(f) in r.errors <==> !Passes(r.clean, f)
    ensures forall i, j :: 0 <= i < j < |r.errors| ==> r.errors[i] != r.errors[j]
    ensures |r.errors| <= |FieldOrder|
  {
    ServerTagInjective();
    FailingTagsExact(ServerTag, r.clean);
  }

  /** A field missing from the body behaves as the empty string, which fails its rule. */
  lemma MissingFieldFails(body: map<string, string>, f: Field)
    requires FieldName(f) !in body
    ensures !Passes(ValidateRow(body).clean, f)
    ensures ServerTag(f) in ValidateRow(body).errors
  {
    ServerErrorsExact(body, ValidateRow(body));
  }

  /** The JSON the handler sends. */
  datatype Reply =
    | ValidationFailed(details: seq<string>)  // {error: "Validation failed", details}
    | ServerError(message: string)            // {error: "Server error", details: err.message}
    | Inserted(insertId: nat)                 // {message: "Inserted", insertId}

  /** Status, body, and the parameters of the INSERT if one was issued. */
  datatype Response = Response(status: nat, reply: Reply, insertCall: Option<seq<string>>)

  /**
   * `POST /api/submit`: `ensureSchema()` first, then `validateRow`, then one INSERT.
   * `schema` is what `ensureSchema()` did; `insert` is what `pool.execute` gives back if
   * it is called (the new row's `insertId`, or the message of the error it throws).
   */
  function Submit(schema: Outcome, body: map<string, string>, insert: Result<nat, string>): (r: Response)
    ensures r.status == 200 <==> r.reply.Inserted?
    ensures r.status == 400 <==> r.reply.ValidationFailed?
    ensures r.status == 500 <==> r.reply.ServerError?
    ensures schema.Threw? ==> r == Response(500, ServerError(schema.message), None)
  {
    match schema
    case Threw(message) => Response(500, ServerError(message), None)
    case Done =>
      var result := ValidateRow(body);
      if !result.ok then
        Response(400, ValidationFailed(result.errors), None)
      else
        var params := Columns(result.clean);
        match insert
        case Success(id) => Response(200, Inserted(id), Some(params))
        case Failure(message) => Response(500, ServerError(message), Some(params))
  }

  /**
   * The INSERT is issued exactly when the schema step succeeded and every rule passed,
   * and its parameters are the five normalised values in column order.
   */
  lemma SubmitInsertsOnlyValid(schema: Outcome, body: map<string, string>, insert: Result<nat, string>, r: Response)
    requires r == Submit(schema, body, insert)
    ensures r.insertCall.Some? <==> schema.Done? && AllPass(ValidateRow(body).clean)
    ensures r.insertCall.Some? ==> r.insertCall.value == Columns(ValidateRow(body).clean)
  {
  }

  /** A 400 carries every validation tag, and there is at least one. */
  lemma SubmitRejectsWithDetails(schema: Outcome, body: map<string, string>, insert: Result<nat, string>, r: Response)
    requires r == Submit(schema, body, insert)
    ensures r.reply.ValidationFailed? ==> r.reply.details == ValidateRow(body).errors && r.reply.details != []
    ensures schema.Done? && !AllPass(ValidateRow(body).clean) ==> r.status == 400
  {
  }

  /**
   * A valid record whose INSERT succeeds gets 200 with the new `insertId`; a 200 means
   * the INSERT was issued and reported the id sent back; an INSERT that throws turns
   * into a 500 carrying its message.
   */
  lemma SubmitReportsInsert(schema: Outcome, body: map<string, string>, insert: Result<nat, string>, r: Response)
    requires r == Submit(schema, body, insert)
    ensures schema.Done? && AllPass(ValidateRow(body).clean) && insert.Success? ==>
      r == Response(200, Inserted(insert.value), Some(Columns(ValidateRow(body).clean)))
    ensures r.status == 200 ==> r.insertCall.Some? && insert == Success(r.reply.insertId)
    ensures schema.Done? && AllPass(ValidateRow(body).clean) && insert.Failure? ==>
      r == Response(500, ServerError(insert.error), Some(Columns(ValidateRow(body).clean)))
    ensures r.insertCall.Some? && insert.Failure? ==> r == Response(500, ServerError(insert.error), r.insertCall)
  {
  }
}
