/**
 * What both copies of `validateRow` share: the five logical fields in their fixed check
 * order, the clean record, the `{ok, errors, clean}` result, and the table the clean
 * record is inserted into.
 */
module Record {
  import opened Rules

  datatype Field = FirstName | SecondName | Email | PhoneNumber | Eircode

  /** The order in which `validateRow` tests the fields and pushes their error tags. */
  const FieldOrder: seq<Field> := [FirstName, SecondName, Email, PhoneNumber, Eircode]

  /** Position of a field in FieldOrder. */
  function Rank(f: Field): nat {
    match f
    case FirstName => 0
    case SecondName => 1
    case Email => 2
    case PhoneNumber => 3
    case Eircode => 4
  }

  /** The key of the field in `clean` and the name of its table column. */
  function FieldName(f: Field): string {
    match f
    case FirstName => "first_name"
    case SecondName => "second_name"
    case Email => "email"
    case PhoneNumber => "phone_number"
    case Eircode => "eircode"
  }

  /** `clean`: the five normalised values. */
  datatype CleanRecord = CleanRecord(
    firstName: string,
    secondName: string,
    email: string,
    phoneNumber: string,
    eircode: string)

  /** The rule each field is tested against. */
  predicate Passes(c: CleanRecord, f: Field) {
    match f
    case FirstName => NameOk(c.firstName)
    case SecondName => NameOk(c.secondName)
    case Email => EmailOk(c.email)
    case PhoneNumber => PhoneOk(c.phoneNumber)
    case Eircode => EircodeOk(c.eircode)
  }

  predicate AllPass(c: CleanRecord) {
    forall f: Field :: Passes(c, f)
  }

  /** The `{ok, errors, clean}` object `validateRow` returns. */
  datatype Validation = Validation(ok: bool, errors: seq<string>, clean: CleanRecord)

  /** The verdict of every rule on a clean record. */
  function Verdict(c: CleanRecord): Field -> bool {
    f => Passes(c, f)
  }

  /** The fields of `fs` whose verdict is false, in the order of `fs`. */
  function Failing(fs: seq<Field>, passes: Field -> bool): (r: seq<Field>)
    ensures |r| <= |fs|
  {
    if fs == [] then []
    else
      var last := fs[|fs| - 1];
      Failing(fs[..|fs| - 1], passes) + (if passes(last) then [] else [last])
  }

  /** A field is in the failing list exactly when it is in the checked list and fails. */
  lemma {:induction false} FailingMembers(fs: seq<Field>, passes: Field -> bool)
    ensures forall f :: f in Failing(fs, passes) <==> f in fs && !passes(f)
  {
    if fs != [] {
      var init, last := fs[..|fs| - 1], fs[|fs| - 1];
      FailingMembers(init, passes);
      assert fs == init + [last];
    }
  }

  /** The fields of a clean record that fail, in check order. */
  function FailingFields(c: CleanRecord): seq<Field> {
    Failing(FieldOrder, Verdict(c))
  }

  predicate RankIncreasing(fs: seq<Field>) {
    forall i, j :: 0 <= i < j < |fs| ==> Rank(fs[i]) < Rank(fs[j])
  }

  lemma {:induction false} FailingKeepsOrder(fs: seq<Field>, passes: Field -> bool)
    requires RankIncreasing(fs)
    ensures RankIncreasing(Failing(fs, passes))
  {
    if fs != [] {
      var init, last := fs[..|fs| - 1], fs[|fs| - 1];
      var rest := Failing(init, passes);
      assert RankIncreasing(init) by {
        forall i, j | 0 <= i < j < |init| ensures Rank(init[i]) < Rank(init[j]) {
          assert init[i] == fs[i] && init[j] == fs[j];
        }
      }
      FailingKeepsOrder(init, passes);
      FailingMembers(init, passes);
      forall f | f in rest ensures Rank(f) < Rank(last) {
        var k :| 0 <= k < |init| && init[k] == f;
        assert fs[k] == f;
      }
    }
  }

  /** Every field is checked, and the check order is the rank order. */
  lemma FieldOrderComplete()
    ensures forall f: Field :: f in FieldOrder
    ensures RankIncreasing(FieldOrder)
  {
    forall f: Field ensures f in FieldOrder {
      assert FieldOrder[Rank(f)] == f;
    }
  }

  /**
   * For any verdicts, the failing list of the check order holds exactly the failing
   * fields, each once, in check order, and is empty exactly when every verdict is true.
   */
  lemma FailingOfFieldOrder(passes: Field -> bool)
    ensures forall f :: f in Failing(FieldOrder, passes) <==> !passes(f)
    ensures RankIncreasing(Failing(FieldOrder, passes))
    ensures Failing(FieldOrder, passes) == [] <==> forall f: Field :: passes(f)
  {
    var fs := Failing(FieldOrder, passes);
    FieldOrderComplete();
    FailingKeepsOrder(FieldOrder, passes);
    FailingMembers(FieldOrder, passes);
    if fs != [] {
      assert fs[0] in fs && !passes(fs[0]);
    }
  }

  /**
   * The failing fields are exactly the fields that fail, each once, in check order;
   * there are none exactly when every rule passes.
   */
  lemma FailingFieldsExact(c: CleanRecord)
    ensures forall f :: f in FailingFields(c) <==> !Passes(c, f)
    ensures RankIncreasing(FailingFields(c))
    ensures FailingFields(c) == [] <==> AllPass(c)
  {
    FailingOfFieldOrder(Verdict(c));
  }

  /** The tags of a list of fields, one per field, in the same order. */
  function Tags(tag: Field -> string, fs: seq<Field>): (r: seq<string>)
    ensures |r| == |fs|
  {
    if fs == [] then [] else Tags(tag, fs[..|fs| - 1]) + [tag(fs[|fs| - 1])]
  }

  /** Tag `i` is the tag of field `i`. */
  lemma {:induction false} TagsAt(tag: Field -> string, fs: seq<Field>)
    ensures forall i :: 0 <= i < |fs| ==> Tags(tag, fs)[i] == tag(fs[i])
  {
    if fs != [] {
      TagsAt(tag, fs[..|fs| - 1]);
    }
  }

  /** Different fields get different tags. */
  predicate Injective(tag: Field -> string) {
    forall f, g :: tag(f) == tag(g) ==> f == g
  }

  /** With distinct tags per field, a field's tag is in the list exactly when the field is. */
  lemma TagsNameFields(tag: Field -> string, fs: seq<Field>)
    requires Injective(tag)
    ensures forall f :: tag(f) in Tags(tag, fs) <==> f in fs
  {
    var ts := Tags(tag, fs);
    TagsAt(tag, fs);
    forall f ensures tag(f) in ts <==> f in fs {
      if tag(f) in ts {
        var i :| 0 <= i < |ts| && ts[i] == tag(f);
        assert tag(fs[i]) == tag(f);
        assert fs[i] in fs;
      }
      if f in fs {
        var i :| 0 <= i < |fs| && fs[i] == f;
        assert ts[i] == tag(f);
      }
    }
  }

  /** Fields in check order, each with its own tag, give a list without repeats. */
  lemma TagsDistinct(tag: Field -> string, fs: seq<Field>)
    requires Injective(tag) && RankIncreasing(fs)
    ensures forall i, j :: 0 <= i < j < |Tags(tag, fs)| ==> Tags(tag, fs)[i] != Tags(tag, fs)[j]
  {
    var ts := Tags(tag, fs);
    TagsAt(tag, fs);
    forall i, j | 0 <= i < j < |ts| ensures ts[i] != ts[j] {
      assert Rank(fs[i]) < Rank(fs[j]);
      assert ts[i] == tag(fs[i]) && ts[j] == tag(fs[j]);
    }
  }

  /**
   * With distinct tags per field, the tag list names exactly the failing fields,
   * never the same tag twice, and holds at most one tag per field.
   */
  lemma FailingTagsExact(tag: Field -> string, c: CleanRecord)
    requires Injective(tag)
    ensures forall f :: tag(f) in Tags(tag, FailingFields(c)) <==> !Passes(c, f)
    ensures forall i, j :: 0 <= i < j < |Tags(tag, FailingFields(c))| ==>
      Tags(tag, FailingFields(c))[i] != Tags(tag, FailingFields(c))[j]
    ensures |Tags(tag, FailingFields(c))| <= |FieldOrder|
  {
    FailingFieldsExact(c);
    TagsNameFields(tag, FailingFields(c));
    TagsDistinct(tag, FailingFields(c));
  }

  /** `if (!passed) errors.push(tag)`. */
  function PushUnless(errors: seq<string>, passed: bool, tag: string): seq<string> {
    if passed then errors else errors + [tag]
  }

  /** The five guarded pushes of `validateRow`, in check order, for a given tag spelling. */
  function PushAll(passes: Field -> bool, tag: Field -> string): seq<string> {
    var e1 := PushUnless([], passes(FirstName), tag(FirstName));
    var e2 := PushUnless(e1, passes(SecondName), tag(SecondName));
    var e3 := PushUnless(e2, passes(Email), tag(Email));
    var e4 := PushUnless(e3, passes(PhoneNumber), tag(PhoneNumber));
    PushUnless(e4, passes(Eircode), tag(Eircode))
  }

  lemma FailingSnoc(fs: seq<Field>, passes: Field -> bool, k: nat)
    requires k < |fs|
    ensures passes(fs[k]) ==> Failing(fs[..k + 1], passes) == Failing(fs[..k], passes)
    ensures !passes(fs[k]) ==> Failing(fs[..k + 1], passes) == Failing(fs[..k], passes) + [fs[k]]
  {
    assert fs[..k + 1][..k] == fs[..k];
    var done := Failing(fs[..k], passes);
    assert done + [] == done;
  }

  lemma TagsSnoc(tag: Field -> string, done: seq<Field>, f: Field)
    ensures Tags(tag, done + [f]) == Tags(tag, done) + [tag(f)]
  {
    assert (done + [f])[..|done|] == done;
  }

  /** Each guarded push extends the tags of the fields checked so far. */
  lemma PushStep(fs: seq<Field>, passes: Field -> bool, tag: Field -> string, errors: seq<string>, k: nat)
    requires k < |fs|
    requires errors == Tags(tag, Failing(fs[..k], passes))
    ensures PushUnless(errors, passes(fs[k]), tag(fs[k])) == Tags(tag, Failing(fs[..k + 1], passes))
  {
    FailingSnoc(fs, passes, k);
    TagsSnoc(tag, Failing(fs[..k], passes), fs[k]);
  }

  /** The pushes produce the tags of exactly the failing fields, in check order. */
  lemma PushAllIsTags(passes: Field -> bool, tag: Field -> string)
    ensures PushAll(passes, tag) == Tags(tag, Failing(FieldOrder, passes))
  {
    PushChain(FieldOrder, passes, tag);
  }

  predicate InCheckOrder(fs: seq<Field>) {
    |fs| == 5 && fs[0] == FirstName && fs[1] == SecondName && fs[2] == Email
    && fs[3] == PhoneNumber && fs[4] == Eircode
  }

  /*
   * The five pushes are proved in two halves, PushChainHead and PushChainTail, to keep
   * each proof small. ServerErrors and CsvErrors write the five pushes out with their
   * literal tags, as the two copies of `validateRow` do; PushAllSpelled ties such a
   * spelled-out chain to PushAll.
   */
  lemma PushChainHead(fs: seq<Field>, passes: Field -> bool, tag: Field -> string)
    requires InCheckOrder(fs)
    ensures PushUnless(PushUnless(PushUnless([], passes(FirstName), tag(FirstName)),
      passes(SecondName), tag(SecondName)), passes(Email), tag(Email))
      == Tags(tag, Failing(fs[..3], passes))
  {
    var e0: seq<string> := [];
    var e1 := PushUnless(e0, passes(FirstName), tag(FirstName));
    var e2 := PushUnless(e1, passes(SecondName), tag(SecondName));
    assert fs[..0] == [];
    PushStep(fs, passes, tag, e0, 0);
    PushStep(fs, passes, tag, e1, 1);
    PushStep(fs, passes, tag, e2, 2);
  }

  lemma PushChainTail(fs: seq<Field>, passes: Field -> bool, tag: Field -> string, e3: seq<string>)
    requires InCheckOrder(fs)
    requires e3 == Tags(tag, Failing(fs[..3], passes))
    ensures PushUnless(PushUnless(e3, passes(PhoneNumber), tag(PhoneNumber)), passes(Eircode), tag(Eircode))
      == Tags(tag, Failing(fs, passes))
  {
    var e4 := PushUnless(e3, passes(PhoneNumber), tag(PhoneNumber));
    PushStep(fs, passes, tag, e3, 3);
    PushStep(fs, passes, tag, e4, 4);
    assert fs[..5] == fs;
  }

  lemma PushChain(fs: seq<Field>, passes: Field -> bool, tag: Field -> string)
    requires InCheckOrder(fs)
    ensures PushAll(passes, tag) == Tags(tag, Failing(fs, passes))
  {
    PushChainHead(fs, passes, tag);
    var e3 := PushUnless(PushUnless(PushUnless([], passes(FirstName), tag(FirstName)),
      passes(SecondName), tag(SecondName)), passes(Email), tag(Email));
    PushChainTail(fs, passes, tag, e3);
  }

  /** A push chain written with the verdicts and the tags spelled out is PushAll. */
  lemma PushAllSpelled(passes: Field -> bool, tag: Field -> string,
                       b1: bool, b2: bool, b3: bool, b4: bool, b5: bool,
                       t1: string, t2: string, t3: string, t4: string, t5: string)
    requires passes(FirstName) == b1 && passes(SecondName) == b2 && passes(Email) == b3
    requires passes(PhoneNumber) == b4 && passes(Eircode) == b5
    requires tag(FirstName) == t1 && tag(SecondName) == t2 && tag(Email) == t3
    requires tag(PhoneNumber) == t4 && tag(Eircode) == t5
    ensures PushUnless(PushUnless(PushUnless(PushUnless(PushUnless([], b1, t1), b2, t2), b3, t3), b4, t4), b5, t5)
      == Tags(tag, Failing(FieldOrder, passes))
  {
    PushAllIsTags(passes, tag);
  }

  /** A raw field: the string under `key`, or "" when the key is absent (`?? ""`, `|| ""`). */
  function RawField(raw: map<string, string>, key: string): string {
    if key in raw then raw[key] else ""
  }

  /** The value `clean[FieldName(f)]`: the field `f` of the clean record. */
  function Value(c: CleanRecord, f: Field): string {
    match f
    case FirstName => c.firstName
    case SecondName => c.secondName
    case Email => c.email
    case PhoneNumber => c.phoneNumber
    case Eircode => c.eircode
  }

  /** The column list of the INSERT statement. */
  const InsertColumns: seq<string> := ["first_name", "second_name", "email", "phone_number", "eircode"]

  /** Column i of the INSERT statement is named after field i of the check order. */
  lemma InsertColumnsNamed()
    ensures |InsertColumns| == |FieldOrder|
    ensures forall i :: 0 <= i < |InsertColumns| ==> InsertColumns[i] == FieldName(FieldOrder[i])
  {
  }

  /** The parameter vector of the parameterised INSERT: parameter i is the value of field i. */
  function Columns(c: CleanRecord): (r: seq<string>)
    ensures |r| == |FieldOrder|
    ensures forall i :: 0 <= i < |r| ==> r[i] == Value(c, FieldOrder[i])
  {
    [c.firstName, c.secondName, c.email, c.phoneNumber, c.eircode]
  }

  /** The declared VARCHAR widths of the five columns, in column order. */
  const ColumnWidths: seq<nat> := [20, 20, 255, 10, 6]

  /**
   * A record that passes every rule fits the table's name, phone and eircode columns;
   * the email column is the exception, since its rule sets no length bound
   * (Rules.EmailHasNoLengthBound).
   */
  lemma PassingRecordFitsColumns(c: CleanRecord)
    requires AllPass(c)
    ensures forall i :: 0 <= i < 5 && i != 2 ==> |Columns(c)[i]| <= ColumnWidths[i]
  {
    assert Passes(c, FirstName) && Passes(c, SecondName);
    assert Passes(c, PhoneNumber) && Passes(c, Eircode);
  }

  /** What a database call gives back: done, or a thrown error with its message. */
  datatype Outcome = Done | Threw(message: string)
}
