/** The request serializers of the showings API: a required, non-blank,
    non-null string id under a per-serializer field name and, for the two
    show-times serializers, a `date` field in the form `YYYY-MM-DD` that must
    name a real calendar date. Field validation follows Django REST
    framework's `CharField` with the options and messages the serializers
    set. */
module Serializers {
  import opened Wrappers
  import opened Text
  import opened Calendar

  const RequiredMessage := "This field is required."
  const BlankMessage := "This field cannot be empty."
  const NullMessage := "This field cannot be null."
  /** `CharField`'s own message for a value that is not a string or number. */
  const NotAStringMessage := "Not a valid string."
  /** The message of the validator every `CharField` carries. */
  const NullCharacterMessage := "Null characters are not allowed."
  const FormatMessage := "This field must be in the format YYYY-MM-DD."
  const InvalidDateMessage := "Invalid date format."

  /** A value of the request body. `JCompound` is a list or an object. */
  datatype Json = JNull | JString(s: string) | JInt(i: int) | JBool(b: bool) | JCompound

  /** `ErrorDetail(string, code)`. */
  datatype FieldError = FieldError(message: string, code: string)

  const Required := FieldError(RequiredMessage, "required")
  const Blank := FieldError(BlankMessage, "blank")
  const Null := FieldError(NullMessage, "null")
  const NullCharacter := FieldError(NullCharacterMessage, "null_characters_not_allowed")

  /** `data.get(name)`, with `None` for an absent key. */
  function Lookup(data: map<string, Json>, name: string): Option<Json> {
    if name in data then Some(data[name]) else None
  }

  /** `CharField(required=True, allow_blank=False, allow_null=False)` with
      whitespace trimming: a string is stripped, an integer is written in
      decimal, anything else is refused with `invalidMessage`. */
  function ValidateCharField(value: Option<Json>, invalidMessage: string): (r: Result<string, FieldError>)
    ensures value.None? <==> r == Failure(Required)
    ensures value == Some(JNull) <==> r == Failure(Null)
    ensures r == Failure(Blank) <==> value.Some? && value.value.JString? && Strip(value.value.s) == ""
    ensures r.Success? ==> r.value != "" && NoOuterSpace(r.value) && '\0' !in r.value
    ensures r.Success? && value.value.JString? ==> r.value == Strip(value.value.s)
    ensures r.Success? <==> (value.Some? && (value.value.JInt?
      || (value.value.JString? && Strip(value.value.s) != "" && '\0' !in Strip(value.value.s))))
  {
    if value.None? then Failure(Required)
    else
      match value.value
      case JString(s) =>
        var t := Strip(s);
        if t == "" then Failure(Blank)
        else if '\0' in t then Failure(NullCharacter)
        else Success(t)
      case JNull => Failure(Null)
      case JInt(i) =>
        var t := IntToString(i);
        assert !IsSpace(t[0]) && !IsSpace(t[|t| - 1]) by {
          VisibleAsciiNotSpace(t[0]);
          VisibleAsciiNotSpace(t[|t| - 1]);
        }
        Success(t)
      case JBool(_) => Failure(FieldError(invalidMessage, "invalid"))
      case JCompound => Failure(FieldError(invalidMessage, "invalid"))
  }

  /** A cleaned value is accepted again unchanged. */
  lemma CharFieldIdempotent(value: Option<Json>, invalidMessage: string)
    requires ValidateCharField(value, invalidMessage).Success?
    ensures var v := ValidateCharField(value, invalidMessage).value;
      ValidateCharField(Some(JString(v)), invalidMessage) == Success(v)
  {
    var v := ValidateCharField(value, invalidMessage).value;
    StripFixesTrimmed(v);
  }

  /** The pattern `^\d{4}-\d{2}-\d{2}$` (with ASCII digits); `$` also
      matches just before a final newline. */
  predicate MatchesDatePattern(s: string) {
    IsoShape(s) || (|s| == 11 && s[10] == '\n' && IsoShape(s[..10]))
  }

  /** `validate_date`: the value must match the pattern, and its numbers
      must make a valid `datetime.date`; it is returned unchanged. */
  function ValidateDate(value: string): (r: Result<string, FieldError>)
    ensures r.Success? ==> r.value == value
    ensures r.Failure? ==> r.error.code == "invalid"
    ensures r == Failure(FieldError(FormatMessage, "invalid")) <==> !MatchesDatePattern(value)
    ensures r.Failure? && MatchesDatePattern(value) ==> r.error.message == InvalidDateMessage
  {
    if !MatchesDatePattern(value) then
      Failure(FieldError(FormatMessage, "invalid"))
    else
      assert IsoShape(value[..10]) by {
        if |value| == 10 {
          assert value[..10] == value;
        }
      }
      if !ValidDate(ParseDate(value[..10])) then
      Failure(FieldError(InvalidDateMessage, "invalid"))
    else
      Success(value)
  }

  /** Every valid date's ISO form is accepted, with or without a final
      newline ... */
  lemma ValidateDateAcceptsDates(d: Date)
    requires ValidDate(d)
    ensures ValidateDate(FormatDate(d)) == Success(FormatDate(d))
    ensures ValidateDate(FormatDate(d) + "\n") == Success(FormatDate(d) + "\n")
  {
    var s := FormatDate(d);
    assert s[..10] == s;
    assert (s + "\n")[..10] == s;
  }

  /** ... and nothing else is: an accepted value is the ISO form of a valid
      date, possibly followed by a newline. */
  lemma ValidateDateAcceptsOnlyDates(value: string)
    requires ValidateDate(value).Success?
    ensures IsoShape(value[..10]) && ValidDate(ParseDate(value[..10]))
    ensures value == FormatDate(ParseDate(value[..10]))
      || value == FormatDate(ParseDate(value[..10])) + "\n"
  {
    if |value| == 11 {
      assert value == value[..10] + "\n";
    } else {
      assert value[..10] == value;
    }
    FormatParseDate(value[..10]);
  }

  /** A `date` field: the `CharField` checks (whose "invalid" message is
      overridden with the format message), then `validate_date` on the
      cleaned value. */
  function ValidateDateField(value: Option<Json>): (r: Result<string, FieldError>)
    ensures r.Success? ==> IsoShape(r.value) && ValidDate(ParseDate(r.value))
    ensures value.None? ==> r == Failure(Required)
    ensures value == Some(JNull) ==> r == Failure(Null)
    ensures value.Some? && value.value.JString? ==> var t := Strip(value.value.s);
      && (IsoShape(t) && ValidDate(ParseDate(t)) ==> r == Success(t))
      && (IsoShape(t) && !ValidDate(ParseDate(t)) ==> r == Failure(FieldError(InvalidDateMessage, "invalid")))
      && (t != "" && '\0' !in t && !IsoShape(t) ==> r == Failure(FieldError(FormatMessage, "invalid")))
  {
    var cleaned := ValidateCharField(value, FormatMessage);
    if cleaned.Failure? then
      if value.Some? && value.value.JString? && IsoShape(Strip(value.value.s)) then
        IsoShapeIsText(Strip(value.value.s));
        assert false;
        Failure(Required)
      else
        Failure(cleaned.error)
    else
      CleanedDateIsIso(cleaned.value);
      ValidateDate(cleaned.value)
  }

  /** An ISO-shaped string is a non-empty string of digits and dashes, so
      the `CharField` checks pass it. */
  lemma IsoShapeIsText(t: string)
    requires IsoShape(t)
    ensures t != "" && '\0' !in t
  {
    forall k | 0 <= k < |t|
      ensures t[k] != '\0'
    {
      if k < 4 {
        assert IsDigit(t[..4][k]);
      } else if 5 <= k < 7 {
        assert IsDigit(t[5..7][k - 5]);
      } else if 8 <= k {
        assert IsDigit(t[8..][k - 8]);
      }
    }
  }

  /** A stripped value that passes `validate_date` has no final newline. */
  lemma CleanedDateIsIso(cleaned: string)
    requires NoOuterSpace(cleaned)
    ensures ValidateDate(cleaned).Success? ==> IsoShape(cleaned) && ValidDate(ParseDate(cleaned))
    ensures MatchesDatePattern(cleaned) <==> IsoShape(cleaned)
    ensures IsoShape(cleaned) && ValidDate(ParseDate(cleaned)) ==> ValidateDate(cleaned) == Success(cleaned)
    ensures IsoShape(cleaned) && !ValidDate(ParseDate(cleaned))
      ==> ValidateDate(cleaned) == Failure(FieldError(InvalidDateMessage, "invalid"))
  {
    if |cleaned| == 10 {
      assert cleaned[..10] == cleaned;
    }
  }

  /** The serializers of the showings API. */
  datatype SerializerKind =
    | BaseId
    | GrandClientShowingDates | GrandClientShowingTimes
    | TajClientTitleShowings | PrimeClientTitleShowings
    | GrandServiceGetShowingDates | GrandServiceGetShowingtimes

  /** `id_field_name`. */
  function IdFieldName(k: SerializerKind): string {
    match k
    case BaseId => "id"
    case GrandClientShowingDates => "grand_id"
    case GrandClientShowingTimes => "grand_id"
    case TajClientTitleShowings => "taj_id"
    case PrimeClientTitleShowings => "prime_id"
    case GrandServiceGetShowingDates => "grand_id"
    case GrandServiceGetShowingtimes => "grand_id"
  }

  predicate HasDateField(k: SerializerKind) {
    k == GrandClientShowingTimes || k == GrandServiceGetShowingtimes
  }

  const DateFieldName := "date"

  function FieldNames(k: SerializerKind): set<string> {
    if HasDateField(k) then {IdFieldName(k), DateFieldName} else {IdFieldName(k)}
  }

  /** The outcome of validating one field of `k`. */
  function FieldResult(k: SerializerKind, data: map<string, Json>, name: string): Result<string, FieldError>
    requires name in FieldNames(k)
  {
    if name == IdFieldName(k) then ValidateCharField(Lookup(data, name), NotAStringMessage)
    else ValidateDateField(Lookup(data, name))
  }

  /** `serializer.is_valid()` followed by `validated_data` or `errors`. */
  datatype Validation = Valid(data: map<string, string>) | Invalid(errors: map<string, FieldError>)

  /** Validates every field and collects either all cleaned values or
      every field's error. */
  function Validate(k: SerializerKind, data: map<string, Json>): (r: Validation)
    ensures r.Valid? <==> forall name :: name in FieldNames(k) ==> FieldResult(k, data, name).Success?
    ensures r.Valid? ==> (r.data.Keys == FieldNames(k)
      && forall name :: name in FieldNames(k) ==> r.data[name] == FieldResult(k, data, name).value)
    ensures r.Invalid? ==> forall name :: name in r.errors <==>
      (name in FieldNames(k) && FieldResult(k, data, name).Failure?)
    ensures r.Invalid? ==> forall name :: name in r.errors ==> r.errors[name] == FieldResult(k, data, name).error
  {
    var id := FieldResult(k, data, IdFieldName(k));
    if !HasDateField(k) then
      if id.Success? then Valid(map[IdFieldName(k) := id.value])
      else Invalid(map[IdFieldName(k) := id.error])
    else
      var date := FieldResult(k, data, DateFieldName);
      if id.Success? && date.Success? then
        Valid(map[IdFieldName(k) := id.value, DateFieldName := date.value])
      else
        var idErrors: map<string, FieldError> := if id.Failure? then map[IdFieldName(k) := id.error] else map[];
        var dateErrors: map<string, FieldError> := if date.Failure? then map[DateFieldName := date.error] else map[];
        Invalid(idErrors + dateErrors)
  }

  /** Keys a serializer does not declare never change its verdict. */
  lemma ExtraKeysIgnored(k: SerializerKind, data: map<string, Json>, other: map<string, Json>)
    requires forall name :: name in FieldNames(k) ==> Lookup(data, name) == Lookup(other, name)
    ensures Validate(k, data) == Validate(k, other)
  {
    assert IdFieldName(k) in FieldNames(k);
    if HasDateField(k) {
      assert DateFieldName in FieldNames(k);
    }
  }

  /** The id rule, under each serializer's own field name: missing,
      null and blank ids are refused with their own messages, and a
      non-blank string is accepted stripped. */
  lemma IdRule(k: SerializerKind, data: map<string, Json>)
    ensures IdFieldName(k) !in data ==>
      Validate(k, data).Invalid? && Validate(k, data).errors[IdFieldName(k)] == Required
    ensures Lookup(data, IdFieldName(k)) == Some(JNull) ==>
      Validate(k, data).Invalid? && Validate(k, data).errors[IdFieldName(k)] == Null
    ensures Lookup(data, IdFieldName(k)) == Some(JString("")) ==>
      Validate(k, data).Invalid? && Validate(k, data).errors[IdFieldName(k)] == Blank
    ensures Validate(k, data).Valid? ==> Validate(k, data).data[IdFieldName(k)] != ""
  {
    var v := ValidateCharField(Lookup(data, IdFieldName(k)), NotAStringMessage);
    assert Strip("") == "";
    if v.Failure? {
      IdFailure(k, data);
    } else {
      IdSuccess(k, data);
    }
  }

  lemma IdFailure(k: SerializerKind, data: map<string, Json>)
    requires ValidateCharField(Lookup(data, IdFieldName(k)), NotAStringMessage).Failure?
    ensures Validate(k, data).Invalid?
    ensures Validate(k, data).errors[IdFieldName(k)] == ValidateCharField(Lookup(data, IdFieldName(k)), NotAStringMessage).error
  {
    assert IdFieldName(k) in FieldNames(k);
  }

  lemma IdSuccess(k: SerializerKind, data: map<string, Json>)
    requires ValidateCharField(Lookup(data, IdFieldName(k)), NotAStringMessage).Success?
    ensures Validate(k, data).Valid? ==> Validate(k, data).data[IdFieldName(k)] != ""
  {
    assert IdFieldName(k) in FieldNames(k);
  }

  /** The serializers that read the Grand, Taj and Prime ids name their
      field after the cinema, the base serializer calls it "id". */
  lemma IdFieldNames()
    ensures forall k: SerializerKind :: IdFieldName(k) in {"id", "grand_id", "taj_id", "prime_id"}
    ensures forall k: SerializerKind :: IdFieldName(k) == "taj_id" <==> k == TajClientTitleShowings
    ensures forall k: SerializerKind :: IdFieldName(k) == "prime_id" <==> k == PrimeClientTitleShowings
    ensures forall k: SerializerKind :: IdFieldName(k) == "id" <==> k == BaseId
  {
  }
}

/** Dates and request bodies from the serializer tests, validated as the
    code validates them. */
module SerializerExamples {
  import opened Wrappers
  import opened Text
  import opened Calendar
  import opened Serializers

  /** Dates from the serializer tests and the calendar edge cases: a date
      is refused with the format message unless it has the shape ... */
  lemma ValidateDateFormatExamples()
    ensures ValidateDate("invalid_date") == Failure(FieldError(FormatMessage, "invalid"))
    ensures ValidateDate("2023-1-01") == Failure(FieldError(FormatMessage, "invalid"))
    ensures ValidateDate("") == Failure(FieldError(FormatMessage, "invalid"))
  {
  }

  /** ... and then with the date message unless it names a real day. */
  lemma ValidateDateTestExample()
    ensures ValidateDate("2023-01-01") == Success("2023-01-01")
  {
    DateStringExample(2023, 1, 1, "2023-01-01");
    DateExample(2023, 1, 1, "2023-01-01");
  }

  lemma ValidateDateLeapDayExample()
    ensures ValidateDate("2024-02-29") == Success("2024-02-29")
  {
    DateStringExample(2024, 2, 29, "2024-02-29");
    DateExample(2024, 2, 29, "2024-02-29");
  }

  lemma ValidateDateNoLeapDayExample()
    ensures ValidateDate("2023-02-29") == Failure(FieldError(InvalidDateMessage, "invalid"))
  {
    DateStringExample(2023, 2, 29, "2023-02-29");
    DateExample(2023, 2, 29, "2023-02-29");
  }

  lemma ValidateDateYearZeroExample()
    ensures ValidateDate("0000-01-01") == Failure(FieldError(InvalidDateMessage, "invalid"))
  {
    DateStringExample(0, 1, 1, "0000-01-01");
    DateExample(0, 1, 1, "0000-01-01");
  }

  lemma DateStringExample(year: nat, month: nat, day: nat, s: string)
    requires year < 10000 && month < 100 && day < 100
    requires s == FixedDigits(year, 4) + "-" + FixedDigits(month, 2) + "-" + FixedDigits(day, 2)
    ensures DateString(year, month, day) == s
  {
  }

  lemma DateExample(year: nat, month: nat, day: nat, s: string)
    requires year < 10000 && month < 100 && day < 100 && DateString(year, month, day) == s
    ensures ValidateDate(s) == if ValidDate(Date(year, month, day)) then Success(s)
      else Failure(FieldError(InvalidDateMessage, "invalid"))
  {
    assert s[..10] == s;
  }

  /** Request bodies from the serializer tests: a valid one ... */
  lemma ValidBodyExample()
    ensures Validate(GrandServiceGetShowingtimes, map["grand_id" := JString("123"), "date" := JString("2023-01-01")])
      == Valid(map["grand_id" := "123", "date" := "2023-01-01"])
  {
    var data := map["grand_id" := JString("123"), "date" := JString("2023-01-01")];
    BodyLookups("123", "2023-01-01");
    IdExample();
    DateFieldExample();
    BothFieldsValid(GrandServiceGetShowingtimes, data, "123", "2023-01-01");
  }

  /** The two fields of a body with both keys. */
  lemma BodyLookups(id: string, date: string)
    ensures Lookup(map["grand_id" := JString(id), "date" := JString(date)], "grand_id") == Some(JString(id))
    ensures Lookup(map["grand_id" := JString(id), "date" := JString(date)], "date") == Some(JString(date))
  {
    assert "grand_id" != "date" by { assert "grand_id"[0] != "date"[0]; }
  }

  lemma BothFieldsValid(k: SerializerKind, data: map<string, Json>, id: string, date: string)
    requires k == GrandServiceGetShowingtimes || k == GrandClientShowingTimes
    requires ValidateCharField(Lookup(data, "grand_id"), NotAStringMessage) == Success(id)
    requires ValidateDateField(Lookup(data, "date")) == Success(date)
    ensures Validate(k, data) == Valid(map["grand_id" := id, "date" := date])
  {
    assert IdFieldName(k) == "grand_id" && HasDateField(k);
    assert "grand_id" != "date" by { assert "grand_id"[0] != "date"[0]; }
    assert FieldResult(k, data, IdFieldName(k)) == Success(id);
    assert FieldResult(k, data, DateFieldName) == Success(date);
  }

  lemma OnlyDateInvalid(k: SerializerKind, data: map<string, Json>, id: string, e: FieldError)
    requires k == GrandServiceGetShowingtimes || k == GrandClientShowingTimes
    requires ValidateCharField(Lookup(data, "grand_id"), NotAStringMessage) == Success(id)
    requires ValidateDateField(Lookup(data, "date")) == Failure(e)
    ensures Validate(k, data) == Invalid(map["date" := e])
  {
    assert FieldResult(k, data, "grand_id") == Success(id);
    assert "grand_id" != "date" by { assert "grand_id"[0] != "date"[0]; }
    assert FieldResult(k, data, "date") == Failure(e);
  }

  lemma IdExample()
    ensures ValidateCharField(Some(JString("123")), NotAStringMessage) == Success("123")
  {
    VisibleAsciiNotSpace('1');
    VisibleAsciiNotSpace('3');
    assert '\0' !in "123";
    StripFixesTrimmed("123");
  }

  lemma DateFieldExample()
    ensures ValidateDateField(Some(JString("2023-01-01"))) == Success("2023-01-01")
  {
    CleanedDateExample();
    ValidateDateTestExample();
  }

  lemma CleanedDateExample()
    ensures ValidateCharField(Some(JString("2023-01-01")), FormatMessage) == Success("2023-01-01")
  {
    StripFixesTrimmed("2023-01-01");
  }

  lemma BadDateFieldExample()
    ensures ValidateDateField(Some(JString("invalid_date"))) == Failure(FieldError(FormatMessage, "invalid"))
  {
    CleanedBadDateExample();
    ValidateDateFormatExamples();
  }

  lemma CleanedBadDateExample()
    ensures ValidateCharField(Some(JString("invalid_date")), FormatMessage) == Success("invalid_date")
  {
    StripFixesTrimmed("invalid_date");
  }

  /** ... an empty one, refused on both fields ... */
  lemma EmptyBodyExample()
    ensures Validate(GrandServiceGetShowingtimes, map[])
      == Invalid(map["grand_id" := Required, "date" := Required])
  {
    assert FieldResult(GrandServiceGetShowingtimes, map[], "grand_id") == Failure(Required);
    assert FieldResult(GrandServiceGetShowingtimes, map[], "date") == Failure(Required);
  }

  /** ... and one whose date has the wrong shape. */
  lemma BadDateBodyExample()
    ensures Validate(GrandClientShowingTimes, map["grand_id" := JString("123"), "date" := JString("invalid_date")])
      == Invalid(map["date" := FieldError(FormatMessage, "invalid")])
  {
    var data := map["grand_id" := JString("123"), "date" := JString("invalid_date")];
    BodyLookups("123", "invalid_date");
    IdExample();
    BadDateFieldExample();
    OnlyDateInvalid(GrandClientShowingTimes, data, "123", FieldError(FormatMessage, "invalid"));
  }
}
