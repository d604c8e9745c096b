/** The Feature entity, the request and response records of the API, the
    response envelope, the exceptions the code throws, and the data-annotation
    validation of a create request. */
module Models {
  import opened Wrappers
  import opened Text

  /** A point of the abstract clock that stands for `DateTime`, in seconds; larger is later. */
  type Timestamp = int

  const Minute: int := 60
  const Hour: int := 60 * Minute
  const Day: int := 24 * Hour

  /** One row of the Features table: `Id` is assigned by the store, `Name` is
      unique, `LastUsed` may be null. */
  datatype Feature = Feature(
    id: int,
    name: string,
    description: string,
    status: string,
    category: string,
    icon: string,
    lastUpdated: Timestamp,
    usageCount: int,
    successRate: int,
    errorCount: int,
    lastUsed: Option<Timestamp>)

  /** The body of a create request; every field defaults to the empty string. */
  datatype CreateFeatureRequest = CreateFeatureRequest(
    name: string,
    description: string,
    status: string,
    category: string,
    icon: string)

  /** `new CreateFeatureRequest()`: all five strings empty. */
  const DefaultCreateRequest := CreateFeatureRequest("", "", "", "", "")

  /** The body of an update request: every field is optional (nullable) and unconstrained. */
  datatype UpdateFeatureRequest = UpdateFeatureRequest(
    description: Option<string>,
    status: Option<string>,
    category: Option<string>,
    icon: Option<string>)

  /** The wire form of a feature; the same eleven fields as the entity. */
  datatype FeatureResponse = FeatureResponse(
    id: int,
    name: string,
    description: string,
    status: string,
    category: string,
    icon: string,
    lastUpdated: Timestamp,
    usageCount: int,
    successRate: int,
    errorCount: int,
    lastUsed: Option<Timestamp>)

  /** The uniform response envelope `{success, message, data, errors}`. */
  datatype ApiResponse<T> = ApiResponse(
    success: bool,
    message: Option<string>,
    data: Option<T>,
    errors: Option<seq<string>>)

  /** The exception classes the code throws or switches on. */
  datatype ExceptionKind =
    | ValidationException
    | InvalidOperationException
    | UnauthorizedAccessException
    | SqliteException
    | OtherException

  datatype Exception = Exception(kind: ExceptionKind, message: string, stackTrace: Option<string>)

  /** An exception as thrown by the code: the runtime has not recorded a trace in the model. */
  function Throw(kind: ExceptionKind, message: string): Exception
  {
    Exception(kind, message, None)
  }

  // ---------------------------------------------------------------------
  // Validation of a create request ([Required] and [StringLength(n)])
  // ---------------------------------------------------------------------

  const NameMaxLength: nat := 100
  const StatusMaxLength: nat := 50
  const CategoryMaxLength: nat := 50
  const IconMaxLength: nat := 200

  /** What the create-request constraints demand, stated field by field. */
  predicate IsValidCreateRequest(r: CreateFeatureRequest)
  {
    && !IsBlank(r.name) && Utf16Length(r.name) <= NameMaxLength
    && !IsBlank(r.description)
    && !IsBlank(r.status) && Utf16Length(r.status) <= StatusMaxLength
    && !IsBlank(r.category) && Utf16Length(r.category) <= CategoryMaxLength
    && !IsBlank(r.icon) && Utf16Length(r.icon) <= IconMaxLength
  }

  /** One failed data annotation. */
  datatype ValidationError =
    | FieldRequired(field: string)
    | FieldTooLong(field: string, maximumLength: nat)

  /** The default .NET message of each annotation; it names the field. */
  function ErrorMessage(e: ValidationError): (m: string)
    ensures e.FieldRequired? ==> |m| > 4 + |e.field| && m[..4] == "The " && m[4..4 + |e.field|] == e.field
    ensures e.FieldTooLong? ==> |m| > 10 + |e.field| && m[..10] == "The field " && m[10..10 + |e.field|] == e.field
  {
    match e
    case FieldRequired(f) => "The " + f + " field is required."
    case FieldTooLong(f, n) =>
      "The field " + f + " must be a string with a maximum length of " + IntToString(n) + "."
  }

  /** The annotations of one property: `[Required]` is tried first and, when it
      fails (the value is blank), the length check is skipped. */
  function CheckField(field: string, value: string, maximumLength: Option<nat>): (errors: seq<ValidationError>)
    ensures |errors| <= 1
    ensures forall e :: e in errors ==> e.field == field
    ensures errors == [] <==> !IsBlank(value) && (maximumLength.Some? ==> Utf16Length(value) <= maximumLength.value)
    ensures FieldRequired(field) in errors <==> IsBlank(value)
    ensures maximumLength.Some? ==>
      (FieldTooLong(field, maximumLength.value) in errors <==> !IsBlank(value) && Utf16Length(value) > maximumLength.value)
    ensures maximumLength.None? ==> forall e :: e in errors ==> !e.FieldTooLong?
  {
    if IsBlank(value) then [FieldRequired(field)]
    else if maximumLength.Some? && Utf16Length(value) > maximumLength.value then [FieldTooLong(field, maximumLength.value)]
    else []
  }

  /** `Validator.TryValidateObject(request, ..., validateAllProperties: true)`:
      the failed annotations of every property, in declaration order. */
  function Validate(r: CreateFeatureRequest): (errors: seq<ValidationError>)
    ensures errors == [] <==> IsValidCreateRequest(r)
    ensures |errors| <= 5
  {
    CheckField("Name", r.name, Some(NameMaxLength))
    + CheckField("Description", r.description, None)
    + CheckField("Status", r.status, Some(StatusMaxLength))
    + CheckField("Category", r.category, Some(CategoryMaxLength))
    + CheckField("Icon", r.icon, Some(IconMaxLength))
  }

  /** An error is reported exactly when it is one of the failed annotations of its field. */
  lemma ValidateMembership(r: CreateFeatureRequest, e: ValidationError)
    ensures e in Validate(r) <==>
      || e in CheckField("Name", r.name, Some(NameMaxLength))
      || e in CheckField("Description", r.description, None)
      || e in CheckField("Status", r.status, Some(StatusMaxLength))
      || e in CheckField("Category", r.category, Some(CategoryMaxLength))
      || e in CheckField("Icon", r.icon, Some(IconMaxLength))
  {
  }

  /** Each blank field is reported as required, and only those. */
  lemma ValidateReportsRequired(r: CreateFeatureRequest)
    ensures FieldRequired("Name") in Validate(r) <==> IsBlank(r.name)
    ensures FieldRequired("Description") in Validate(r) <==> IsBlank(r.description)
    ensures FieldRequired("Status") in Validate(r) <==> IsBlank(r.status)
    ensures FieldRequired("Category") in Validate(r) <==> IsBlank(r.category)
    ensures FieldRequired("Icon") in Validate(r) <==> IsBlank(r.icon)
  {
    ValidateMembership(r, FieldRequired("Name"));
    ValidateMembership(r, FieldRequired("Description"));
    ValidateMembership(r, FieldRequired("Status"));
    ValidateMembership(r, FieldRequired("Category"));
    ValidateMembership(r, FieldRequired("Icon"));
  }

  /** Each non-blank field over its maximum length is reported as too long, and
      only those; `Description` has no maximum and is never too long. */
  lemma ValidateReportsTooLong(r: CreateFeatureRequest)
    ensures FieldTooLong("Name", NameMaxLength) in Validate(r) <==> !IsBlank(r.name) && Utf16Length(r.name) > NameMaxLength
    ensures FieldTooLong("Status", StatusMaxLength) in Validate(r) <==> !IsBlank(r.status) && Utf16Length(r.status) > StatusMaxLength
    ensures FieldTooLong("Category", CategoryMaxLength) in Validate(r) <==> !IsBlank(r.category) && Utf16Length(r.category) > CategoryMaxLength
    ensures FieldTooLong("Icon", IconMaxLength) in Validate(r) <==> !IsBlank(r.icon) && Utf16Length(r.icon) > IconMaxLength
    ensures forall n :: FieldTooLong("Description", n) !in Validate(r)
  {
    ValidateMembership(r, FieldTooLong("Name", NameMaxLength));
    ValidateMembership(r, FieldTooLong("Status", StatusMaxLength));
    ValidateMembership(r, FieldTooLong("Category", CategoryMaxLength));
    ValidateMembership(r, FieldTooLong("Icon", IconMaxLength));
    forall n ensures FieldTooLong("Description", n) !in Validate(r) {
      ValidateMembership(r, FieldTooLong("Description", n));
    }
  }

  /** `[StringLength]` counts UTF-16 code units: a name of more than fifty
      characters outside the Basic Multilingual Plane is too long, although it
      has no more than a hundred characters. */
  lemma SupplementaryNameTooLong(r: CreateFeatureRequest)
    requires |r.name| > NameMaxLength / 2
    requires forall i :: 0 <= i < |r.name| ==> IsSupplementary(r.name[i])
    ensures FieldTooLong("Name", NameMaxLength) in Validate(r)
    ensures !IsValidCreateRequest(r)
  {
    ValidateReportsTooLong(r);
  }

  /** The error messages of a validation, in order. */
  function ErrorMessages(errors: seq<ValidationError>): (messages: seq<string>)
    ensures |messages| == |errors|
    ensures forall i :: 0 <= i < |errors| ==> messages[i] == ErrorMessage(errors[i])
  {
    seq(|errors|, i requires 0 <= i < |errors| => ErrorMessage(errors[i]))
  }

  /** A request whose name is empty is rejected, and the rejection names the field. */
  lemma EmptyNameIsInvalid(r: CreateFeatureRequest)
    requires r.name == ""
    ensures !IsValidCreateRequest(r)
    ensures ErrorMessage(FieldRequired("Name")) in ErrorMessages(Validate(r))
  {
    assert Validate(r)[0] == FieldRequired("Name");
  }

  /** A freshly constructed request is invalid: all five fields are reported as required. */
  lemma DefaultCreateRequestIsInvalid()
    ensures Validate(DefaultCreateRequest) == [
      FieldRequired("Name"), FieldRequired("Description"), FieldRequired("Status"),
      FieldRequired("Category"), FieldRequired("Icon")]
  {
  }
}
