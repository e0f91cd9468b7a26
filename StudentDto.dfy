/** `StudentDto`, the transfer representation, and the checks its validation attributes perform. */
module Dto {
  import opened Wrappers
  import opened Numerics

  /** `AdmissionDate` is a `DateTime`, kept as its tick count; `default(DateTime)` is tick 0. */
  datatype StudentDto = StudentDto(
    Id: Int32,
    StudentName: Option<string>,
    Email: Option<string>,
    Age: Int32,
    Address: Option<string>,
    Password: Option<string>,
    ConfirmPassword: Option<string>,
    AdmissionDate: int)

  /** What validation depends on beyond the DTO: the two checks whose code lies outside this model,
      `[EmailAddress]` and the custom `[DateCheck]`, and whether the project compiles with nullable
      reference types enabled. When it does, MVC treats every non-nullable `string` property that
      has no `[Required]` of its own as required with empty strings allowed: null is then invalid. */
  datatype Checkers = Checkers(emailAddress: string -> bool, dateCheck: int -> bool, nullableEnabled: bool)

  /** `char.IsWhiteSpace`: the Unicode space separators, the line and paragraph separators,
      and U+0009..U+000D, U+0085, U+00A0. */
  predicate IsWhiteSpace(c: char)
  {
    || c == ' ' || '\t' <= c <= '\r' || c == '\U{0085}' || c == '\U{00A0}' || c == '\U{1680}'
    || '\U{2000}' <= c <= '\U{200A}' || c == '\U{2028}' || c == '\U{2029}' || c == '\U{202F}'
    || c == '\U{205F}' || c == '\U{3000}'
  }

  /** `[Required]` on a string: not null, and not empty or white space only. */
  predicate Required(v: Option<string>)
  {
    v.Some? && exists i :: 0 <= i < |v.value| && !IsWhiteSpace(v.value[i])
  }

  /** `[StringLength(n)]`: null passes; otherwise at most `n` characters. */
  predicate StringLength(v: Option<string>, n: nat)
  {
    v.None? || |v.value| <= n
  }

  /** `[Range(lo, hi)]` on an `int`: both bounds inclusive. */
  predicate Range(v: int, lo: int, hi: int)
  {
    lo <= v <= hi
  }

  /** The `[Required(AllowEmptyStrings = true)]` that MVC infers for a non-nullable `string`
      under nullable reference types: only null fails, and only in that context. */
  predicate InferredRequired(v: Option<string>, checkers: Checkers)
  {
    checkers.nullableEnabled ==> v.Some?
  }

  /** `[EmailAddress]`: null passes; otherwise the library's format check decides. */
  predicate EmailAddress(v: Option<string>, checkers: Checkers)
  {
    v.None? || checkers.emailAddress(v.value)
  }

  /** `[Compare(nameof(Password))]`: equal to the other property, where two nulls are equal. */
  predicate Compare(v: Option<string>, other: Option<string>)
  {
    v == other
  }

  /** Model validation of a `StudentDto`: every attribute on every property passes.
      `Id` is `[ValidateNever]`; `Password` carries no attribute and, like `Email` and
      `ConfirmPassword`, is required only through the nullable context. */
  predicate IsValid(d: StudentDto, checkers: Checkers)
  {
    && Required(d.StudentName) && StringLength(d.StudentName, 30)
    && InferredRequired(d.Email, checkers) && EmailAddress(d.Email, checkers)
    && Range(d.Age, 10, 20)
    && Required(d.Address)
    && InferredRequired(d.Password, checkers)
    && InferredRequired(d.ConfirmPassword, checkers) && Compare(d.ConfirmPassword, d.Password)
    && checkers.dateCheck(d.AdmissionDate)
  }

  /** `[ValidateNever]`: the id plays no part in validation. */
  lemma ValidIgnoresId(d: StudentDto, id: Int32, checkers: Checkers)
    ensures IsValid(d.(Id := id), checkers) <==> IsValid(d, checkers)
  {
  }

  /** `[Required]` on `StudentName`: a null, empty or blank name fails. */
  lemma BlankNameInvalid(d: StudentDto, checkers: Checkers)
    requires d.StudentName.Some? ==> forall i :: 0 <= i < |d.StudentName.value| ==> IsWhiteSpace(d.StudentName.value[i])
    ensures !IsValid(d, checkers)
  {
  }

  /** `[StringLength(30)]` on `StudentName`. */
  lemma LongNameInvalid(d: StudentDto, checkers: Checkers)
    requires d.StudentName.Some? && |d.StudentName.value| > 30
    ensures !IsValid(d, checkers)
  {
  }

  /** `[Range(10,20)]` on `Age`. */
  lemma AgeOutOfRangeInvalid(d: StudentDto, checkers: Checkers)
    requires d.Age < 10 || d.Age > 20
    ensures !IsValid(d, checkers)
  {
  }

  /** `[Required]` on `Address`: a null, empty or blank address fails. */
  lemma BlankAddressInvalid(d: StudentDto, checkers: Checkers)
    requires d.Address.Some? ==> forall i :: 0 <= i < |d.Address.value| ==> IsWhiteSpace(d.Address.value[i])
    ensures !IsValid(d, checkers)
  {
  }

  /** `[Compare(nameof(Password))]` on `ConfirmPassword`. */
  lemma PasswordMismatchInvalid(d: StudentDto, checkers: Checkers)
    requires d.ConfirmPassword != d.Password
    ensures !IsValid(d, checkers)
  {
  }

  /** A malformed email address or a failed date check makes the DTO invalid. */
  lemma OpaqueChecksDecide(d: StudentDto, checkers: Checkers)
    ensures d.Email.Some? && !checkers.emailAddress(d.Email.value) ==> !IsValid(d, checkers)
    ensures !checkers.dateCheck(d.AdmissionDate) ==> !IsValid(d, checkers)
  {
  }

  /** Under nullable reference types a null `Email`, `Password` or `ConfirmPassword` is invalid;
      without them, nulls in all three leave validity to the name, age, address and date rules. */
  lemma NullableContextDecidesNulls(d: StudentDto, checkers: Checkers)
    ensures checkers.nullableEnabled && (d.Email.None? || d.Password.None? || d.ConfirmPassword.None?)
      ==> !IsValid(d, checkers)
    ensures !checkers.nullableEnabled ==>
      (IsValid(d.(Email := None, Password := None, ConfirmPassword := None), checkers) <==>
        Required(d.StudentName) && StringLength(d.StudentName, 30) && Range(d.Age, 10, 20)
        && Required(d.Address) && checkers.dateCheck(d.AdmissionDate))
  {
  }

  /** The rules are not unsatisfiable: a complete DTO passes, in either nullable context, when the
      two opaque checks accept it. */
  lemma SomeDtoIsValid(checkers: Checkers)
    requires forall e :: checkers.emailAddress(e)
    requires forall t :: checkers.dateCheck(t)
    ensures IsValid(StudentDto(0, Some("Ann"), Some("ann@hyd.in"), 15, Some("Hyd"), Some("pw"), Some("pw"), 0), checkers)
  {
    var d := StudentDto(0, Some("Ann"), Some("ann@hyd.in"), 15, Some("Hyd"), Some("pw"), Some("pw"), 0);
    assert !IsWhiteSpace(d.StudentName.value[0]);
    assert !IsWhiteSpace(d.Address.value[0]);
  }
}
