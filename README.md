# CollegeApp student store, modelled in Dafny

CollegeApp is an ASP.NET Core web API over one process-wide, ordered list of students,
`CollegeRepository.Students`, seeded with two records at startup. `StudentController` serves
seven actions on it. It lists all students. It gets a student by id or by exact name. It creates
a student with the next id. It updates a student fully or with a JSON patch. It deletes a student
by id. Each action answers with an HTTP status: 200, 201, 204, 400, 404, or 500 when an unhandled
exception escapes. `StudentDto` is the transfer shape, and its validation attributes say which
payloads model validation accepts.

The model keeps the source's form:

- `Models.Student` is a class with four fields. UpdateStudent and UpdateStudentPartial
  overwrite three of them (StudentName, Address, Email) in place; `Id` is set only at creation.
- `Repository.CollegeRepository` holds `Students: seq<Student>`, a list of references;
  `Records()` is the list's value, one `StudentData` per object, in order. The constructor
  plays the static initializer.
- The three GET actions are functions of `Records()`; the four actions that change the list
  or its objects are methods with `modifies` clauses whose postconditions give the new
  `Records()` in terms of the old one and the response.
- `Dto.IsValid` is the conjunction of the attributes on `StudentDto`.
- `StoreProperties` relates several calls: the seeded contents, the id invariant (positive and
  strictly increasing), and lookups after a create, update or delete.

The model keeps the source's quirks as written:

- CreateStudent and UpdateStudentPartial return 400 when `ModelState.IsValid` is TRUE.
- The `BadRequest()` on the `id <= 0` / null-argument guards of UpdateStudent and
  UpdateStudentPartial is built and thrown away, so those actions never answer 400 for them.
- CreateStudent's new id is the LAST record's id plus one. C#'s `int` is unchecked, so after
  `int.MaxValue` it wraps to `int.MinValue` (`Numerics.Increment32`). In an empty list
  `LastOrDefault()` is null and the action throws (500).
- UpdateStudent with a null body throws only when the list is non-empty: `Where` is lazy,
  and `model.Id` is first read when the filter meets a record. With an empty list it answers 404.
- UpdateStudentPartial with a null patch document and an existing id throws in `ApplyTo` (500).
- DeleteStudentById removes with `List.Remove(student)`, the first occurrence of that object,
  which is the record the lookup found (`Collections.ListRemoveAt`).

Two consequences of the id rule:

- New ids come from the last record, not the largest one, and an empty list makes
  CreateStudent throw. While ids increase along the list, the last id is the largest
  (`StoreProperties.LastIdIsLargest`), and every action keeps that order until an id
  reaches `int.MaxValue`.
- After the wrap, a record with id `int.MinValue` answers 400 to GetStudentById and
  DeleteStudentById. UpdateStudent and UpdateStudentPartial skip the `id <= 0` check, so they
  still find and overwrite it (`StoreProperties.WrappedIdStillFoundByUpdate`).

Validation depends on one setting outside the three C# files modelled here: the project's nullable context, set in the project file.
With nullable reference types enabled, MVC treats the non-nullable `string` properties
`Email`, `Password` and `ConfirmPassword` as required, so null fails. Without them, null
passes. `Dto.Checkers.nullableEnabled` selects the case, and both are modelled.

## Model

| member | source | states |
|---|---|---|
| Numerics.Increment32 | CollegeApp/Controllers/StudentController.cs:109 | `Id + 1` on a C# `int`: one more below `int.MaxValue`, `int.MinValue` at it |
| Collections.FirstIndexWhere | CollegeApp/Controllers/StudentController.cs:41 | `Where(p).FirstOrDefault()`: the position of the first element satisfying `p`, or none exactly when no element does |
| Collections.Select | CollegeApp/Controllers/StudentController.cs:18-24 | `Select(f)`: same length, element k is `f` of element k |
| Collections.ListRemove | CollegeApp/Controllers/StudentController.cs:205 | `List.Remove(x)`: unchanged if `x` is absent, otherwise exactly one element shorter |
| Collections.ListRemoveOneFewer | CollegeApp/Controllers/StudentController.cs:205 | `List.Remove(x)` takes away one occurrence of `x`, if any, and no other element |
| Collections.ListRemoveAt | CollegeApp/Controllers/StudentController.cs:205 | removing an element whose first occurrence is at `i` leaves the elements before and after `i`, in order |
| Models.Student.constructor | CollegeApp/Controllers/StudentController.cs:110-116 | a new `Student` holds exactly the four given field values |
| Repository.CollegeRepository.constructor | CollegeApp/Models/CollegeRepository.cs:5-20 | the list starts as the two seeded records, as distinct objects |
| Repository.SeedRecords | CollegeApp/Models/CollegeRepository.cs:5-20 | the seeded field values, in list order; their properties are stated by `StoreProperties.SeedContents` |
| Dto.IsWhiteSpace | CollegeApp/DTO/StudentDto.cs:11 | the characters `char.IsWhiteSpace` accepts, which `[Required]` ignores |
| Dto.Required | CollegeApp/DTO/StudentDto.cs:11 | `[Required]`: not null and not empty or white space only |
| Dto.StringLength | CollegeApp/DTO/StudentDto.cs:12 | `[StringLength(n)]`: null, or at most `n` characters |
| Dto.EmailAddress | CollegeApp/DTO/StudentDto.cs:15 | `[EmailAddress]`: null, or accepted by the library's format check |
| Dto.Range | CollegeApp/DTO/StudentDto.cs:17 | `[Range(lo, hi)]`: both bounds inclusive |
| Dto.Compare | CollegeApp/DTO/StudentDto.cs:24 | `[Compare(nameof(Password))]`: equal to `Password`, two nulls being equal |
| Dto.InferredRequired | CollegeApp/DTO/StudentDto.cs:16-25 | under nullable reference types, a non-nullable `string` without `[Required]` fails only when null |
| Dto.IsValid | CollegeApp/DTO/StudentDto.cs:9-27 | a DTO is valid when every attribute on every property passes; `Id` is not examined |
| Dto.NullableContextDecidesNulls | CollegeApp/DTO/StudentDto.cs:16-25 | with nullable reference types a null email, password or confirmation is invalid; without them those nulls leave validity to the other rules |
| Dto.ValidIgnoresId | CollegeApp/DTO/StudentDto.cs:9-10 | `[ValidateNever]`: changing `Id` never changes validity |
| Dto.BlankNameInvalid | CollegeApp/DTO/StudentDto.cs:11-13 | `[Required]`: a null, empty or white-space name is invalid |
| Dto.LongNameInvalid | CollegeApp/DTO/StudentDto.cs:12-13 | `[StringLength(30)]`: a name over 30 characters is invalid |
| Dto.AgeOutOfRangeInvalid | CollegeApp/DTO/StudentDto.cs:17-18 | `[Range(10,20)]`: an age outside 10..20 is invalid |
| Dto.BlankAddressInvalid | CollegeApp/DTO/StudentDto.cs:20-21 | `[Required]`: a null, empty or white-space address is invalid |
| Dto.PasswordMismatchInvalid | CollegeApp/DTO/StudentDto.cs:23-25 | `[Compare]`: a confirmation that differs from the password is invalid |
| Dto.OpaqueChecksDecide | CollegeApp/DTO/StudentDto.cs:15-27 | a present email the format check rejects, or a date `[DateCheck]` rejects, makes the DTO invalid |
| Dto.SomeDtoIsValid | CollegeApp/DTO/StudentDto.cs:9-27 | the attributes can all be met: a complete DTO passes, in either nullable context, when the two opaque checks accept |
| Controller.ToDto | CollegeApp/Controllers/StudentController.cs:46-52 | the DTO built from a record carries its id, name, email and address unchanged (overwriting a record with its own DTO gives it back), with `Age` 0, null passwords and the default date |
| Controller.FindById | CollegeApp/Controllers/StudentController.cs:41 | `Where(n => n.Id == id).FirstOrDefault()`: the first record with the id, or none exactly when no record has it |
| Controller.FindByName | CollegeApp/Controllers/StudentController.cs:69 | `Where(n => n.StudentName == name).FirstOrDefault()`: the first record with exactly that name, or none exactly when no record has it |
| Controller.NextId | CollegeApp/Controllers/StudentController.cs:109 | the new id is the last record's id + 1, or `int.MinValue` when the last id is `int.MaxValue` |
| Controller.Appended | CollegeApp/Controllers/StudentController.cs:109-118 | the list after a create: the old records unchanged, then one record with the next id and the payload's name, email and address |
| Controller.GetStudents | CollegeApp/Controllers/StudentController.cs:18-27 | always 200, one DTO per record in list order, copying Id, StudentName, Address and Email |
| Controller.GetStudentById | CollegeApp/Controllers/StudentController.cs:38-55 | 400 iff `id <= 0`; 404 iff positive and no record has the id; otherwise 200 with the first record carrying it |
| Controller.GetStudentByName | CollegeApp/Controllers/StudentController.cs:66-83 | 400 iff the name is null or empty; 404 iff no record has exactly that name; otherwise 200 with the first such record |
| Controller.Overwritten | CollegeApp/Controllers/StudentController.cs:155-157 | an overwritten record keeps its id and takes name, address and email from the DTO |
| Controller.CreateStudent | CollegeApp/Controllers/StudentController.cs:94-122 | 400 iff ModelState is valid, the body is null or the admission date is before now; then 500 iff the list is empty; otherwise 201, exactly one record appended with the last id + 1, earlier records unchanged, the returned DTO carrying the new id |
| Controller.UpdateStudentPartial | CollegeApp/Controllers/StudentController.cs:135-159 | 404 iff no record has the id; 500 for a null patch; 400 iff ModelState is still valid after the patch; otherwise 204 and only the matched record's name, address and email change, to the patched values; the list is unchanged except on 204 |
| Controller.UpdateStudent | CollegeApp/Controllers/StudentController.cs:172-184 | never 400; with a null body, 500 on a non-empty list and 404 on an empty one; otherwise 404 iff no record has `model.Id`; otherwise 204 and only the matched record's name, address and email change |
| Controller.DeleteStudentById | CollegeApp/Controllers/StudentController.cs:197-207 | 400 iff `id <= 0`; 404 iff no record has the id; otherwise 200 with the removed object, the list losing exactly that record and keeping the others in order |
| StoreProperties.SeedContents | CollegeApp/Models/CollegeRepository.cs:5-20 | two seeded records, id 1 "Student 1" and id 2 "Student 2", each with a non-empty email and address |
| StoreProperties.SeedIdsWellFormed | CollegeApp/Models/CollegeRepository.cs:8-15 | the seeded ids are positive and increasing, and the first create assigns id 3 |
| StoreProperties.FindByIdUnique | CollegeApp/Controllers/StudentController.cs:41 | with increasing ids, the lookup of a record's id finds that record |
| StoreProperties.LastIdIsLargest | CollegeApp/Controllers/StudentController.cs:109 | with increasing ids the last id is the largest, and the next id exceeds every stored id |
| StoreProperties.CreateKeepsIdsWellFormed | CollegeApp/Controllers/StudentController.cs:109-118 | a create below `int.MaxValue` keeps ids positive and strictly increasing, hence unique |
| StoreProperties.CreateAfterMaxIdWraps | CollegeApp/Controllers/StudentController.cs:109 | a create after `int.MaxValue` assigns `int.MinValue`, breaking the id invariant; GetStudentById answers 400 for that id |
| StoreProperties.WrappedIdStillFoundByUpdate | CollegeApp/Controllers/StudentController.cs:172-175 | the id lookup that UpdateStudent and UpdateStudentPartial perform without an id check still finds the wrapped record, so a PUT with id `int.MinValue` overwrites it |
| StoreProperties.CreateThenGet | CollegeApp/Controllers/StudentController.cs:109-122 | get by the id a create assigned returns the new record with the submitted name, address and email |
| StoreProperties.DeleteKeepsIdsWellFormed | CollegeApp/Controllers/StudentController.cs:205 | a delete keeps ids positive and increasing |
| StoreProperties.DeleteThenGet | CollegeApp/Controllers/StudentController.cs:200-205 | with increasing ids, get by a deleted id answers 404 |
| StoreProperties.OverwriteKeepsIdsWellFormed | CollegeApp/Controllers/StudentController.cs:180-182 | overwriting one record's fields keeps the id invariant |
| StoreProperties.UpdateThenGet | CollegeApp/Controllers/StudentController.cs:175-182 | get by an updated id returns the record with the same id and the new name, address and email |
| StoreProperties.ListThenGet | CollegeApp/Controllers/StudentController.cs:18-24 | with the id invariant, every listed DTO's id gets back that same DTO |
| StoreProperties.BuiltDtosAreInvalid | CollegeApp/Controllers/StudentController.cs:46-52 | the DTOs built from records leave `Age` at 0 and so never pass validation |
| StoreProperties.CreateScenario | CollegeApp/Controllers/StudentController.cs:94-122 | from startup, creating "Student 3" with no age gives 201 and id 3, and get by id 3 returns it |
| StoreProperties.DeleteScenario | CollegeApp/Controllers/StudentController.cs:197-207 | from startup, deleting id 1 returns the first seeded record; afterwards id 1 gives 404 and id 0 gives 400 |

## Left out

- Routing and the HTTP pipeline are not modelled: route templates, `[HttpGet]`/`[HttpPost]` and the other verbs, `ActionResult` plumbing, response bodies (`ModelState` error lists, "not found" messages) and the `CreatedAtRoute` Location header. Responses are the `ActionResult` datatype.
- Route constraints are not modelled. `{name:alpha}` admits letters only, so the seeded names, which contain a space and a digit, cannot be requested by name over HTTP; `GetStudentByName` takes any string.
- The `[ApiController]` automatic 400 for an invalid ModelState, which runs before an action body, is not modelled; the methods model the action bodies, with `ModelState.IsValid` as a boolean input.
- The `GET Create` alias is not modelled separately: it reaches the same `CreateStudent` body.
- `JsonPatchDocument.ApplyTo` is library code. It is abstracted as `JsonPatch`: a function from DTO to DTO plus a flag telling whether it added an error to ModelState.
- `[EmailAddress]` and `[DateCheck]` are opaque checks, passed in as `Checkers`. The project file that sets the nullable context is not part of this model, so the context is the flag `Checkers.nullableEnabled`. `CollegeApp/Validators` is not part of this model.
- `DateTime.Now` is the `now` parameter. `DateTime` values are tick counts, and `default(DateTime)` is 0.
- The `Student` class body (`CollegeApp/Models/Student.cs`) is not part of this model. It is taken to hold `Id`, `StudentName`, `Email` and `Address`.
- Concurrency is not modelled. The static list is unsynchronised, and the model covers one call at a time.
- `GetStudents` returns a lazy `Select`, which is enumerated when the response is serialised. The model builds the list at the call.
- `StudentDto` is a request-local object in the source. It is a value here, and `model.Id = …` is a record update.
- `Dto.StringLength`, `Dto.LongNameInvalid`: `[StringLength]` counts UTF-16 code units, while a Dafny string counts Unicode scalar values, so lengths differ for characters outside the Basic Multilingual Plane.
- Exceptions other than the ones above (out of memory, serialisation failures) are not modelled.
