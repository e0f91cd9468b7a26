/** `StudentController`: the seven actions, as queries over the shared list's records and
    methods that change the list and its `Student` objects in place. */
module Controller {
  import opened Wrappers
  import opened Numerics
  import opened Collections
  import opened Models
  import opened Dto
  import opened Repository

  /** The responses the actions produce; `InternalServerError` stands for an unhandled
      exception, which the host turns into a 500. */
  datatype ActionResult<+T> =
    | Ok(value: T)           // 200
    | Created(value: T)      // 201, via CreatedAtRoute
    | NoContent              // 204
    | BadRequest             // 400
    | NotFound               // 404
    | InternalServerError    // 500

  /** The DTO the actions build from a record: only the four stored fields are copied, every
      other property keeps its default (`Age` 0, null passwords, `default(DateTime)`). */
  function ToDto(s: StudentData): (r: StudentDto)
    ensures r.Id == s.Id && Overwritten(s, r) == s
    ensures r.Age == 0 && r.Password.None? && r.ConfirmPassword.None? && r.AdmissionDate == 0
  {
    StudentDto(s.Id, s.StudentName, s.Email, 0, s.Address, None, None, 0)
  }

  /** `Students.Where(n => n.Id == id).FirstOrDefault()`, as a position in the list. */
  function FindById(students: seq<StudentData>, id: int): (r: Option<nat>)
    ensures r.Some? ==> r.value < |students| && students[r.value].Id == id
    ensures r.Some? ==> forall j :: 0 <= j < r.value ==> students[j].Id != id
    ensures r.None? <==> forall j :: 0 <= j < |students| ==> students[j].Id != id
  {
    FirstIndexWhere(students, (s: StudentData) => s.Id == id)
  }

  /** `Students.Where(n => n.StudentName == name).FirstOrDefault()`, as a position in the list. */
  function FindByName(students: seq<StudentData>, name: string): (r: Option<nat>)
    ensures r.Some? ==> r.value < |students| && students[r.value].StudentName == Some(name)
    ensures r.Some? ==> forall j :: 0 <= j < r.value ==> students[j].StudentName != Some(name)
    ensures r.None? <==> forall j :: 0 <= j < |students| ==> students[j].StudentName != Some(name)
  {
    FirstIndexWhere(students, (s: StudentData) => s.StudentName == Some(name))
  }

  /** GET api/Student/All: one DTO per record, in list order. */
  function GetStudents(students: seq<StudentData>): (r: ActionResult<seq<StudentDto>>)
    ensures r.Ok? && |r.value| == |students|
    ensures forall k :: 0 <= k < |students| ==>
      && r.value[k].Id == students[k].Id && r.value[k].StudentName == students[k].StudentName
      && r.value[k].Address == students[k].Address && r.value[k].Email == students[k].Email
  {
    Ok(Select(students, ToDto))
  }

  /** GET api/Student/{id}. */
  function GetStudentById(students: seq<StudentData>, id: Int32): (r: ActionResult<StudentDto>)
    ensures r.BadRequest? <==> id <= 0
    ensures r.NotFound? <==> id > 0 && forall k :: 0 <= k < |students| ==> students[k].Id != id
    ensures r.Ok? <==> id > 0 && exists k :: 0 <= k < |students| && students[k].Id == id
    ensures r.Ok? ==> exists k :: (0 <= k < |students| && students[k].Id == id
      && (forall j :: 0 <= j < k ==> students[j].Id != id) && r.value == ToDto(students[k]))
  {
    if id <= 0 then BadRequest
    else
      match FindById(students, id)
      case None => NotFound
      case Some(k) => Ok(ToDto(students[k]))
  }

  /** GET api/Student/{name}; `name` is null when the route supplies none. */
  function GetStudentByName(students: seq<StudentData>, name: Option<string>): (r: ActionResult<StudentDto>)
    ensures r.BadRequest? <==> name.None? || name.value == ""
    ensures r.NotFound? <==> (name.Some? && name.value != ""
      && forall k :: 0 <= k < |students| ==> students[k].StudentName != name)
    ensures r.Ok? <==> (name.Some? && name.value != ""
      && exists k :: 0 <= k < |students| && students[k].StudentName == name)
    ensures r.Ok? ==> name.Some? && exists k :: (0 <= k < |students| && students[k].StudentName == name
      && (forall j :: 0 <= j < k ==> students[j].StudentName != name) && r.value == ToDto(students[k]))
  {
    if name.None? || name.value == "" then BadRequest
    else
      match FindByName(students, name.value)
      case None => NotFound
      case Some(k) => Ok(ToDto(students[k]))
  }

  /** The id CreateStudent gives a new record: the last record's id plus one, wrapping at `int.MaxValue`. */
  function NextId(students: seq<StudentData>): (r: Int32)
    requires |students| > 0
    ensures students[|students| - 1].Id < MaxInt32 ==> r == students[|students| - 1].Id + 1
    ensures students[|students| - 1].Id == MaxInt32 ==> r == MinInt32
  {
    Increment32(students[|students| - 1].Id)
  }

  /** The list after a successful CreateStudent: one record appended, with the next id and the
      payload's name, email and address. */
  function Appended(students: seq<StudentData>, m: StudentDto): (r: seq<StudentData>)
    requires |students| > 0
    ensures |r| == |students| + 1 && r[..|students|] == students
    ensures r[|students|] == StudentData(NextId(students), m.StudentName, m.Email, m.Address)
  {
    students + [StudentData(NextId(students), m.StudentName, m.Email, m.Address)]
  }

  /** The record after UpdateStudent or UpdateStudentPartial: name, address and email come from `d`. */
  function Overwritten(s: StudentData, d: StudentDto): (r: StudentData)
    ensures r.Id == s.Id
    ensures r.StudentName == d.StudentName && r.Address == d.Address && r.Email == d.Email
  {
    s.(StudentName := d.StudentName, Address := d.Address, Email := d.Email)
  }

  /** POST api/Student. `modelStateValid` is `ModelState.IsValid` on entry, `now` is `DateTime.Now`. */
  method CreateStudent(repo: CollegeRepository, modelStateValid: bool, model: Option<StudentDto>, now: int)
    returns (r: ActionResult<StudentDto>)
    requires repo.Valid()
    modifies repo
    ensures repo.Valid()
    ensures r.BadRequest? <==> modelStateValid || model.None? || model.value.AdmissionDate < now
    ensures r.InternalServerError? <==> !r.BadRequest? && old(repo.Students) == []
    ensures r.Created? <==> !r.BadRequest? && old(repo.Students) != []
    ensures !r.Created? ==> repo.Students == old(repo.Students)
    ensures r.Created? ==>
      && repo.Records() == Appended(old(repo.Records()), model.value)
      && r.value == model.value.(Id := NextId(old(repo.Records())))
      && repo.Students[..|repo.Students| - 1] == old(repo.Students)
      && fresh(repo.Students[|repo.Students| - 1])
  {
    // the check is inverted in the source: a valid model is the one rejected
    if modelStateValid {
      return BadRequest;
    }
    if model.None? {
      return BadRequest;
    }
    if model.value.AdmissionDate < now {
      return BadRequest;
    }
    if repo.Students == [] {
      // `LastOrDefault()` is null, and reading its `.Id` throws
      return InternalServerError;
    }
    ghost var before := repo.Records();
    var newId := Increment32(repo.Students[|repo.Students| - 1].Id);
    assert newId == NextId(before);
    var student := new Student(newId, model.value.StudentName, model.value.Email, model.value.Address);
    repo.Students := repo.Students + [student];
    assert repo.Records() == before + [student.Data()] by {
      assert forall k :: 0 <= k < |before| ==> repo.Records()[k] == before[k];
    }
    r := Created(model.value.(Id := student.Id));
  }

  /** PATCH api/Student/{id}/UpdatePartial. `patch` applies the JSON patch document to a DTO and
      tells whether it recorded an error in ModelState; `modelStateValid` is ModelState before it. */
  method UpdateStudentPartial(repo: CollegeRepository, id: Int32, patch: Option<JsonPatch>, modelStateValid: bool)
    returns (r: ActionResult<StudentDto>)
    requires repo.Valid()
    modifies repo.Students
    ensures repo.Students == old(repo.Students) && repo.Valid()
    ensures r.NotFound? <==> FindById(old(repo.Records()), id).None?
    ensures !r.NotFound? ==>
      var k := FindById(old(repo.Records()), id).value;
      && (r.InternalServerError? <==> patch.None?)
      && (r.BadRequest? <==> patch.Some? && modelStateValid && !patch.value.reportsError(ToDto(old(repo.Records())[k])))
      && (r.NoContent? <==> patch.Some? && !(modelStateValid && !patch.value.reportsError(ToDto(old(repo.Records())[k]))))
      && (r.NoContent? ==> repo.Records() == old(repo.Records())[k := Overwritten(old(repo.Records())[k], patch.value.apply(ToDto(old(repo.Records())[k])))])
    ensures !r.NoContent? ==> repo.Records() == old(repo.Records())
  {
    // `patchDocument == null || id <= 0` builds a BadRequest that the source discards
    ghost var before := repo.Records();
    var found := FindById(repo.Records(), id);
    if found.None? {
      return NotFound;
    }
    var existingStudent := repo.Students[found.value];
    var studentDto := ToDto(existingStudent.Data());
    if patch.None? {
      // `ApplyTo` throws on a null patch document
      return InternalServerError;
    }
    var patched := patch.value.apply(studentDto);
    var stillValid := modelStateValid && !patch.value.reportsError(studentDto);
    // inverted, as in the source: a valid result is the one rejected
    if stillValid {
      return BadRequest;
    }
    existingStudent.StudentName := patched.StudentName;
    existingStudent.Address := patched.Address;
    existingStudent.Email := patched.Email;
    assert repo.Records() == before[found.value := Overwritten(before[found.value], patched)] by {
      assert forall k :: 0 <= k < |before| && k != found.value ==> repo.Students[k] != existingStudent;
    }
    r := NoContent;
  }

  /** PUT api/Student/Update; the record to change is the one whose id is `model.Id`. */
  method UpdateStudent(repo: CollegeRepository, model: Option<StudentDto>)
    returns (r: ActionResult<StudentDto>)
    requires repo.Valid()
    modifies repo.Students
    ensures repo.Students == old(repo.Students) && repo.Valid()
    ensures r.NoContent? || r.NotFound? || r.InternalServerError?
    ensures r.InternalServerError? <==> model.None? && old(repo.Students) != []
    ensures model.None? && old(repo.Students) == [] ==> r.NotFound?
    ensures model.Some? ==>
      && (r.NotFound? <==> FindById(old(repo.Records()), model.value.Id).None?)
      && (r.NoContent? ==>
            var k := FindById(old(repo.Records()), model.value.Id).value;
            repo.Records() == old(repo.Records())[k := Overwritten(old(repo.Records())[k], model.value)])
    ensures !r.NoContent? ==> repo.Records() == old(repo.Records())
  {
    // `model == null || model.Id <= 0` builds a BadRequest that the source discards
    if model.None? {
      // the lazy `Where` evaluates `model.Id` only once it meets a record
      if repo.Students == [] {
        return NotFound;
      }
      return InternalServerError;
    }
    ghost var before := repo.Records();
    var found := FindById(repo.Records(), model.value.Id);
    if found.None? {
      return NotFound;
    }
    var existingStudent := repo.Students[found.value];
    existingStudent.StudentName := model.value.StudentName;
    existingStudent.Address := model.value.Address;
    existingStudent.Email := model.value.Email;
    assert repo.Records() == before[found.value := Overwritten(before[found.value], model.value)] by {
      assert forall k :: 0 <= k < |before| && k != found.value ==> repo.Students[k] != existingStudent;
    }
    r := NoContent;
  }

  /** DELETE api/Student/{id}: the removed `Student` object is the response body. */
  method DeleteStudentById(repo: CollegeRepository, id: Int32)
    returns (r: ActionResult<Student>)
    requires repo.Valid()
    modifies repo
    ensures repo.Valid()
    ensures r.BadRequest? <==> id <= 0
    ensures r.NotFound? <==> id > 0 && FindById(old(repo.Records()), id).None?
    ensures r.Ok? <==> id > 0 && FindById(old(repo.Records()), id).Some?
    ensures !r.Ok? ==> repo.Students == old(repo.Students)
    ensures r.Ok? ==>
      var k := FindById(old(repo.Records()), id).value;
      && r.value == old(repo.Students)[k] && r.value.Data() == old(repo.Records())[k]
      && repo.Students == old(repo.Students)[..k] + old(repo.Students)[k + 1..]
      && repo.Records() == old(repo.Records())[..k] + old(repo.Records())[k + 1..]
  {
    if id <= 0 {
      return BadRequest;
    }
    var students := repo.Students;
    var records := repo.Records();
    var found := FindById(records, id);
    if found.None? {
      return NotFound;
    }
    var k := found.value;
    var student := students[k];
    var remaining := ListRemove(students, student);
    assert remaining == students[..k] + students[k + 1..] by {
      assert forall j :: 0 <= j < k ==> students[j] != student by {
        assert forall j :: 0 <= j < k ==> records[j].Id != id;
      }
      ListRemoveAt(students, student, k);
    }
    assert forall i, j :: 0 <= i < j < |remaining| ==> remaining[i] != remaining[j] by {
      DistinctWithout(students, k);
    }
    repo.Students := remaining;
    assert repo.Records() == records[..k] + records[k + 1..] by {
      DataOfWithout(students, k);
      assert forall i :: 0 <= i < |students| ==> students[i].Data() == records[i];
    }
    r := Ok(student);
  }

  /** A `JsonPatchDocument<StudentDto>`: what `ApplyTo` makes of a DTO, and whether it adds an
      error to ModelState while doing so. */
  datatype JsonPatch = JsonPatch(apply: StudentDto -> StudentDto, reportsError: StudentDto -> bool)
}
