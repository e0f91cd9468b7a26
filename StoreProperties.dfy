/** What the controller's actions guarantee about the shared list over several calls:
    the seeded contents, the id invariant, and lookups after a create, update or delete. */
module StoreProperties {
  import opened Wrappers
  import opened Numerics
  import opened Models
  import opened Dto
  import opened Repository
  import opened Controller

  /** The list starts with two records, "Student 1" with id 1 and "Student 2" with id 2. */
  lemma SeedContents()
    ensures |SeedRecords()| == 2
    ensures SeedRecords()[0].Id == 1 && SeedRecords()[0].StudentName == Some("Student 1")
    ensures SeedRecords()[1].Id == 2 && SeedRecords()[1].StudentName == Some("Student 2")
    ensures forall k :: 0 <= k < 2 ==>
      SeedRecords()[k].Email.Some? && SeedRecords()[k].Email.value != "" &&
      SeedRecords()[k].Address.Some? && SeedRecords()[k].Address.value != ""
  {
  }

  /** The seeded ids are positive and increasing, so the first create hands out id 3. */
  lemma SeedIdsWellFormed()
    ensures IdsPositive(SeedRecords()) && IdsIncreasing(SeedRecords())
    ensures NextId(SeedRecords()) == 3
  {
  }

  /** With increasing ids, a record is the first one carrying its id: id lookups find exactly it. */
  lemma FindByIdUnique(s: seq<StudentData>, k: nat)
    requires IdsIncreasing(s) && k < |s|
    ensures FindById(s, s[k].Id) == Some(k)
  {
  }

  /** With increasing ids the last record carries the largest id, so "last id + 1" and
      "largest id + 1" agree while there is no wrap-around. */
  lemma LastIdIsLargest(s: seq<StudentData>)
    requires IdsIncreasing(s) && |s| > 0
    ensures forall k :: 0 <= k < |s| ==> s[k].Id <= s[|s| - 1].Id
    ensures s[|s| - 1].Id < MaxInt32 ==> forall k :: 0 <= k < |s| ==> s[k].Id < NextId(s)
  {
  }

  /** A create keeps the ids positive and increasing, unless the last id is `int.MaxValue`. */
  lemma CreateKeepsIdsWellFormed(s: seq<StudentData>, m: StudentDto)
    requires IdsPositive(s) && IdsIncreasing(s) && |s| > 0 && s[|s| - 1].Id < MaxInt32
    ensures IdsPositive(Appended(s, m)) && IdsIncreasing(Appended(s, m))
  {
  }

  /** After `int.MaxValue` the next id wraps to `int.MinValue`: the new record's id is negative,
      the list's ids stop increasing, and GetStudentById can no longer reach the record. */
  lemma CreateAfterMaxIdWraps(s: seq<StudentData>, m: StudentDto)
    requires |s| > 0 && s[|s| - 1].Id == MaxInt32
    ensures NextId(s) == MinInt32
    ensures !IdsPositive(Appended(s, m)) && !IdsIncreasing(Appended(s, m))
    ensures GetStudentById(Appended(s, m), NextId(s)) == BadRequest
  {
    var t := Appended(s, m);
    assert t[|s|].Id < 0;
    assert t[|s| - 1].Id > t[|s|].Id;
  }

  /** The wrapped record is still reachable by the two update actions, which skip the `id <= 0`
      check: with positive ids before, the lookup they perform finds exactly the new record. */
  lemma WrappedIdStillFoundByUpdate(s: seq<StudentData>, m: StudentDto)
    requires IdsPositive(s) && |s| > 0 && s[|s| - 1].Id == MaxInt32
    ensures FindById(Appended(s, m), MinInt32) == Some(|s|)
  {
    var t := Appended(s, m);
    assert forall k :: 0 <= k < |s| ==> t[k].Id == s[k].Id;
  }

  /** Create, then get by the returned id: the new record comes back with the submitted name,
      address and email. */
  lemma CreateThenGet(s: seq<StudentData>, m: StudentDto)
    requires IdsPositive(s) && IdsIncreasing(s) && |s| > 0 && s[|s| - 1].Id < MaxInt32
    ensures GetStudentById(Appended(s, m), NextId(s)) == Ok(ToDto(StudentData(NextId(s), m.StudentName, m.Email, m.Address)))
  {
    CreateKeepsIdsWellFormed(s, m);
    FindByIdUnique(Appended(s, m), |s|);
  }

  /** Delete keeps the ids positive and increasing. */
  lemma DeleteKeepsIdsWellFormed(s: seq<StudentData>, k: nat)
    requires IdsPositive(s) && IdsIncreasing(s) && k < |s|
    ensures IdsPositive(s[..k] + s[k + 1..]) && IdsIncreasing(s[..k] + s[k + 1..])
  {
  }

  /** Delete, then get by the same id: with increasing ids nothing else carried it, so 404. */
  lemma DeleteThenGet(s: seq<StudentData>, id: Int32)
    requires IdsIncreasing(s) && id > 0 && FindById(s, id).Some?
    ensures var k := FindById(s, id).value; GetStudentById(s[..k] + s[k + 1..], id) == NotFound
  {
  }

  /** Overwriting name, address and email of one record changes no id, so the invariant holds. */
  lemma OverwriteKeepsIdsWellFormed(s: seq<StudentData>, k: nat, d: StudentDto)
    requires IdsPositive(s) && IdsIncreasing(s) && k < |s|
    ensures IdsPositive(s[k := Overwritten(s[k], d)]) && IdsIncreasing(s[k := Overwritten(s[k], d)])
  {
  }

  /** Update, then get by the same id: the overwritten record comes back, with its id unchanged
      and the new name, address and email. No invariant is needed: ids are untouched. */
  lemma UpdateThenGet(s: seq<StudentData>, id: Int32, d: StudentDto)
    requires id > 0 && FindById(s, id).Some?
    ensures var k := FindById(s, id).value;
      var r := GetStudentById(s[k := Overwritten(s[k], d)], id);
      && r.Ok? && r.value.Id == id
      && r.value.StudentName == d.StudentName && r.value.Address == d.Address && r.value.Email == d.Email
  {
    var k := FindById(s, id).value;
    var t := s[k := Overwritten(s[k], d)];
    assert forall i :: 0 <= i < |t| ==> t[i].Id == s[i].Id;
  }

  /** List, then get each listed id: every record is found again, itself. */
  lemma ListThenGet(s: seq<StudentData>)
    requires IdsPositive(s) && IdsIncreasing(s)
    ensures forall k :: 0 <= k < |s| ==>
      GetStudentById(s, GetStudents(s).value[k].Id) == Ok(GetStudents(s).value[k])
  {
  }

  /** The DTOs the controller builds from records leave `Age` at 0, outside `[Range(10,20)]`:
      none of them would pass model validation. */
  lemma BuiltDtosAreInvalid(s: StudentData, checkers: Checkers)
    ensures !IsValid(ToDto(s), checkers)
  {
  }

  /** From startup: POST a third student, which gets id 3, then GET it back by that id. */
  method CreateScenario(checkers: Checkers, now: int)
    returns (created: ActionResult<StudentDto>, fetched: ActionResult<StudentDto>)
    ensures created.Created? && created.value.Id == 3
    ensures fetched == Ok(ToDto(StudentData(3, Some("Student 3"), Some("a@b.com"), Some("X"))))
  {
    var repo := new CollegeRepository();
    SeedIdsWellFormed();
    // a payload without an age fails [Range(10,20)], so the inverted check lets it through
    var payload := StudentDto(0, Some("Student 3"), Some("a@b.com"), 0, Some("X"), None, None, now);
    assert !IsValid(payload, checkers);
    created := CreateStudent(repo, IsValid(payload, checkers), Some(payload), now);
    CreateThenGet(SeedRecords(), payload);
    fetched := GetStudentById(repo.Records(), 3);
  }

  /** From startup: DELETE id 1, which returns the first seeded student, then GET id 1 (404)
      and GET id 0 (400). */
  method DeleteScenario() returns (deleted: Option<StudentData>, refetched: ActionResult<StudentDto>, zero: ActionResult<StudentDto>)
    ensures deleted == Some(SeedRecords()[0])
    ensures refetched == NotFound
    ensures zero == BadRequest
  {
    var repo := new CollegeRepository();
    SeedIdsWellFormed();
    FindByIdUnique(SeedRecords(), 0);
    var removed := DeleteStudentById(repo, 1);
    deleted := if removed.Ok? then Some(removed.value.Data()) else None;
    DeleteThenGet(SeedRecords(), 1);
    refetched := GetStudentById(repo.Records(), 1);
    zero := GetStudentById(repo.Records(), 0);
  }
}
