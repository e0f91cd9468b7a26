/** `CollegeRepository.Students`: the one shared, ordered list of students, seeded with two records. */
module Repository {
  import opened Wrappers
  import opened Numerics
  import opened Models

  class CollegeRepository {
    var Students: seq<Student>

    /** No `Student` object occurs twice in the list: each was allocated for its own record. */
    ghost predicate Valid()
      reads this
    {
      forall i, j :: 0 <= i < j < |Students| ==> Students[i] != Students[j]
    }

    /** The records currently in the list. */
    function Records(): seq<StudentData>
      reads this, Students
    {
      DataOf(Students)
    }

    /** The static initializer: the list holds the two seeded students. */
    constructor ()
      ensures Valid() && Records() == SeedRecords()
      ensures forall k :: 0 <= k < |Students| ==> fresh(Students[k])
    {
      var first := new Student(1, Some("Student 1"), Some("studentemail1@gmail.com"), Some("Hyd, soksoks , soksoks"));
      var second := new Student(2, Some("Student 2"), Some("studentemail2@gmail.com"), Some("Banglore, INDIA"));
      Students := [first, second];
    }
  }

  /** The contents of the list when the process starts. */
  function SeedRecords(): seq<StudentData>
  {
    [ StudentData(1, Some("Student 1"), Some("studentemail1@gmail.com"), Some("Hyd, soksoks , soksoks")),
      StudentData(2, Some("Student 2"), Some("studentemail2@gmail.com"), Some("Banglore, INDIA")) ]
  }

  /** Every id in the list is positive. */
  ghost predicate IdsPositive(s: seq<StudentData>)
  {
    forall k :: 0 <= k < |s| ==> s[k].Id > 0
  }

  /** Ids grow strictly along the list, so no id occurs twice. */
  ghost predicate IdsIncreasing(s: seq<StudentData>)
  {
    forall i, j :: 0 <= i < j < |s| ==> s[i].Id < s[j].Id
  }
}
