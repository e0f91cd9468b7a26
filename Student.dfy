/** The stored entity `Student`: four fields. The controller overwrites StudentName, Address and Email in place; Id is set only at creation. */
module Models {
  import opened Wrappers
  import opened Numerics

  /** The value held by a `Student` object at one moment. */
  datatype StudentData = StudentData(Id: Int32, StudentName: Option<string>, Email: Option<string>, Address: Option<string>)

  class Student {
    var Id: Int32
    var StudentName: Option<string>
    var Email: Option<string>
    var Address: Option<string>

    /** An object initializer `new Student { Id = …, StudentName = …, Email = …, Address = … }`. */
    constructor (id: Int32, studentName: Option<string>, email: Option<string>, address: Option<string>)
      ensures Data() == StudentData(id, studentName, email, address)
    {
      Id, StudentName, Email, Address := id, studentName, email, address;
    }

    function Data(): StudentData
      reads this
    {
      StudentData(Id, StudentName, Email, Address)
    }
  }

  /** The values held by a list of `Student` objects, in list order. */
  function DataOf(students: seq<Student>): (r: seq<StudentData>)
    reads students
    ensures |r| == |students|
    ensures forall k :: 0 <= k < |students| ==> r[k] == students[k].Data()
  {
    if students == [] then [] else [students[0].Data()] + DataOf(students[1..])
  }

  /** Taking one object out of a list takes its record out of the list's records. */
  lemma DataOfWithout(students: seq<Student>, k: nat)
    requires k < |students|
    ensures DataOf(students[..k] + students[k + 1..]) == DataOf(students)[..k] + DataOf(students)[k + 1..]
  {
    var lhs, rhs := DataOf(students[..k] + students[k + 1..]), DataOf(students)[..k] + DataOf(students)[k + 1..];
    assert |lhs| == |rhs|;
    forall j | 0 <= j < |lhs|
      ensures lhs[j] == rhs[j]
    {
      if j < k {
        assert lhs[j] == students[j].Data();
      } else {
        assert lhs[j] == students[j + 1].Data();
      }
    }
  }
}
