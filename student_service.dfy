/**
 * The in-memory store of StudentService: an ordered collection of records and
 * the counter that hands out identifiers.
 */
module StudentService {
  import opened Results
  import opened StudentModel
  import opened StudentRules
  import opened StudentStatistics

  /** No two records share an identifier. */
  predicate DistinctIds(s: seq<Student>)
  {
    forall i, j | 0 <= i < j < |s| :: s[i].id != s[j].id
  }

  /**
   * `findIndex(student => student.id === id)`: the position of the first
   * record with the identifier, or -1 when there is none.
   */
  function FindIndex(s: seq<Student>, id: int): (i: int)
    ensures -1 <= i < |s|
    ensures i == -1 <==> forall k | 0 <= k < |s| :: s[k].id != id
    ensures i >= 0 ==> s[i].id == id && forall k | 0 <= k < i :: s[k].id != id
  {
    if s == [] then -1
    else if s[0].id == id then 0
    else
      var j := FindIndex(s[1..], id);
      assert forall k | 1 <= k < |s| :: s[k] == s[1..][k - 1];
      if j < 0 then -1 else j + 1
  }

  /** The records whose identifier differs from `id`, in their original order. */
  function Without(s: seq<Student>, id: int): seq<Student>
  {
    if s == [] then []
    else (if s[0].id == id then [] else [s[0]]) + Without(s[1..], id)
  }

  /** Filtering out an identifier nobody has keeps the collection as it is. */
  lemma {:induction false} WithoutAbsent(s: seq<Student>, id: int)
    requires forall k | 0 <= k < |s| :: s[k].id != id
    ensures Without(s, id) == s
  {
    if s != [] {
      WithoutAbsent(s[1..], id);
    }
  }

  /**
   * With distinct identifiers, cutting out the first record with `id` (the
   * splice of deleteStudent) is the same as filtering out `id`: exactly
   * that record goes and the survivors keep their relative order.
   */
  lemma {:induction false} RemoveFirstIsWithout(s: seq<Student>, id: int)
    requires DistinctIds(s)
    requires FindIndex(s, id) >= 0
    ensures var i := FindIndex(s, id); s[..i] + s[i + 1..] == Without(s, id)
  {
    var i := FindIndex(s, id);
    if i == 0 {
      assert forall k | 0 <= k < |s[1..]| :: s[1..][k] == s[k + 1];
      WithoutAbsent(s[1..], id);
    } else {
      var t := s[1..];
      assert forall k | 0 <= k < |t| :: t[k] == s[k + 1];
      assert FindIndex(t, id) == i - 1;
      RemoveFirstIsWithout(t, id);
      assert s[..i] + s[i + 1..] == [s[0]] + (t[..i - 1] + t[i..]);
    }
  }

  /** The identifiers of a collection. */
  function Ids(s: seq<Student>): set<int>
  {
    set k | 0 <= k < |s| :: s[k].id
  }

  /** The store: `students` in insertion order and `nextId`, the next identifier to hand out. */
  class StudentStore {
    var students: seq<Student>
    var nextId: nat
    /** Every identifier ever handed out, including those of deleted records. */
    ghost var issued: set<int>

    /**
     * The store invariant: identifiers are distinct, were all handed out by
     * this store, and lie in [1, nextId); every record passes the GPA and
     * email rules.
     */
    ghost predicate Valid()
      reads this
    {
      && 1 <= nextId
      && DistinctIds(students)
      && Ids(students) <= issued
      && (forall id | id in issued :: 1 <= id < nextId)
      && (forall k | 0 <= k < |students| :: ValidRecord(students[k]))
    }

    /** An empty store whose first identifier is 1. */
    constructor ()
      ensures Valid()
      ensures students == [] && nextId == 1 && issued == {}
    {
      students := [];
      nextId := 1;
      issued := {};
    }

    /**
     * createStudent: checks GPA, age and email in that order. On a failure the
     * store is untouched; otherwise the new record takes the old `nextId`,
     * which no record ever had, and is appended.
     */
    method CreateStudent(firstName: string, lastName: string, dateOfBirth: Date, gpa: real,
                         email: string, today: Date, now: Timestamp)
      returns (r: Result<Student, Error>)
      requires Valid()
      modifies this
      ensures Valid()
      ensures CheckNew(dateOfBirth, gpa, email, today).Some? ==>
                && r == Failure(CheckNew(dateOfBirth, gpa, email, today).value)
                && students == old(students) && nextId == old(nextId) && issued == old(issued)
      ensures CheckNew(dateOfBirth, gpa, email, today).None? ==>
                && r == Success(NewStudent(old(nextId), firstName, lastName, dateOfBirth, gpa, email, now))
                && students == old(students) + [r.value]
                && nextId == old(nextId) + 1
                && r.value.id !in old(issued)
                && issued == old(issued) + {r.value.id}
    {
      var check := CheckNew(dateOfBirth, gpa, email, today);
      if check.Some? {
        return Failure(check.value);
      }
      var student := NewStudent(nextId, firstName, lastName, dateOfBirth, gpa, email, now);
      nextId := nextId + 1;
      students := students + [student];
      issued := issued + {student.id};
      assert Ids(students) == Ids(old(students)) + {student.id} by {
        assert forall k | 0 <= k < |old(students)| :: students[k] == old(students)[k];
        assert students[|old(students)|] == student;
      }
      r := Success(student);
    }

    /** getAllStudents: the records, in insertion order. */
    function GetAllStudents(): (all: seq<Student>)
      reads this
      ensures |all| == |students| && forall k | 0 <= k < |all| :: all[k] == students[k]
    {
      students
    }

    /**
     * getStudentById: the first record with the identifier, or nothing when
     * no record has it.
     */
    function GetStudentById(id: int): (r: Option<Student>)
      reads this
      ensures r.None? <==> forall k | 0 <= k < |students| :: students[k].id != id
      ensures r.Some? ==>
                && r.value.id == id
                && exists i | 0 <= i < |students| ::
                     students[i] == r.value && forall k | 0 <= k < i :: students[k].id != id
    {
      var i := FindIndex(students, id);
      if i < 0 then None else Some(students[i])
    }

    /**
     * updateStudent: "Student not found" when no record has the identifier;
     * otherwise the supplied fields are checked (GPA, date of birth, email)
     * and, on a failure, the store is untouched. On success the found record
     * is replaced, where it stood, by the updated one; nothing else changes.
     */
    method UpdateStudent(id: int, u: StudentUpdate, today: Date, now: Timestamp)
      returns (r: Result<Student, Error>)
      requires Valid()
      modifies this
      ensures Valid()
      ensures nextId == old(nextId) && issued == old(issued)
      ensures FindIndex(old(students), id) < 0 ==>
                r == Failure(NotFound) && students == old(students)
      ensures FindIndex(old(students), id) >= 0 && CheckUpdate(u, today).Some? ==>
                r == Failure(CheckUpdate(u, today).value) && students == old(students)
      ensures FindIndex(old(students), id) >= 0 && CheckUpdate(u, today).None? ==>
                var i := FindIndex(old(students), id);
                && r == Success(ApplyUpdate(old(students)[i], u, now))
                && students == old(students)[i := r.value]
    {
      var i := FindIndex(students, id);
      if i < 0 {
        return Failure(NotFound);
      }
      var check := CheckUpdate(u, today);
      if check.Some? {
        return Failure(check.value);
      }
      var updated := ApplyUpdate(students[i], u, now);
      CheckedUpdateKeepsRecordValid(students[i], u, today, now);
      students := students[i := updated];
      assert Ids(students) == Ids(old(students)) by {
        assert students[i].id == old(students)[i].id;
        assert forall k | 0 <= k < |students| :: students[k].id == old(students)[k].id;
      }
      r := Success(updated);
    }

    /**
     * deleteStudent: "Student not found" when no record has the identifier;
     * otherwise the first record with it is removed and returned, the others
     * keep their order, and the counter is not wound back.
     */
    method DeleteStudent(id: int) returns (r: Result<Student, Error>)
      requires Valid()
      modifies this
      ensures Valid()
      ensures nextId == old(nextId) && issued == old(issued)
      ensures FindIndex(old(students), id) < 0 ==>
                r == Failure(NotFound) && students == old(students)
      ensures FindIndex(old(students), id) >= 0 ==>
                var i := FindIndex(old(students), id);
                && r == Success(old(students)[i])
                && students == old(students)[..i] + old(students)[i + 1..]
                && students == Without(old(students), id)
                && forall k | 0 <= k < |students| :: students[k].id != id
    {
      var i := FindIndex(students, id);
      if i == -1 {
        return Failure(NotFound);
      }
      r := Success(students[i]);
      RemoveFirstIsWithout(students, id);
      students := students[..i] + students[i + 1..];
      assert forall k | 0 <= k < |students| ::
        students[k] == old(students)[if k < i then k else k + 1];
      assert Ids(students) <= Ids(old(students)) by {
        forall x | x in Ids(students) ensures x in Ids(old(students)) {
          var k :| 0 <= k < |students| && students[k].id == x;
          var j := if k < i then k else k + 1;
          assert old(students)[j].id == x;
        }
      }
    }

    /**
     * getStatistics over the stored records; in a valid store the lowest,
     * highest and mean GPA all lie in [0, 4.0].
     */
    function GetStatistics(): (st: Statistics)
      reads this
      ensures st == ComputeStatistics(students)
      ensures Valid() && students != [] ==>
                0.0 <= st.lowestGPA <= st.averageGPA <= st.highestGPA <= 4.0
    {
      ComputeStatistics(students)
    }
  }

  /**
   * The first half of the scenario below: in an empty store, A and B are
   * created (identifiers 1 and 2) and A is deleted, leaving only B.
   */
  method CreateTwoDeleteFirst(store: StudentStore, dob: Date, email: string, today: Date)
    returns (a: Student, b: Student)
    requires store.Valid() && store.students == [] && store.nextId == 1
    requires CheckNew(dob, 3.8, email, today) == None && CheckNew(dob, 3.5, email, today) == None
    modifies store
    ensures store.Valid() && store.students == [b] && store.nextId == 3
    ensures a.id == 1 && b.id == 2
  {
    var ra := store.CreateStudent("John", "Doe", dob, 3.8, email, today, 0);
    a := ra.value;
    var rb := store.CreateStudent("Jane", "Smith", dob, 3.5, email, today, 1);
    b := rb.value;
    assert store.students == [a, b];
    var deleted := store.DeleteStudent(1);
    assert store.students == [a, b][1..];
  }

  /**
   * A store used end to end: A and B are created (identifiers 1 and 2), A is
   * deleted, C is created and gets 3, not 1; the store then holds exactly B
   * and C, in that order.
   */
  method Scenario() returns (ids: seq<int>, remaining: seq<int>)
    ensures ids == [1, 2, 3]
    ensures remaining == [2, 3]
  {
    var email := "a@b.c";
    assert ValidateEmail(email) by { EmailExamples(); }
    var today := Date(2025, 6, 1);
    var dob := Date(2005, 6, 15);
    assert ValidateAge(dob, today);
    var store := new StudentStore();
    var a, b := CreateTwoDeleteFirst(store, dob, email, today);
    var c := store.CreateStudent("Carl", "Jones", dob, 3.0, email, today, 2);
    ids := [a.id, b.id, c.value.id];
    var all := store.GetAllStudents();
    assert all == [b, c.value];
    remaining := seq(|all|, k requires 0 <= k < |all| => all[k].id);
    assert |remaining| == 2 && remaining[0] == 2 && remaining[1] == 3;
  }
}
