/** The student record of src/models/Student.js. */
module StudentModel {

  /** A calendar date, already parsed from its "YYYY-MM-DD" text. */
  datatype Date = Date(year: int, month: int, day: int)

  /** One reading of the wall clock (`new Date()`), passed in by the caller. */
  type Timestamp = nat

  /** A stored record: identity, personal fields and the two audit timestamps. */
  datatype Student = Student(
    id: int,
    firstName: string,
    lastName: string,
    dateOfBirth: Date,
    gpa: real,
    email: string,
    createdAt: Timestamp,
    updatedAt: Timestamp)

  /**
   * The constructor: it checks nothing (there is no requires clause), keeps
   * every argument verbatim and stamps both timestamps with the clock reading.
   */
  function NewStudent(id: int, firstName: string, lastName: string, dateOfBirth: Date,
                      gpa: real, email: string, now: Timestamp): (s: Student)
    ensures s.id == id
    ensures s.firstName == firstName && s.lastName == lastName
    ensures s.dateOfBirth == dateOfBirth && s.gpa == gpa && s.email == email
    ensures s.createdAt == now && s.updatedAt == now
  {
    Student(id, firstName, lastName, dateOfBirth, gpa, email, now, now)
  }

}
