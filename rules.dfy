/**
 * The validation rules of StudentService (src/services/StudentService.js):
 * GPA bounds, age from a birth date, the email shape, and the order in which
 * create and update apply them.
 */
module StudentRules {
  import opened Results
  import opened StudentModel

  /** The errors the service throws. */
  datatype Error = InvalidGpa | Underage | InvalidEmail | NotFound

  /**
   * The message each error is thrown with. "Student not found" is the one
   * message a caller turns into a missing-resource answer; no validation
   * error carries it.
   */
  function Message(e: Error): (m: string)
    ensures m == "Student not found" <==> e == NotFound
  {
    match e
    case InvalidGpa => "GPA must be between 0 and 4.0"
    case Underage => "Student must be at least 18 years old"
    case InvalidEmail => "Invalid email format"
    case NotFound => "Student not found"
  }

  /** A caller can tell every error apart by its message alone. */
  lemma MessagesDistinct(e1: Error, e2: Error)
    ensures Message(e1) == Message(e2) <==> e1 == e2
  {
  }

  // ---------------------------------------------------------------- GPA

  /** validateGPA: the grade-point average lies in [0, 4.0], both ends included. */
  predicate ValidateGpa(gpa: real)
    ensures ValidateGpa(gpa) <==> gpa == 0.0 || gpa == 4.0 || 0.0 < gpa < 4.0
  {
    0.0 <= gpa <= 4.0
  }

  /** The boundary values: 0 and 4.0 pass; -0.01, 4.01 and 5.0 do not. */
  lemma GpaBoundaries()
    ensures ValidateGpa(0.0) && ValidateGpa(4.0)
    ensures !ValidateGpa(-0.01) && !ValidateGpa(4.01) && !ValidateGpa(5.0)
  {
  }

  // ---------------------------------------------------------------- Age

  /** Calendar order on dates: year, then month, then day. */
  predicate OnOrBefore(a: Date, b: Date)
  {
    a.year < b.year ||
    (a.year == b.year && (a.month < b.month || (a.month == b.month && a.day <= b.day)))
  }

  /** The n-th birthday of someone born on `dob`. */
  function Anniversary(dob: Date, n: int): Date
  {
    Date(dob.year + n, dob.month, dob.day)
  }

  /** `n` full years have elapsed by `today`, and not `n + 1`. */
  predicate CompletedYears(dob: Date, today: Date, n: int)
  {
    OnOrBefore(Anniversary(dob, n), today) && !OnOrBefore(Anniversary(dob, n + 1), today)
  }

  /**
   * calculateAge: the difference of the years, less one when this year's
   * birthday (same month and day) is still to come. `today` is the clock.
   */
  function CalculateAge(dob: Date, today: Date): (age: int)
    ensures CompletedYears(dob, today, age)
  {
    var years := today.year - dob.year;
    var monthDiff := today.month - dob.month;
    if monthDiff < 0 || (monthDiff == 0 && today.day < dob.day) then years - 1 else years
  }

  /** The age is the one and only count of completed years. */
  lemma AgeIsUnique(dob: Date, today: Date, n: int)
    requires CompletedYears(dob, today, n)
    ensures n == CalculateAge(dob, today)
  {
  }

  /** A later reference date never gives a smaller age. */
  lemma AgeMonotone(dob: Date, t1: Date, t2: Date)
    requires OnOrBefore(t1, t2)
    ensures CalculateAge(dob, t1) <= CalculateAge(dob, t2)
  {
  }

  /** validateAge: the age on `today` is at least 18, that is, the 18th birthday has come. */
  predicate ValidateAge(dob: Date, today: Date)
    ensures ValidateAge(dob, today) <==> OnOrBefore(Anniversary(dob, 18), today)
  {
    CalculateAge(dob, today) >= 18
  }

  // ---------------------------------------------------------------- Email

  /** `\s` of an ECMAScript regular expression: WhiteSpace and LineTerminator. */
  predicate IsWhitespace(c: char)
  {
    var n := c as int;
    n == 0x20 || 0x09 <= n <= 0x0D || n == 0xA0 || n == 0x1680 ||
    0x2000 <= n <= 0x200A || n == 0x2028 || n == 0x2029 || n == 0x202F ||
    n == 0x205F || n == 0x3000 || n == 0xFEFF
  }

  /** The character class `[^\s@]`. */
  predicate IsAddressChar(c: char)
  {
    !IsWhitespace(c) && c != '@'
  }

  /** `[^\s@]+`: a non-empty run of address characters. */
  predicate IsRun(s: string)
  {
    |s| > 0 && forall k | 0 <= k < |s| :: IsAddressChar(s[k])
  }

  /**
   * The pattern `^[^\s@]+@[^\s@]+\.[^\s@]+$` read as a concatenation:
   * a run, "@", a run, ".", a run, and nothing else.
   */
  ghost predicate MatchesEmailPattern(s: string)
  {
    exists at, dot | 0 <= at < dot < |s| ::
      s[at] == '@' && s[dot] == '.' &&
      IsRun(s[..at]) && IsRun(s[at + 1..dot]) && IsRun(s[dot + 1..])
  }

  /**
   * validateEmail, decided directly: one "@" that is not the first character,
   * no whitespace and no other "@" anywhere, and a "." in the domain that is
   * neither its first nor its last character.
   */
  predicate ValidateEmail(s: string)
    ensures ValidateEmail(s) ==> |s| >= 5
  {
    exists at | 0 < at < |s| ::
      && s[at] == '@'
      && (forall k | 0 <= k < |s| && k != at :: IsAddressChar(s[k]))
      && (exists dot | at + 1 < dot < |s| - 1 :: s[dot] == '.')
  }

  /** The decision procedure accepts exactly the strings the pattern matches. */
  lemma ValidateEmailMatchesPattern(s: string)
    ensures ValidateEmail(s) <==> MatchesEmailPattern(s)
  {
  }

  /** The addresses used as examples: the first three pass, the last two do not. */
  lemma EmailExamples()
    ensures ValidateEmail("a@b.c")
    ensures ValidateEmail("a@b.c.d")
    ensures ValidateEmail("john@example.com")
    ensures !ValidateEmail("invalid-email")
    ensures !ValidateEmail("a@b")
  {
    var s := "a@b.c";
    assert s[1] == '@' && s[3] == '.';
    var t := "a@b.c.d";
    assert t[1] == '@' && t[3] == '.';
    var u := "john@example.com";
    assert u[4] == '@' && u[12] == '.';
    var v := "invalid-email";
    assert forall k | 0 <= k < |v| :: v[k] != '@';
    var w := "a@b";
    assert |w| == 3;
  }

  // ---------------------------------------------------------------- Order of the checks

  /**
   * createStudent's checks: GPA, then age, then email; the first rule that
   * fails gives the error, and `None` means the record may be built.
   */
  function CheckNew(dob: Date, gpa: real, email: string, today: Date): (r: Option<Error>)
    ensures r == None <==> ValidateGpa(gpa) && ValidateAge(dob, today) && ValidateEmail(email)
    ensures r == Some(InvalidGpa) <==> !ValidateGpa(gpa)
    ensures r == Some(Underage) <==> ValidateGpa(gpa) && !ValidateAge(dob, today)
    ensures r == Some(InvalidEmail) <==>
              ValidateGpa(gpa) && ValidateAge(dob, today) && !ValidateEmail(email)
    ensures r != Some(NotFound)
  {
    if !ValidateGpa(gpa) then Some(InvalidGpa)
    else if !ValidateAge(dob, today) then Some(Underage)
    else if !ValidateEmail(email) then Some(InvalidEmail)
    else None
  }

  /** The fields an update may supply; `None` is a field left `undefined`. */
  datatype StudentUpdate = StudentUpdate(
    firstName: Option<string>,
    lastName: Option<string>,
    dateOfBirth: Option<Date>,
    gpa: Option<real>,
    email: Option<string>)

  /**
   * updateStudent's checks: only the supplied fields, in the fixed order
   * GPA, date of birth, email; the first violation gives the error.
   */
  function CheckUpdate(u: StudentUpdate, today: Date): (r: Option<Error>)
    ensures r == Some(InvalidGpa) <==> u.gpa.Some? && !ValidateGpa(u.gpa.value)
    ensures r == Some(Underage) <==>
              (u.gpa.Some? ==> ValidateGpa(u.gpa.value)) &&
              u.dateOfBirth.Some? && !ValidateAge(u.dateOfBirth.value, today)
    ensures r == Some(InvalidEmail) <==>
              (u.gpa.Some? ==> ValidateGpa(u.gpa.value)) &&
              (u.dateOfBirth.Some? ==> ValidateAge(u.dateOfBirth.value, today)) &&
              u.email.Some? && !ValidateEmail(u.email.value)
    ensures r == None <==>
              (u.gpa.Some? ==> ValidateGpa(u.gpa.value)) &&
              (u.dateOfBirth.Some? ==> ValidateAge(u.dateOfBirth.value, today)) &&
              (u.email.Some? ==> ValidateEmail(u.email.value))
    ensures r != Some(NotFound)
  {
    if u.gpa.Some? && !ValidateGpa(u.gpa.value) then Some(InvalidGpa)
    else if u.dateOfBirth.Some? && !ValidateAge(u.dateOfBirth.value, today) then Some(Underage)
    else if u.email.Some? && !ValidateEmail(u.email.value) then Some(InvalidEmail)
    else None
  }

  /** An update that supplies every checked field is judged exactly as a create is. */
  lemma FullUpdateChecksLikeCreate(u: StudentUpdate, today: Date)
    requires u.gpa.Some? && u.dateOfBirth.Some? && u.email.Some?
    ensures CheckUpdate(u, today) == CheckNew(u.dateOfBirth.value, u.gpa.value, u.email.value, today)
  {
  }

  /**
   * The assignments of updateStudent: each supplied field overwrites the
   * stored one, the others stay, and `updatedAt` takes the clock reading.
   */
  function ApplyUpdate(s: Student, u: StudentUpdate, now: Timestamp): (r: Student)
    ensures r.id == s.id && r.createdAt == s.createdAt && r.updatedAt == now
    ensures r.firstName == u.firstName.GetOr(s.firstName)
    ensures r.lastName == u.lastName.GetOr(s.lastName)
    ensures r.dateOfBirth == u.dateOfBirth.GetOr(s.dateOfBirth)
    ensures r.gpa == u.gpa.GetOr(s.gpa)
    ensures r.email == u.email.GetOr(s.email)
  {
    var s1 := if u.firstName.Some? then s.(firstName := u.firstName.value) else s;
    var s2 := if u.lastName.Some? then s1.(lastName := u.lastName.value) else s1;
    var s3 := if u.dateOfBirth.Some? then s2.(dateOfBirth := u.dateOfBirth.value) else s2;
    var s4 := if u.gpa.Some? then s3.(gpa := u.gpa.value) else s3;
    var s5 := if u.email.Some? then s4.(email := u.email.value) else s4;
    s5.(updatedAt := now)
  }

  /** An update that supplies nothing only refreshes `updatedAt`. */
  lemma EmptyUpdateOnlyTouches(s: Student, now: Timestamp)
    ensures ApplyUpdate(s, StudentUpdate(None, None, None, None, None), now) == s.(updatedAt := now)
  {
  }

  /** Supplying only a GPA changes the GPA and `updatedAt`, nothing else. */
  lemma GpaOnlyUpdate(s: Student, gpa: real, now: Timestamp)
    ensures ApplyUpdate(s, StudentUpdate(None, None, None, Some(gpa), None), now)
            == s.(gpa := gpa, updatedAt := now)
  {
  }

  /** Applying the same update twice is applying it once, at the later time. */
  lemma ApplyUpdateIdempotent(s: Student, u: StudentUpdate, t1: Timestamp, t2: Timestamp)
    ensures ApplyUpdate(ApplyUpdate(s, u, t1), u, t2) == ApplyUpdate(s, u, t2)
  {
  }

  /** The per-record part of the store invariant: the GPA and email rules hold. */
  predicate ValidRecord(s: Student)
  {
    ValidateGpa(s.gpa) && ValidateEmail(s.email)
  }

  /** An update that passed its checks keeps a valid record valid. */
  lemma CheckedUpdateKeepsRecordValid(s: Student, u: StudentUpdate, today: Date, now: Timestamp)
    requires ValidRecord(s) && CheckUpdate(u, today) == None
    ensures ValidRecord(ApplyUpdate(s, u, now))
    ensures u.dateOfBirth.Some? ==> ValidateAge(ApplyUpdate(s, u, now).dateOfBirth, today)
  {
  }
}
