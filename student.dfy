/** `Student`: a person with a student id. */
module Students {
  import opened Results
  import opened Text
  import opened Records
  import opened Identifiers
  import opened Persons

  datatype Student = Student(name: string, age: int, email: string, studentId: string)

  /** `Student(name, age, email, student_id)`: the person checks first, then the id. */
  function NewStudent(name: string, age: int, email: string, studentId: string): (r: Result<Student, ValidationError>)
    ensures r.Success? ==> r.value == Student(name, age, email, studentId)
  {
    match NewPerson(name, age, email)
    case Failure(e) => Failure(e)
    case Success(_) =>
      if IdOk(studentId) then Success(Student(name, age, email, studentId))
      else Failure(StudentIdInvalid)
  }

  /** A student is accepted exactly when the person fields are (non-blank name,
      age in [0, 120], email in the pattern's language) and the id matches `_ID_RE`. */
  lemma StudentAcceptance(name: string, age: int, email: string, studentId: string)
    ensures NewStudent(name, age, email, studentId).Success? <==>
      && (exists i :: 0 <= i < |name| && !IsSpace(name[i]))
      && 0 <= age <= 120
      && (EmailPattern(email) || (EndsWithNewline(email) && EmailPattern(email[..|email| - 1])))
      && IdOk(studentId)
  {
    PersonAcceptance(name, age, email);
  }

  /** The person checks run before the id check: their error wins even when the id is bad too. */
  lemma StudentPersonChecksFirst(name: string, age: int, email: string, studentId: string)
    requires NewPerson(name, age, email).Failure?
    ensures NewStudent(name, age, email, studentId) == Failure(NewPerson(name, age, email).error)
  {
  }

  /** With valid person fields, a bad id raises the fixed student-id message. */
  lemma StudentIdRejected(name: string, age: int, email: string, studentId: string)
    requires NewPerson(name, age, email).Success? && !IdOk(studentId)
    ensures NewStudent(name, age, email, studentId) == Failure(StudentIdInvalid)
    ensures Message(StudentIdInvalid) == "student_id must be 1\U{2013}64 chars from [A-Za-z0-9._-]"
  {
  }

  /** `Student.to_dict()`: the person's dict, then `student_id` appended by `update`. */
  function StudentToDict(s: Student): (d: Dict)
    ensures UniqueKeys(d)
    ensures Keys(d) == ["name", "age", "email", "student_id"]
    ensures Lookup(d, "name") == Some(Str(s.name))
    ensures Lookup(d, "age") == Some(Int(s.age))
    ensures Lookup(d, "email") == Some(Str(s.email))
    ensures Lookup(d, "student_id") == Some(Str(s.studentId))
  {
    var base := PersonToDict(Person(s.name, s.age, s.email));
    assert "student_id" !in Keys(base);
    Update(base, "student_id", Str(s.studentId))
  }

  /** The fields of a serialised record read back by key, without validating them. */
  function StudentFromDict(d: Dict): Option<Student> {
    match (Lookup(d, "name"), Lookup(d, "age"), Lookup(d, "email"), Lookup(d, "student_id"))
    case (Some(Str(n)), Some(Int(a)), Some(Str(e)), Some(Str(i))) => Some(Student(n, a, e, i))
    case _ => None
  }

  /** Serialising and reading back gives the same student, and a constructed
      student passes validation again from its own dict. */
  lemma StudentDictRoundTrip(s: Student)
    requires NewStudent(s.name, s.age, s.email, s.studentId).Success?
    ensures StudentFromDict(StudentToDict(s)) == Some(s)
    ensures NewStudent(s.name, s.age, s.email, s.studentId) == Success(s)
  {
  }

  /** The documented example `Student("Maya", 20, "maya@uni.edu", "S-1001")` constructs. */
  lemma MayaConstructs()
    ensures NewStudent("Maya", 20, "maya@uni.edu", "S-1001") == Success(Student("Maya", 20, "maya@uni.edu", "S-1001"))
  {
    MayaName();
    MayaEmail();
    MayaId();
  }

  lemma MayaName()
    ensures NonBlank("Maya")
  {
    NonBlankIff("Maya");
    assert !IsSpace("Maya"[0]);
  }

  lemma MayaId()
    ensures IdOk("S-1001")
  {
  }

  lemma MayaEmail()
    ensures EmailOk("maya@uni.edu")
  {
    var e := "maya@uni.edu";
    assert e[..4] == "maya" && e[5..8] == "uni" && e[9..] == "edu";
    SplitsHasEmailShape(e, 4, 8);
  }
}
