/** `Instructor`: a person with an instructor id. */
module Instructors {
  import opened Results
  import opened Text
  import opened Records
  import opened Identifiers
  import opened Persons

  datatype Instructor = Instructor(name: string, age: int, email: string, instructorId: string)

  /** `Instructor(name, age, email, instructor_id)`: the person checks first, then the id. */
  function NewInstructor(name: string, age: int, email: string, instructorId: string): (r: Result<Instructor, ValidationError>)
    ensures r.Success? ==> r.value == Instructor(name, age, email, instructorId)
  {
    match NewPerson(name, age, email)
    case Failure(e) => Failure(e)
    case Success(_) =>
      if IdOk(instructorId) then Success(Instructor(name, age, email, instructorId))
      else Failure(InstructorIdInvalid)
  }

  /** An instructor is accepted exactly when the person fields are and the id matches `_ID_RE`. */
  lemma InstructorAcceptance(name: string, age: int, email: string, instructorId: string)
    ensures NewInstructor(name, age, email, instructorId).Success? <==>
      && (exists i :: 0 <= i < |name| && !IsSpace(name[i]))
      && 0 <= age <= 120
      && (EmailPattern(email) || (EndsWithNewline(email) && EmailPattern(email[..|email| - 1])))
      && IdOk(instructorId)
  {
    PersonAcceptance(name, age, email);
  }

  /** The person checks run before the id check. */
  lemma InstructorPersonChecksFirst(name: string, age: int, email: string, instructorId: string)
    requires NewPerson(name, age, email).Failure?
    ensures NewInstructor(name, age, email, instructorId) == Failure(NewPerson(name, age, email).error)
  {
  }

  /** With valid person fields, a bad id raises the fixed instructor-id message. */
  lemma InstructorIdRejected(name: string, age: int, email: string, instructorId: string)
    requires NewPerson(name, age, email).Success? && !IdOk(instructorId)
    ensures NewInstructor(name, age, email, instructorId) == Failure(InstructorIdInvalid)
    ensures Message(InstructorIdInvalid) == "instructor_id must be 1\U{2013}64 chars from [A-Za-z0-9._-]"
  {
  }

  /** `Instructor.to_dict()`: the person's dict, then `instructor_id` appended by `update`. */
  function InstructorToDict(i: Instructor): (d: Dict)
    ensures UniqueKeys(d)
    ensures Keys(d) == ["name", "age", "email", "instructor_id"]
    ensures Lookup(d, "name") == Some(Str(i.name))
    ensures Lookup(d, "age") == Some(Int(i.age))
    ensures Lookup(d, "email") == Some(Str(i.email))
    ensures Lookup(d, "instructor_id") == Some(Str(i.instructorId))
  {
    var base := PersonToDict(Person(i.name, i.age, i.email));
    assert "instructor_id" !in Keys(base);
    Update(base, "instructor_id", Str(i.instructorId))
  }

  /** The fields of a serialised record read back by key, without validating them. */
  function InstructorFromDict(d: Dict): Option<Instructor> {
    match (Lookup(d, "name"), Lookup(d, "age"), Lookup(d, "email"), Lookup(d, "instructor_id"))
    case (Some(Str(n)), Some(Int(a)), Some(Str(e)), Some(Str(id))) => Some(Instructor(n, a, e, id))
    case _ => None
  }

  lemma InstructorDictRoundTrip(i: Instructor)
    ensures InstructorFromDict(InstructorToDict(i)) == Some(i)
  {
  }

  /** The documented example `Instructor("Dr. Karim", 38, "karim@dept.edu", "I_42")` constructs. */
  lemma KarimConstructs()
    ensures NewInstructor("Dr. Karim", 38, "karim@dept.edu", "I_42") == Success(Instructor("Dr. Karim", 38, "karim@dept.edu", "I_42"))
  {
    KarimEmail();
    KarimId();
    KarimName();
  }

  lemma KarimName()
    ensures NonBlank("Dr. Karim")
  {
    NonBlankIff("Dr. Karim");
    assert !IsSpace("Dr. Karim"[0]);
  }

  lemma KarimId()
    ensures IdOk("I_42")
  {
  }

  lemma KarimEmail()
    ensures EmailOk("karim@dept.edu")
  {
    var e := "karim@dept.edu";
    assert e[..5] == "karim" && e[6..10] == "dept" && e[11..] == "edu";
    SplitsHasEmailShape(e, 5, 10);
  }
}
