/** `Course`: id, name and an optional instructor id. */
module Courses {
  import opened Results
  import opened Text
  import opened Records
  import opened Identifiers

  datatype Course = Course(courseId: string, courseName: string, instructorId: Option<string>)

  /** `Course(course_id, course_name, instructor_id)`: id, then name, then the
      instructor id when one is given. */
  function NewCourse(courseId: string, courseName: string, instructorId: Option<string>): (r: Result<Course, ValidationError>)
    ensures r.Success? ==> r.value == Course(courseId, courseName, instructorId)
  {
    if !IdOk(courseId) then Failure(CourseIdInvalid)
    else if !NonBlank(courseName) then Failure(CourseNameBlank)
    else if instructorId.Some? && !IdOk(instructorId.value) then Failure(InstructorIdInvalid)
    else Success(Course(courseId, courseName, instructorId))
  }

  /** A course is accepted exactly when its id matches `_ID_RE`, its name has a
      non-whitespace character and its instructor id is absent or matches `_ID_RE`;
      whether that instructor exists is not checked here. */
  lemma CourseAcceptance(courseId: string, courseName: string, instructorId: Option<string>)
    ensures NewCourse(courseId, courseName, instructorId).Success? <==>
      && IdOk(courseId)
      && (exists i :: 0 <= i < |courseName| && !IsSpace(courseName[i]))
      && (instructorId.None? || IdOk(instructorId.value))
  {
    NonBlankIff(courseName);
  }

  /** The checks run id, name, instructor id; the first failure is the one reported. */
  lemma CourseFirstFailure(courseId: string, courseName: string, instructorId: Option<string>)
    ensures !IdOk(courseId) ==> NewCourse(courseId, courseName, instructorId) == Failure(CourseIdInvalid)
    ensures IdOk(courseId) && !NonBlank(courseName) ==> NewCourse(courseId, courseName, instructorId) == Failure(CourseNameBlank)
    ensures IdOk(courseId) && NonBlank(courseName) && instructorId.Some? && !IdOk(instructorId.value) ==>
      NewCourse(courseId, courseName, instructorId) == Failure(InstructorIdInvalid)
    ensures IdOk(courseId) && NonBlank(courseName) ==> NewCourse(courseId, courseName, None).Success?
  {
  }

  /** `Course.to_dict()`: course_id, course_name, instructor_id (`None` when unassigned). */
  function CourseToDict(c: Course): (d: Dict)
    ensures UniqueKeys(d)
    ensures Keys(d) == ["course_id", "course_name", "instructor_id"]
    ensures Lookup(d, "course_id") == Some(Str(c.courseId))
    ensures Lookup(d, "course_name") == Some(Str(c.courseName))
    ensures Lookup(d, "instructor_id") == Some(if c.instructorId.Some? then Str(c.instructorId.value) else Null)
  {
    var d := [("course_id", Str(c.courseId)), ("course_name", Str(c.courseName)),
              ("instructor_id", if c.instructorId.Some? then Str(c.instructorId.value) else Null)];
    assert Keys(d) == [d[0].0, d[1].0, d[2].0];
    assert Lookup(d[2..], "instructor_id") == Some(d[2].1);
    d
  }

  /** The fields of a serialised record read back by key, without validating them. */
  function CourseFromDict(d: Dict): Option<Course> {
    match (Lookup(d, "course_id"), Lookup(d, "course_name"), Lookup(d, "instructor_id"))
    case (Some(Str(id)), Some(Str(n)), Some(Null)) => Some(Course(id, n, None))
    case (Some(Str(id)), Some(Str(n)), Some(Str(i))) => Some(Course(id, n, Some(i)))
    case _ => None
  }

  lemma CourseDictRoundTrip(c: Course)
    ensures CourseFromDict(CourseToDict(c)) == Some(c)
  {
  }

  /** The documented example `Course("EECE435L", "Software Tools", "I_42")` constructs. */
  lemma SoftwareToolsConstructs()
    ensures NewCourse("EECE435L", "Software Tools", Some("I_42")) == Success(Course("EECE435L", "Software Tools", Some("I_42")))
  {
    ExampleIds();
    NonBlankIff("Software Tools");
    assert !IsSpace("Software Tools"[0]);
  }

  lemma ExampleIds()
    ensures IdOk("EECE435L") && IdOk("I_42")
  {
  }
}
