/**
 * The SQLite layer: four tables, the reads the front-ends use and the writes
 * they issue. Foreign keys are declared in the schema but SQLite does not
 * enforce them unless asked to, and it never is, so no write checks them.
 */
module Db {
  import opened Results
  import opened Order

  type Id = string

  /** A row of `students` or `instructors` without its key. */
  datatype PersonRow = PersonRow(name: string, age: int, email: string)

  /** A row of `courses` without its key; `instructor` is the nullable `instructor_id`. */
  datatype CourseRow = CourseRow(name: string, instructor: Option<Id>)

  /** The contents of the four tables: each keyed table maps its primary key to
      the rest of the row, and `registrations` is its composite key. */
  datatype Tables = Tables(
    students: map<Id, PersonRow>,
    instructors: map<Id, PersonRow>,
    courses: map<Id, CourseRow>,
    registrations: set<(Id, Id)>)

  /** The `IntegrityError` of an INSERT whose primary key is taken. */
  datatype DbError = DuplicateKey

  const NoRows := Tables(map[], map[], map[], {})

  // ---- relation queries (`student_courses`, `course_students`, `instructor_courses`)

  function StudentCourseSet(d: Tables, sid: Id): set<Id> {
    set r | r in d.registrations && r.0 == sid :: r.1
  }

  function CourseStudentSet(d: Tables, cid: Id): set<Id> {
    set r | r in d.registrations && r.1 == cid :: r.0
  }

  function InstructorCourseSet(d: Tables, iid: Id): set<Id> {
    set c | c in d.courses && d.courses[c].instructor == Some(iid)
  }

  /** The foreign keys the schema declares: every registration names a stored
      student and course, and every assigned instructor is stored. */
  ghost predicate Integrity(d: Tables) {
    && (forall r :: r in d.registrations ==> r.0 in d.students && r.1 in d.courses)
    && (forall c :: c in d.courses && d.courses[c].instructor.Some? ==> d.courses[c].instructor.value in d.instructors)
  }

  // ---- the writes, each one atomic step from one state of the tables to the next

  function StudentAdded(d: Tables, id: Id, row: PersonRow): Result<Tables, DbError> {
    if id in d.students then Failure(DuplicateKey)
    else Success(d.(students := d.students[id := row]))
  }

  function StudentUpdated(d: Tables, id: Id, row: PersonRow): Tables {
    if id in d.students then d.(students := d.students[id := row]) else d
  }

  function StudentDeleted(d: Tables, id: Id): Tables {
    d.(registrations := (set r | r in d.registrations && r.0 != id),
       students := d.students - {id})
  }

  function InstructorAdded(d: Tables, id: Id, row: PersonRow): Result<Tables, DbError> {
    if id in d.instructors then Failure(DuplicateKey)
    else Success(d.(instructors := d.instructors[id := row]))
  }

  function InstructorUpdated(d: Tables, id: Id, row: PersonRow): Tables {
    if id in d.instructors then d.(instructors := d.instructors[id := row]) else d
  }

  /** `UPDATE courses SET instructor_id=NULL WHERE instructor_id=?` on one row. */
  function Unassigned(row: CourseRow, id: Id): CourseRow {
    if row.instructor == Some(id) then row.(instructor := None) else row
  }

  function InstructorDeleted(d: Tables, id: Id): Tables {
    d.(courses := (map c | c in d.courses :: Unassigned(d.courses[c], id)),
       instructors := d.instructors - {id})
  }

  function CourseAdded(d: Tables, id: Id, row: CourseRow): Result<Tables, DbError> {
    if id in d.courses then Failure(DuplicateKey)
    else Success(d.(courses := d.courses[id := row]))
  }

  function CourseUpdated(d: Tables, id: Id, row: CourseRow): Tables {
    if id in d.courses then d.(courses := d.courses[id := row]) else d
  }

  function CourseDeleted(d: Tables, id: Id): Tables {
    d.(registrations := (set r | r in d.registrations && r.1 != id),
       courses := d.courses - {id})
  }

  function Enrolled(d: Tables, sid: Id, cid: Id): Tables {
    d.(registrations := d.registrations + {(sid, cid)})
  }

  function InstructorAssigned(d: Tables, cid: Id, iid: Id): Tables {
    if cid in d.courses then d.(courses := d.courses[cid := d.courses[cid].(instructor := Some(iid))]) else d
  }

  // ---- what the writes do to the tables and the relations

  /** `add_student` on a new key inserts exactly that row; on a taken key it fails. */
  lemma StudentAddedInsertsOne(d: Tables, id: Id, row: PersonRow)
    ensures StudentAdded(d, id, row).Failure? <==> id in d.students
    ensures id !in d.students ==>
      var d' := StudentAdded(d, id, row).value;
      && d'.students.Keys == d.students.Keys + {id}
      && |d'.students| == |d.students| + 1
      && d'.students[id] == row
      && (forall k :: k in d.students ==> d'.students[k] == d.students[k])
      && d'.instructors == d.instructors && d'.courses == d.courses && d'.registrations == d.registrations
  {
    if id !in d.students {
      var m := d.students[id := row];
      assert m.Keys == d.students.Keys + {id};
      assert |m.Keys| == |d.students.Keys| + 1;
    }
  }

  lemma InstructorAddedInsertsOne(d: Tables, id: Id, row: PersonRow)
    ensures InstructorAdded(d, id, row).Failure? <==> id in d.instructors
    ensures id !in d.instructors ==>
      var d' := InstructorAdded(d, id, row).value;
      && d'.instructors.Keys == d.instructors.Keys + {id}
      && |d'.instructors| == |d.instructors| + 1
      && d'.instructors[id] == row
      && (forall k :: k in d.instructors ==> d'.instructors[k] == d.instructors[k])
      && d'.students == d.students && d'.courses == d.courses && d'.registrations == d.registrations
  {
    if id !in d.instructors {
      var m := d.instructors[id := row];
      assert m.Keys == d.instructors.Keys + {id};
      assert |m.Keys| == |d.instructors.Keys| + 1;
    }
  }

  /** `add_course` on a new key inserts exactly that row, whatever its
      instructor id: the instructors table is not consulted. */
  lemma CourseAddedInsertsOne(d: Tables, id: Id, row: CourseRow)
    ensures CourseAdded(d, id, row).Failure? <==> id in d.courses
    ensures id !in d.courses ==>
      var d' := CourseAdded(d, id, row).value;
      && d'.courses.Keys == d.courses.Keys + {id}
      && |d'.courses| == |d.courses| + 1
      && d'.courses[id] == row
      && (forall k :: k in d.courses ==> d'.courses[k] == d.courses[k])
      && d'.students == d.students && d'.instructors == d.instructors && d'.registrations == d.registrations
      && (row.instructor.Some? ==>
            InstructorCourseSet(d', row.instructor.value) == InstructorCourseSet(d, row.instructor.value) + {id})
  {
    if id !in d.courses {
      var m := d.courses[id := row];
      assert m.Keys == d.courses.Keys + {id};
      assert |m.Keys| == |d.courses.Keys| + 1;
    }
  }

  /** Deleting a student just added restores the tables, when they satisfy the foreign keys. */
  lemma StudentAddThenDelete(d: Tables, id: Id, row: PersonRow)
    requires Integrity(d) && id !in d.students
    ensures StudentAdded(d, id, row).Success?
    ensures StudentDeleted(StudentAdded(d, id, row).value, id) == d
  {
    var d' := StudentDeleted(StudentAdded(d, id, row).value, id);
    assert d'.registrations == d.registrations;
    assert d'.students == d.students;
  }

  /** `update_student` overwrites the non-key fields of an existing row only;
      an absent id changes nothing, and updating twice is updating once. */
  lemma StudentUpdatedEffect(d: Tables, id: Id, row: PersonRow)
    ensures id !in d.students ==> StudentUpdated(d, id, row) == d
    ensures id in d.students ==>
      var d' := StudentUpdated(d, id, row);
      && d'.students.Keys == d.students.Keys
      && d'.students[id] == row
      && (forall k :: k in d.students && k != id ==> d'.students[k] == d.students[k])
      && d'.instructors == d.instructors && d'.courses == d.courses && d'.registrations == d.registrations
    ensures StudentUpdated(StudentUpdated(d, id, row), id, row) == StudentUpdated(d, id, row)
    ensures Integrity(d) ==> Integrity(StudentUpdated(d, id, row))
  {
  }

  /** `delete_student` removes every registration of the student and the row,
      leaving courses, instructors and everyone else's registrations as they were. */
  lemma StudentDeletedCascade(d: Tables, sid: Id)
    ensures var d' := StudentDeleted(d, sid);
      && sid !in d'.students
      && d'.students == d.students - {sid}
      && StudentCourseSet(d', sid) == {}
      && (forall s :: s != sid ==> StudentCourseSet(d', s) == StudentCourseSet(d, s))
      && (forall c :: CourseStudentSet(d', c) == CourseStudentSet(d, c) - {sid})
      && d'.courses == d.courses && d'.instructors == d.instructors
    ensures Integrity(d) ==> Integrity(StudentDeleted(d, sid))
    ensures sid !in d.students && StudentCourseSet(d, sid) == {} ==> StudentDeleted(d, sid) == d
  {
    var d' := StudentDeleted(d, sid);
    forall s | s != sid
      ensures StudentCourseSet(d', s) == StudentCourseSet(d, s)
    {
      forall c | c in StudentCourseSet(d, s)
        ensures c in StudentCourseSet(d', s)
      {
        assert (s, c) in d'.registrations;
      }
    }
    forall c
      ensures CourseStudentSet(d', c) == CourseStudentSet(d, c) - {sid}
    {
      forall s | s in CourseStudentSet(d, c) - {sid}
        ensures s in CourseStudentSet(d', c)
      {
        assert (s, c) in d'.registrations;
      }
    }
    if sid !in d.students && StudentCourseSet(d, sid) == {} {
      forall r | r in d.registrations
        ensures r in d'.registrations
      {
        assert r.0 == sid ==> r.1 in StudentCourseSet(d, sid);
      }
      assert d'.registrations == d.registrations;
    }
  }

  lemma InstructorAddThenDelete(d: Tables, id: Id, row: PersonRow)
    requires Integrity(d) && id !in d.instructors
    ensures InstructorAdded(d, id, row).Success?
    ensures InstructorDeleted(InstructorAdded(d, id, row).value, id) == d
  {
    var d' := InstructorDeleted(InstructorAdded(d, id, row).value, id);
    assert d'.courses == d.courses;
    assert d'.instructors == d.instructors;
  }

  lemma InstructorUpdatedEffect(d: Tables, id: Id, row: PersonRow)
    ensures id !in d.instructors ==> InstructorUpdated(d, id, row) == d
    ensures id in d.instructors ==>
      var d' := InstructorUpdated(d, id, row);
      && d'.instructors.Keys == d.instructors.Keys
      && d'.instructors[id] == row
      && (forall k :: k in d.instructors && k != id ==> d'.instructors[k] == d.instructors[k])
      && d'.students == d.students && d'.courses == d.courses && d'.registrations == d.registrations
    ensures Integrity(d) ==> Integrity(InstructorUpdated(d, id, row))
  {
  }

  /** `delete_instructor` nulls the instructor of exactly the courses it taught
      and removes it; every course and registration stays. */
  lemma InstructorDeletedDetaches(d: Tables, iid: Id)
    ensures var d' := InstructorDeleted(d, iid);
      && iid !in d'.instructors
      && d'.instructors == d.instructors - {iid}
      && d'.courses.Keys == d.courses.Keys
      && (forall c :: c in d.courses ==> d'.courses[c].name == d.courses[c].name)
      && (forall c :: c in d.courses && d.courses[c].instructor == Some(iid) ==> d'.courses[c].instructor == None)
      && (forall c :: c in d.courses && d.courses[c].instructor != Some(iid) ==> d'.courses[c] == d.courses[c])
      && InstructorCourseSet(d', iid) == {}
      && (forall j :: j != iid ==> InstructorCourseSet(d', j) == InstructorCourseSet(d, j))
      && d'.students == d.students && d'.registrations == d.registrations
    ensures Integrity(d) ==> Integrity(InstructorDeleted(d, iid))
    ensures iid !in d.instructors && InstructorCourseSet(d, iid) == {} ==> InstructorDeleted(d, iid) == d
  {
    var d' := InstructorDeleted(d, iid);
    assert d'.courses.Keys == d.courses.Keys;
    if iid !in d.instructors && InstructorCourseSet(d, iid) == {} {
      forall c | c in d.courses
        ensures d'.courses[c] == d.courses[c]
      {
        assert c !in InstructorCourseSet(d, iid);
      }
      assert d'.courses == d.courses;
    }
    forall j | j != iid
      ensures InstructorCourseSet(d', j) == InstructorCourseSet(d, j)
    {
      forall c | c in InstructorCourseSet(d, j)
        ensures c in InstructorCourseSet(d', j)
      {
        assert d'.courses[c] == d.courses[c];
      }
    }
  }

  lemma CourseAddThenDelete(d: Tables, id: Id, row: CourseRow)
    requires Integrity(d) && id !in d.courses
    ensures CourseAdded(d, id, row).Success?
    ensures CourseDeleted(CourseAdded(d, id, row).value, id) == d
  {
    var d' := CourseDeleted(CourseAdded(d, id, row).value, id);
    assert d'.registrations == d.registrations;
    assert d'.courses == d.courses;
  }

  /** `update_course` overwrites name and instructor of an existing course only;
      the instructor is not checked against the instructors table. */
  lemma CourseUpdatedEffect(d: Tables, id: Id, row: CourseRow)
    ensures id !in d.courses ==> CourseUpdated(d, id, row) == d
    ensures id in d.courses ==>
      var d' := CourseUpdated(d, id, row);
      && d'.courses.Keys == d.courses.Keys
      && d'.courses[id] == row
      && (forall k :: k in d.courses && k != id ==> d'.courses[k] == d.courses[k])
      && d'.students == d.students && d'.instructors == d.instructors && d'.registrations == d.registrations
    ensures Integrity(d) && (row.instructor.None? || row.instructor.value in d.instructors) ==>
      Integrity(CourseUpdated(d, id, row))
  {
  }

  /** `delete_course` removes every registration of the course and the row;
      students and instructors are untouched. */
  lemma CourseDeletedCascade(d: Tables, cid: Id)
    ensures var d' := CourseDeleted(d, cid);
      && cid !in d'.courses
      && d'.courses == d.courses - {cid}
      && CourseStudentSet(d', cid) == {}
      && (forall c :: c != cid ==> CourseStudentSet(d', c) == CourseStudentSet(d, c))
      && (forall s :: StudentCourseSet(d', s) == StudentCourseSet(d, s) - {cid})
      && (forall i :: InstructorCourseSet(d', i) == InstructorCourseSet(d, i) - {cid})
      && d'.students == d.students && d'.instructors == d.instructors
    ensures Integrity(d) ==> Integrity(CourseDeleted(d, cid))
    ensures cid !in d.courses && CourseStudentSet(d, cid) == {} ==> CourseDeleted(d, cid) == d
  {
    var d' := CourseDeleted(d, cid);
    if cid !in d.courses && CourseStudentSet(d, cid) == {} {
      forall r | r in d.registrations
        ensures r in d'.registrations
      {
        assert r.1 == cid ==> r.0 in CourseStudentSet(d, cid);
      }
      assert d'.registrations == d.registrations;
    }
    forall c | c != cid
      ensures CourseStudentSet(d', c) == CourseStudentSet(d, c)
    {
      forall s | s in CourseStudentSet(d, c)
        ensures s in CourseStudentSet(d', c)
      {
        assert (s, c) in d'.registrations;
      }
    }
    forall s
      ensures StudentCourseSet(d', s) == StudentCourseSet(d, s) - {cid}
    {
      forall c | c in StudentCourseSet(d, s) - {cid}
        ensures c in StudentCourseSet(d', s)
      {
        assert (s, c) in d'.registrations;
      }
    }
  }

  /** `enroll_student` (INSERT OR IGNORE) adds the pair once: enrolling twice
      is enrolling once, and the pair shows up in both relation queries. */
  lemma EnrolledIdempotent(d: Tables, sid: Id, cid: Id)
    ensures Enrolled(Enrolled(d, sid, cid), sid, cid) == Enrolled(d, sid, cid)
    ensures StudentCourseSet(Enrolled(d, sid, cid), sid) == StudentCourseSet(d, sid) + {cid}
    ensures CourseStudentSet(Enrolled(d, sid, cid), cid) == CourseStudentSet(d, cid) + {sid}
    ensures (sid, cid) in d.registrations ==> Enrolled(d, sid, cid) == d
  {
    var d' := Enrolled(d, sid, cid);
    assert (sid, cid) in d'.registrations;
    forall c | c in StudentCourseSet(d, sid)
      ensures c in StudentCourseSet(d', sid)
    {
      assert (sid, c) in d'.registrations;
    }
    forall s | s in CourseStudentSet(d, cid)
      ensures s in CourseStudentSet(d', cid)
    {
      assert (s, cid) in d'.registrations;
    }
  }

  /** Unknown ids are not rejected: starting from tables that satisfy the
      foreign keys, an enrolment keeps them satisfied exactly when both ids are stored. */
  lemma EnrolledUnchecked(d: Tables, sid: Id, cid: Id)
    requires Integrity(d)
    ensures Integrity(Enrolled(d, sid, cid)) <==> sid in d.students && cid in d.courses
  {
    assert (sid, cid) in Enrolled(d, sid, cid).registrations;
  }

  /** `assign_instructor` moves an existing course to the instructor (replacing any
      earlier one); an unknown course is a no-op and the instructor is not checked. */
  lemma InstructorAssignedEffect(d: Tables, cid: Id, iid: Id)
    ensures cid !in d.courses ==> InstructorAssigned(d, cid, iid) == d
    ensures cid in d.courses ==>
      var d' := InstructorAssigned(d, cid, iid);
      && InstructorCourseSet(d', iid) == InstructorCourseSet(d, iid) + {cid}
      && (forall j :: j != iid ==> InstructorCourseSet(d', j) == InstructorCourseSet(d, j) - {cid})
      && d'.courses.Keys == d.courses.Keys
      && d'.courses[cid] == d.courses[cid].(instructor := Some(iid))
      && (forall c :: c in d.courses && c != cid ==> d'.courses[c] == d.courses[c])
      && d'.students == d.students && d'.instructors == d.instructors && d'.registrations == d.registrations
    ensures Integrity(d) && cid in d.courses ==>
      (Integrity(InstructorAssigned(d, cid, iid)) <==> iid in d.instructors)
  {
    if cid in d.courses {
      var d' := InstructorAssigned(d, cid, iid);
      forall j | j != iid
        ensures InstructorCourseSet(d', j) == InstructorCourseSet(d, j) - {cid}
      {
        forall c | c in InstructorCourseSet(d, j) - {cid}
          ensures c in InstructorCourseSet(d', j)
        {
          assert d'.courses[c] == d.courses[c];
        }
      }
      forall c | c in InstructorCourseSet(d, iid)
        ensures c in InstructorCourseSet(d', iid)
      {
        assert c == cid || d'.courses[c] == d.courses[c];
      }
      assert d'.courses[cid].instructor == Some(iid);
    }
  }

  /** Deleting an id that has no row still cascades: a registration enrolled
      under a student id that was never stored is removed with it. */
  lemma AbsentStudentDeleteCascades()
    ensures "ghost" !in Enrolled(NoRows, "ghost", "C1").students
    ensures StudentDeleted(Enrolled(NoRows, "ghost", "C1"), "ghost").registrations == {}
    ensures StudentDeleted(Enrolled(NoRows, "ghost", "C1"), "ghost") != Enrolled(NoRows, "ghost", "C1")
  {
    var d := Enrolled(NoRows, "ghost", "C1");
    assert ("ghost", "C1") in d.registrations;
  }

  /** With the foreign keys satisfied, an id that is not stored has no relations. */
  lemma UnknownIdsHaveNoRelations(d: Tables, id: Id)
    requires Integrity(d)
    ensures id !in d.students ==> StudentCourseSet(d, id) == {}
    ensures id !in d.courses ==> CourseStudentSet(d, id) == {}
    ensures id !in d.instructors ==> InstructorCourseSet(d, id) == {}
  {
  }

  /** An instructor, a course taught by it and a student enrolled in it, each
      added through the writes above to an empty database. */
  function Scenario(): Tables {
    var d1 := InstructorAdded(NoRows, "I_42", PersonRow("Dr. Karim", 38, "karim@dept.edu")).value;
    var d2 := CourseAdded(d1, "EECE435L", CourseRow("Software Tools", Some("I_42"))).value;
    var d3 := StudentAdded(d2, "S-1001", PersonRow("Maya", 20, "maya@uni.edu")).value;
    Enrolled(d3, "S-1001", "EECE435L")
  }

  lemma ScenarioRelations()
    ensures Integrity(Scenario())
    ensures StudentCourseSet(Scenario(), "S-1001") == {"EECE435L"}
    ensures CourseStudentSet(Scenario(), "EECE435L") == {"S-1001"}
    ensures InstructorCourseSet(Scenario(), "I_42") == {"EECE435L"}
  {
    var d := Scenario();
    assert d.registrations == {("S-1001", "EECE435L")};
    assert d.courses == map["EECE435L" := CourseRow("Software Tools", Some("I_42"))];
  }

  /** Deleting the student empties the roster but keeps the course; deleting the
      instructor leaves the course unassigned and the enrolment in place. */
  lemma ScenarioDeletes()
    ensures CourseStudentSet(StudentDeleted(Scenario(), "S-1001"), "EECE435L") == {}
    ensures "EECE435L" in StudentDeleted(Scenario(), "S-1001").courses
    ensures InstructorDeleted(Scenario(), "I_42").courses["EECE435L"].instructor == None
    ensures StudentCourseSet(InstructorDeleted(Scenario(), "I_42"), "S-1001") == {"EECE435L"}
  {
    ScenarioRelations();
    StudentDeletedCascade(Scenario(), "S-1001");
    InstructorDeletedDetaches(Scenario(), "I_42");
  }

  // ---- listing order (`ORDER BY` the text primary key)

  /** The keys of a listing, in order. */
  function IdsOf<V>(rows: seq<(Id, V)>): seq<Id> {
    seq(|rows|, k requires 0 <= k < |rows| => rows[k].0)
  }

  /** `rows` is the table `m` listed by ascending key: every row exactly once,
      with its stored values. */
  ghost predicate IsListing<V>(rows: seq<(Id, V)>, m: map<Id, V>) {
    && StrictlySorted(IdsOf(rows))
    && (forall k :: 0 <= k < |rows| ==> rows[k].0 in m && m[rows[k].0] == rows[k].1)
    && (forall id :: id in m ==> id in IdsOf(rows))
  }

  /** Only one sequence lists a table: the listing order is determined by the keys. */
  lemma ListingUnique<V>(rows: seq<(Id, V)>, other: seq<(Id, V)>, m: map<Id, V>)
    requires IsListing(rows, m) && IsListing(other, m)
    ensures rows == other
  {
    SortedUnique(IdsOf(rows), IdsOf(other));
    assert |rows| == |other|;
    forall k | 0 <= k < |rows|
      ensures rows[k] == other[k]
    {
      assert IdsOf(rows)[k] == IdsOf(other)[k];
    }
  }

  /** `SELECT * FROM <table> ORDER BY <key>`. */
  method ListTable<V>(m: map<Id, V>) returns (rows: seq<(Id, V)>)
    ensures IsListing(rows, m)
  {
    var keys := SortedKeys(m.Keys);
    rows := [];
    var k := 0;
    while k < |keys|
      invariant 0 <= k <= |keys|
      invariant |rows| == k
      invariant forall j :: 0 <= j < k ==> keys[j] in m && rows[j] == (keys[j], m[keys[j]])
    {
      assert keys[k] in keys;
      rows := rows + [(keys[k], m[keys[k]])];
      k := k + 1;
    }
    assert IdsOf(rows) == keys;
  }

  /** The store behind `db.py`: one SQLite file holding the four tables. Every
      function of `db.py` opens its own connection, runs and commits; here each
      is one method call. */
  class Store {
    /** Whether `init_db` has created the tables in this file. */
    var schema: bool
    var students: map<Id, PersonRow>
    var instructors: map<Id, PersonRow>
    var courses: map<Id, CourseRow>
    var registrations: set<(Id, Id)>

    function Contents(): Tables
      reads this
    {
      Tables(students, instructors, courses, registrations)
    }

    /** A database file: either new (no tables, no rows) or one a previous run
        has already initialised and filled. */
    constructor (initialised: bool, rows: Tables)
      requires initialised || rows == NoRows
      ensures schema == initialised && Contents() == rows
    {
      schema := initialised;
      students, instructors, courses, registrations := rows.students, rows.instructors, rows.courses, rows.registrations;
    }

    /** `init_db`: `CREATE TABLE IF NOT EXISTS` for the four tables; rows already
        stored are kept, so calling it again changes nothing. */
    method InitDb()
      modifies this
      ensures schema && Contents() == old(Contents())
    {
      schema := true;
    }

    method ListStudents() returns (rows: seq<(Id, PersonRow)>)
      requires schema
      ensures IsListing(rows, students)
    {
      rows := ListTable(students);
    }

    method ListInstructors() returns (rows: seq<(Id, PersonRow)>)
      requires schema
      ensures IsListing(rows, instructors)
    {
      rows := ListTable(instructors);
    }

    method ListCourses() returns (rows: seq<(Id, CourseRow)>)
      requires schema
      ensures IsListing(rows, courses)
    {
      rows := ListTable(courses);
    }

    /** `student_courses`: the course ids registered to the student, in no particular order. */
    method StudentCourses(sid: Id) returns (ids: seq<Id>)
      requires schema
      ensures Enumerates(ids, StudentCourseSet(Contents(), sid))
    {
      ids := Enumerate(StudentCourseSet(Contents(), sid));
    }

    /** `instructor_courses`: the ids of the courses whose instructor is `iid`. */
    method InstructorCourses(iid: Id) returns (ids: seq<Id>)
      requires schema
      ensures Enumerates(ids, InstructorCourseSet(Contents(), iid))
    {
      ids := Enumerate(InstructorCourseSet(Contents(), iid));
    }

    /** `course_students`: the student ids registered to the course. */
    method CourseStudents(cid: Id) returns (ids: seq<Id>)
      requires schema
      ensures Enumerates(ids, CourseStudentSet(Contents(), cid))
    {
      ids := Enumerate(CourseStudentSet(Contents(), cid));
    }

    method AddStudent(id: Id, name: string, age: int, email: string) returns (err: Option<DbError>)
      requires schema
      modifies this
      ensures schema
      ensures err.None? ==> StudentAdded(old(Contents()), id, PersonRow(name, age, email)) == Success(Contents())
      ensures err.Some? ==> StudentAdded(old(Contents()), id, PersonRow(name, age, email)) == Failure(err.value)
      ensures err.Some? ==> Contents() == old(Contents())
    {
      if id in students {
        err := Some(DuplicateKey);
      } else {
        students := students[id := PersonRow(name, age, email)];
        err := None;
      }
    }

    method UpdateStudent(id: Id, name: string, age: int, email: string)
      requires schema
      modifies this
      ensures schema && Contents() == StudentUpdated(old(Contents()), id, PersonRow(name, age, email))
    {
      if id in students {
        students := students[id := PersonRow(name, age, email)];
      }
    }

    /** Registrations first, then the student row. */
    method DeleteStudent(id: Id)
      requires schema
      modifies this
      ensures schema && Contents() == StudentDeleted(old(Contents()), id)
    {
      registrations := set r | r in registrations && r.0 != id;
      students := students - {id};
    }

    method AddInstructor(id: Id, name: string, age: int, email: string) returns (err: Option<DbError>)
      requires schema
      modifies this
      ensures schema
      ensures err.None? ==> InstructorAdded(old(Contents()), id, PersonRow(name, age, email)) == Success(Contents())
      ensures err.Some? ==> InstructorAdded(old(Contents()), id, PersonRow(name, age, email)) == Failure(err.value)
      ensures err.Some? ==> Contents() == old(Contents())
    {
      if id in instructors {
        err := Some(DuplicateKey);
      } else {
        instructors := instructors[id := PersonRow(name, age, email)];
        err := None;
      }
    }

    method UpdateInstructor(id: Id, name: string, age: int, email: string)
      requires schema
      modifies this
      ensures schema && Contents() == InstructorUpdated(old(Contents()), id, PersonRow(name, age, email))
    {
      if id in instructors {
        instructors := instructors[id := PersonRow(name, age, email)];
      }
    }

    /** Courses are unassigned first, then the instructor row goes. */
    method DeleteInstructor(id: Id)
      requires schema
      modifies this
      ensures schema && Contents() == InstructorDeleted(old(Contents()), id)
    {
      courses := map c | c in courses :: Unassigned(courses[c], id);
      instructors := instructors - {id};
    }

    /** The instructor id, if any, is stored without looking it up. */
    method AddCourse(id: Id, name: string, instructor: Option<Id>) returns (err: Option<DbError>)
      requires schema
      modifies this
      ensures schema
      ensures err.None? ==> CourseAdded(old(Contents()), id, CourseRow(name, instructor)) == Success(Contents())
      ensures err.Some? ==> CourseAdded(old(Contents()), id, CourseRow(name, instructor)) == Failure(err.value)
      ensures err.Some? ==> Contents() == old(Contents())
    {
      if id in courses {
        err := Some(DuplicateKey);
      } else {
        courses := courses[id := CourseRow(name, instructor)];
        err := None;
      }
    }

    method UpdateCourse(id: Id, name: string, instructor: Option<Id>)
      requires schema
      modifies this
      ensures schema && Contents() == CourseUpdated(old(Contents()), id, CourseRow(name, instructor))
    {
      if id in courses {
        courses := courses[id := CourseRow(name, instructor)];
      }
    }

    /** Registrations first, then the course row. */
    method DeleteCourse(id: Id)
      requires schema
      modifies this
      ensures schema && Contents() == CourseDeleted(old(Contents()), id)
    {
      registrations := set r | r in registrations && r.1 != id;
      courses := courses - {id};
    }

    /** `INSERT OR IGNORE INTO registrations`. */
    method EnrollStudent(sid: Id, cid: Id)
      requires schema
      modifies this
      ensures schema && Contents() == Enrolled(old(Contents()), sid, cid)
    {
      registrations := registrations + {(sid, cid)};
    }

    method AssignInstructor(cid: Id, iid: Id)
      requires schema
      modifies this
      ensures schema && Contents() == InstructorAssigned(old(Contents()), cid, iid)
    {
      if cid in courses {
        courses := courses[cid := courses[cid].(instructor := Some(iid))];
      }
    }
  }
}
