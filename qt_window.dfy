/**
 * The Qt main window's data side: the loops of `_fill_tables` that rebuild the
 * three tables under the search term, and `_refresh_combos` that reloads the
 * five combo boxes from the store.
 */
module QtWindow {
  import opened Results
  import opened Text
  import opened Order
  import opened Db
  import opened Search

  /** The rows of the students (or instructors) table for the normalised term
      `t`: the haystack and the displayed column share one relation query,
      joined with ", ". */
  method PersonRows(db: Store, kind: PersonKind, t: string)
    returns (rows: seq<PersonView>, ghost listing: seq<(Id, PersonRow)>, ghost related: seq<seq<Id>>)
    requires db.schema
    ensures PersonTableShows(rows, db.Contents(), kind, t, ", ", listing, related, related)
  {
    var all := PeopleQuery(db, kind);
    listing := all;
    rows, related := [], [];
    var k := 0;
    while k < |all|
      invariant 0 <= k <= |all|
      invariant |related| == k
      invariant RelatedAnswers(db.Contents(), kind, all, related)
      invariant rows == KeepMatching(t, PersonHays(all[..k], related, ", "), PersonViews(all[..k], related))
    {
      var id, row := all[k].0, all[k].1;
      var ids := RelatedQuery(db, kind, id);
      var courses := Join(ids, ", ");
      var hay := PersonHaystack(id, row, ids, ", ");
      PersonRowsStep(t, ", ", all, k, related, related, ids, ids);
      if Contains(hay, t) {
        rows := rows + [PersonView(id, row.name, IntToString(row.age), row.email, courses)];
      }
      RelatedAnswersSnoc(db.Contents(), kind, all, related, ids);
      related := related + [ids];
      k := k + 1;
    }
    assert all[..k] == all;
  }

  /** The rows of the courses table for the normalised term `t`; a course
      without instructor is searched and shown with "". */
  method CourseRows(db: Store, t: string)
    returns (rows: seq<CourseView>, ghost listing: seq<(Id, CourseRow)>, ghost rosters: seq<seq<Id>>)
    requires db.schema
    ensures CourseTableShows(rows, db.Contents(), t, ", ", listing, rosters, rosters)
  {
    var all := db.ListCourses();
    listing := all;
    rows, rosters := [], [];
    var k := 0;
    while k < |all|
      invariant 0 <= k <= |all|
      invariant |rosters| == k
      invariant RosterAnswers(db.Contents(), all, rosters)
      invariant rows == KeepMatching(t, CourseHays(all[..k], rosters, ", "), CourseViews(all[..k], rosters))
    {
      var id, row := all[k].0, all[k].1;
      var instructor := InstructorText(row.instructor);
      var ids := db.CourseStudents(id);
      var roster := Join(ids, ", ");
      var hay := CourseHaystack(id, row, ids, ", ");
      CourseRowsStep(t, ", ", all, k, rosters, rosters, ids, ids);
      if Contains(hay, t) {
        rows := rows + [CourseView(id, row.name, instructor, roster)];
      }
      RosterAnswersSnoc(db.Contents(), all, rosters, ids);
      rosters := rosters + [ids];
      k := k + 1;
    }
    assert all[..k] == all;
  }

  /** A person table as `_fill_tables` leaves it for the normalised term `t`. */
  ghost predicate QtPersonTable(rows: seq<PersonView>, d: Tables, kind: PersonKind, t: string) {
    exists listing, related :: PersonTableShows(rows, d, kind, t, ", ", listing, related, related)
  }

  ghost predicate QtCourseTable(rows: seq<CourseView>, d: Tables, t: string) {
    exists listing, rosters :: CourseTableShows(rows, d, t, ", ", listing, rosters, rosters)
  }

  /** `addItem` for every listed person, in listing order. */
  method PersonLabels(rows: seq<(Id, PersonRow)>) returns (items: seq<string>)
    ensures items == PersonComboItems(rows)
  {
    items := [];
    var k := 0;
    while k < |rows|
      invariant 0 <= k <= |rows|
      invariant items == PersonComboItems(rows[..k])
    {
      items := items + [ComboLabel(rows[k].0, rows[k].1.name)];
      k := k + 1;
    }
    assert rows[..k] == rows;
  }

  method CourseLabels(rows: seq<(Id, CourseRow)>) returns (items: seq<string>)
    ensures items == CourseComboItems(rows)
  {
    items := [];
    var k := 0;
    while k < |rows|
      invariant 0 <= k <= |rows|
      invariant items == CourseComboItems(rows[..k])
    {
      items := items + [ComboLabel(rows[k].0, rows[k].1.name)];
      k := k + 1;
    }
    assert rows[..k] == rows;
  }

  /** The contents of the main window's tables and combo boxes. */
  class MainWindow {
    var studentsTable: seq<PersonView>
    var instructorsTable: seq<PersonView>
    var coursesTable: seq<CourseView>
    var instructorForCourse: seq<string>
    var regStudentCombo: seq<string>
    var regCourseCombo: seq<string>
    var assignInstrCombo: seq<string>
    var assignCourseCombo: seq<string>

    /** `__init__`: `init_db`, empty widgets, then `refresh_all`. */
    constructor (db: Store)
      modifies db
      ensures db.schema && db.Contents() == old(db.Contents())
      ensures exists l :: IsListing(l, db.instructors) && instructorForCourse == InstructorChoices(l)
      ensures exists l :: IsListing(l, db.students) && regStudentCombo == PersonComboItems(l)
      ensures exists l :: IsListing(l, db.courses) && regCourseCombo == CourseComboItems(l)
      ensures exists l :: IsListing(l, db.instructors) && assignInstrCombo == PersonComboItems(l)
      ensures exists l :: IsListing(l, db.courses) && assignCourseCombo == CourseComboItems(l)
      ensures QtPersonTable(studentsTable, db.Contents(), StudentRows, "")
      ensures QtPersonTable(instructorsTable, db.Contents(), InstructorRows, "")
      ensures QtCourseTable(coursesTable, db.Contents(), "")
    {
      db.InitDb();
      studentsTable, instructorsTable, coursesTable := [], [], [];
      instructorForCourse, regStudentCombo, regCourseCombo := [], [], [];
      assignInstrCombo, assignCourseCombo := [], [];
      new;
      RefreshAll(db);
    }

    /** `_refresh_combos`: every combo lists its table in key order as
        "id - name"; the course form's instructor choice starts with a blank item. */
    method RefreshCombos(db: Store)
      requires db.schema
      modifies this
      ensures studentsTable == old(studentsTable) && instructorsTable == old(instructorsTable)
      ensures coursesTable == old(coursesTable)
      ensures exists l :: IsListing(l, db.instructors) && instructorForCourse == InstructorChoices(l)
      ensures exists l :: IsListing(l, db.students) && regStudentCombo == PersonComboItems(l)
      ensures exists l :: IsListing(l, db.courses) && regCourseCombo == CourseComboItems(l)
      ensures exists l :: IsListing(l, db.instructors) && assignInstrCombo == PersonComboItems(l)
      ensures exists l :: IsListing(l, db.courses) && assignCourseCombo == CourseComboItems(l)
    {
      var instructors := db.ListInstructors();
      var items := PersonLabels(instructors);
      instructorForCourse := [""] + items;

      var students := db.ListStudents();
      regStudentCombo := PersonLabels(students);

      var courses := db.ListCourses();
      regCourseCombo := CourseLabels(courses);

      instructors := db.ListInstructors();
      assignInstrCombo := PersonLabels(instructors);

      courses := db.ListCourses();
      assignCourseCombo := CourseLabels(courses);
    }

    /** `_fill_tables(term)`: all three tables rebuilt under `term.lower().strip()`. */
    method FillTables(db: Store, term: string)
      requires db.schema
      modifies this
      ensures instructorForCourse == old(instructorForCourse) && regStudentCombo == old(regStudentCombo)
      ensures regCourseCombo == old(regCourseCombo) && assignInstrCombo == old(assignInstrCombo)
      ensures assignCourseCombo == old(assignCourseCombo)
      ensures QtPersonTable(studentsTable, db.Contents(), StudentRows, QtTerm(term))
      ensures QtPersonTable(instructorsTable, db.Contents(), InstructorRows, QtTerm(term))
      ensures QtCourseTable(coursesTable, db.Contents(), QtTerm(term))
    {
      var t := Strip(Lower(term));
      ghost var l1, r1, l2, r2, l3, r3;
      studentsTable, l1, r1 := PersonRows(db, StudentRows, t);
      instructorsTable, l2, r2 := PersonRows(db, InstructorRows, t);
      coursesTable, l3, r3 := CourseRows(db, t);
    }

    /** `refresh_all`: the combos reloaded and the tables filled unfiltered. */
    method RefreshAll(db: Store)
      requires db.schema
      modifies this
      ensures exists l :: IsListing(l, db.instructors) && instructorForCourse == InstructorChoices(l)
      ensures exists l :: IsListing(l, db.students) && regStudentCombo == PersonComboItems(l)
      ensures exists l :: IsListing(l, db.courses) && regCourseCombo == CourseComboItems(l)
      ensures exists l :: IsListing(l, db.instructors) && assignInstrCombo == PersonComboItems(l)
      ensures exists l :: IsListing(l, db.courses) && assignCourseCombo == CourseComboItems(l)
      ensures QtPersonTable(studentsTable, db.Contents(), StudentRows, "")
      ensures QtPersonTable(instructorsTable, db.Contents(), InstructorRows, "")
      ensures QtCourseTable(coursesTable, db.Contents(), "")
    {
      RefreshCombos(db);
      FillTables(db, "");
    }
  }
}
