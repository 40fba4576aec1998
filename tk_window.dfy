/**
 * The Tk window's data side: `refresh_all_tables`, which lists every row,
 * `run_search`, which re-filters only the tree of the selected tab, and the
 * combo refreshers.
 */
module TkWindow {
  import opened Results
  import opened Text
  import opened Order
  import opened Db
  import opened Search

  /** One person of `run_search`'s loop: the haystack joins the related course
      ids with a space; a kept row runs the relation query a second time and
      shows that answer joined with ", ". */
  method SearchPerson(db: Store, kind: PersonKind, id: Id, row: PersonRow, t: string)
    returns (kept: Option<PersonView>, ghost hayIds: seq<Id>, ghost shownIds: seq<Id>)
    requires db.schema
    ensures Enumerates(hayIds, Related(db.Contents(), kind, id))
    ensures Enumerates(shownIds, Related(db.Contents(), kind, id))
    ensures kept == if Contains(PersonHaystack(id, row, hayIds, " "), t)
                    then Some(PersonViewOf(id, row, shownIds)) else None
  {
    var ids := RelatedQuery(db, kind, id);
    hayIds, shownIds := ids, ids;
    var hay := PersonHaystack(id, row, ids, " ");
    if Contains(hay, t) {
      var again := RelatedQuery(db, kind, id);
      kept := Some(PersonView(id, row.name, IntToString(row.age), row.email, Join(again, ", ")));
      shownIds := again;
    } else {
      kept := None;
    }
  }

  /** The rows of a person tree for the normalised term `t`. */
  method PersonRows(db: Store, kind: PersonKind, t: string)
    returns (rows: seq<PersonView>, ghost listing: seq<(Id, PersonRow)>,
             ghost hayRel: seq<seq<Id>>, ghost shownRel: seq<seq<Id>>)
    requires db.schema
    ensures PersonTableShows(rows, db.Contents(), kind, t, " ", listing, hayRel, shownRel)
  {
    var all := PeopleQuery(db, kind);
    listing := all;
    rows, hayRel, shownRel := [], [], [];
    var k := 0;
    while k < |all|
      invariant 0 <= k <= |all|
      invariant |hayRel| == k && |shownRel| == k
      invariant RelatedAnswers(db.Contents(), kind, all, hayRel)
      invariant RelatedAnswers(db.Contents(), kind, all, shownRel)
      invariant rows == KeepMatching(t, PersonHays(all[..k], hayRel, " "), PersonViews(all[..k], shownRel))
    {
      var kept, hayIds, shownIds := SearchPerson(db, kind, all[k].0, all[k].1, t);
      PersonRowsStep(t, " ", all, k, hayRel, shownRel, hayIds, shownIds);
      if kept.Some? {
        rows := rows + [kept.value];
      }
      RelatedAnswersSnoc(db.Contents(), kind, all, hayRel, hayIds);
      RelatedAnswersSnoc(db.Contents(), kind, all, shownRel, shownIds);
      hayRel, shownRel := hayRel + [hayIds], shownRel + [shownIds];
      k := k + 1;
    }
    assert all[..k] == all;
  }

  /** One course of `run_search`'s loop, searched with a space-joined roster
      and shown with a second, ", "-joined roster query when kept. */
  method SearchCourse(db: Store, id: Id, row: CourseRow, t: string)
    returns (kept: Option<CourseView>, ghost hayIds: seq<Id>, ghost shownIds: seq<Id>)
    requires db.schema
    ensures Enumerates(hayIds, CourseStudentSet(db.Contents(), id))
    ensures Enumerates(shownIds, CourseStudentSet(db.Contents(), id))
    ensures kept == if Contains(CourseHaystack(id, row, hayIds, " "), t)
                    then Some(CourseViewOf(id, row, shownIds)) else None
  {
    var instructor := InstructorText(row.instructor);
    var ids := db.CourseStudents(id);
    hayIds, shownIds := ids, ids;
    var hay := CourseHaystack(id, row, ids, " ");
    if Contains(hay, t) {
      var again := db.CourseStudents(id);
      kept := Some(CourseView(id, row.name, instructor, Join(again, ", ")));
      shownIds := again;
    } else {
      kept := None;
    }
  }

  method CourseRows(db: Store, t: string)
    returns (rows: seq<CourseView>, ghost listing: seq<(Id, CourseRow)>,
             ghost hayRosters: seq<seq<Id>>, ghost shownRosters: seq<seq<Id>>)
    requires db.schema
    ensures CourseTableShows(rows, db.Contents(), t, " ", listing, hayRosters, shownRosters)
  {
    var all := db.ListCourses();
    listing := all;
    rows, hayRosters, shownRosters := [], [], [];
    var k := 0;
    while k < |all|
      invariant 0 <= k <= |all|
      invariant |hayRosters| == k && |shownRosters| == k
      invariant RosterAnswers(db.Contents(), all, hayRosters)
      invariant RosterAnswers(db.Contents(), all, shownRosters)
      invariant rows == KeepMatching(t, CourseHays(all[..k], hayRosters, " "), CourseViews(all[..k], shownRosters))
    {
      var kept, hayIds, shownIds := SearchCourse(db, all[k].0, all[k].1, t);
      CourseRowsStep(t, " ", all, k, hayRosters, shownRosters, hayIds, shownIds);
      if kept.Some? {
        rows := rows + [kept.value];
      }
      RosterAnswersSnoc(db.Contents(), all, hayRosters, hayIds);
      RosterAnswersSnoc(db.Contents(), all, shownRosters, shownIds);
      hayRosters, shownRosters := hayRosters + [hayIds], shownRosters + [shownIds];
      k := k + 1;
    }
    assert all[..k] == all;
  }

  /** Every row of a person table, in listing order, with its related ids. */
  method AllPersonRows(db: Store, kind: PersonKind)
    returns (rows: seq<PersonView>, ghost listing: seq<(Id, PersonRow)>, ghost related: seq<seq<Id>>)
    requires db.schema
    ensures PersonQueries(db.Contents(), kind, listing, related)
    ensures rows == PersonViews(listing, related)
  {
    var all := PeopleQuery(db, kind);
    listing := all;
    rows, related := [], [];
    var k := 0;
    while k < |all|
      invariant 0 <= k <= |all|
      invariant |related| == k
      invariant RelatedAnswers(db.Contents(), kind, all, related)
      invariant rows == PersonViews(all[..k], related)
    {
      var id, row := all[k].0, all[k].1;
      var ids := RelatedQuery(db, kind, id);
      rows := rows + [PersonView(id, row.name, IntToString(row.age), row.email, Join(ids, ", "))];
      assert PersonViews(all[..k + 1], related + [ids]) == PersonViews(all[..k], related) + [PersonViewOf(id, row, ids)];
      RelatedAnswersSnoc(db.Contents(), kind, all, related, ids);
      related := related + [ids];
      k := k + 1;
    }
    assert all[..k] == all;
  }

  method AllCourseRows(db: Store)
    returns (rows: seq<CourseView>, ghost listing: seq<(Id, CourseRow)>, ghost rosters: seq<seq<Id>>)
    requires db.schema
    ensures CourseQueries(db.Contents(), listing, rosters)
    ensures rows == CourseViews(listing, rosters)
  {
    var all := db.ListCourses();
    listing := all;
    rows, rosters := [], [];
    var k := 0;
    while k < |all|
      invariant 0 <= k <= |all|
      invariant |rosters| == k
      invariant RosterAnswers(db.Contents(), all, rosters)
      invariant rows == CourseViews(all[..k], rosters)
    {
      var id, row := all[k].0, all[k].1;
      var ids := db.CourseStudents(id);
      rows := rows + [CourseView(id, row.name, InstructorText(row.instructor), Join(ids, ", "))];
      assert CourseViews(all[..k + 1], rosters + [ids]) == CourseViews(all[..k], rosters) + [CourseViewOf(id, row, ids)];
      RosterAnswersSnoc(db.Contents(), all, rosters, ids);
      rosters := rosters + [ids];
      k := k + 1;
    }
    assert all[..k] == all;
  }

  /** A person tree as `run_search` leaves it for the normalised term `t`. */
  ghost predicate TkPersonTree(rows: seq<PersonView>, d: Tables, kind: PersonKind, t: string) {
    exists listing, hayRel, shownRel :: PersonTableShows(rows, d, kind, t, " ", listing, hayRel, shownRel)
  }

  ghost predicate TkCourseTree(rows: seq<CourseView>, d: Tables, t: string) {
    exists listing, hayRosters, shownRosters :: CourseTableShows(rows, d, t, " ", listing, hayRosters, shownRosters)
  }

  /** A tree as `refresh_all_tables` leaves it: every listed row. */
  ghost predicate FullPersonTree(rows: seq<PersonView>, d: Tables, kind: PersonKind) {
    exists listing, related :: PersonQueries(d, kind, listing, related) && rows == PersonViews(listing, related)
  }

  ghost predicate FullCourseTree(rows: seq<CourseView>, d: Tables) {
    exists listing, rosters :: CourseQueries(d, listing, rosters) && rows == CourseViews(listing, rosters)
  }

  /** The unfiltered refresh shows what a search for the empty term shows. */
  lemma FullTreeIsEmptySearch(rows: seq<PersonView>, d: Tables, kind: PersonKind)
    requires FullPersonTree(rows, d, kind)
    ensures TkPersonTree(rows, d, kind, "")
  {
    var listing, related :| PersonQueries(d, kind, listing, related) && rows == PersonViews(listing, related);
    EmptyTermKeepsAll(PersonHays(listing, related, " "), PersonViews(listing, related));
    assert PersonTableShows(rows, d, kind, "", " ", listing, related, related);
  }

  lemma FullCourseTreeIsEmptySearch(rows: seq<CourseView>, d: Tables)
    requires FullCourseTree(rows, d)
    ensures TkCourseTree(rows, d, "")
  {
    var listing, rosters :| CourseQueries(d, listing, rosters) && rows == CourseViews(listing, rosters);
    EmptyTermKeepsAll(CourseHays(listing, rosters, " "), CourseViews(listing, rosters));
    assert CourseTableShows(rows, d, "", " ", listing, rosters, rosters);
  }

  /** The contents of the Tk window's trees and combo boxes. */
  class MainWindow {
    var studentsTree: seq<PersonView>
    var instructorsTree: seq<PersonView>
    var coursesTree: seq<CourseView>
    var instructorCombo: seq<string>
    var registerStudentCombo: seq<string>
    var registerCourseCombo: seq<string>
    var assignCourseCombo: seq<string>
    var assignInstructorCombo: seq<string>

    /** The start-up of the script: `init_db`, the widgets built empty, then
        every combo and every tree loaded. */
    constructor (db: Store)
      modifies db
      ensures db.schema && db.Contents() == old(db.Contents())
      ensures exists l :: IsListing(l, db.instructors) && instructorCombo == PersonComboItems(l)
      ensures exists l :: IsListing(l, db.instructors) && assignInstructorCombo == PersonComboItems(l)
      ensures exists l :: IsListing(l, db.students) && registerStudentCombo == PersonComboItems(l)
      ensures registerCourseCombo == assignCourseCombo
      ensures exists l :: IsListing(l, db.courses) && registerCourseCombo == CourseComboItems(l)
      ensures FullPersonTree(studentsTree, db.Contents(), StudentRows)
      ensures FullPersonTree(instructorsTree, db.Contents(), InstructorRows)
      ensures FullCourseTree(coursesTree, db.Contents())
    {
      db.InitDb();
      studentsTree, instructorsTree, coursesTree := [], [], [];
      instructorCombo, registerStudentCombo, registerCourseCombo := [], [], [];
      assignCourseCombo, assignInstructorCombo := [], [];
      new;
      ReloadFromDb(db);
    }

    /** `reload_from_db`: the four combo refreshers, then `refresh_all_tables`. */
    method ReloadFromDb(db: Store)
      requires db.schema
      modifies this
      ensures exists l :: IsListing(l, db.instructors) && instructorCombo == PersonComboItems(l)
      ensures exists l :: IsListing(l, db.instructors) && assignInstructorCombo == PersonComboItems(l)
      ensures exists l :: IsListing(l, db.students) && registerStudentCombo == PersonComboItems(l)
      ensures registerCourseCombo == assignCourseCombo
      ensures exists l :: IsListing(l, db.courses) && registerCourseCombo == CourseComboItems(l)
      ensures FullPersonTree(studentsTree, db.Contents(), StudentRows)
      ensures FullPersonTree(instructorsTree, db.Contents(), InstructorRows)
      ensures FullCourseTree(coursesTree, db.Contents())
    {
      RefreshInstructorCombos(db);
      RefreshStudentCombo(db);
      RefreshCourseCombos(db);
      RefreshAllTables(db);
    }

    /** `refresh_all_tables`: every tree cleared and refilled with all its rows. */
    method RefreshAllTables(db: Store)
      requires db.schema
      modifies this
      ensures instructorCombo == old(instructorCombo) && registerStudentCombo == old(registerStudentCombo)
      ensures registerCourseCombo == old(registerCourseCombo) && assignCourseCombo == old(assignCourseCombo)
      ensures assignInstructorCombo == old(assignInstructorCombo)
      ensures FullPersonTree(studentsTree, db.Contents(), StudentRows)
      ensures FullPersonTree(instructorsTree, db.Contents(), InstructorRows)
      ensures FullCourseTree(coursesTree, db.Contents())
    {
      ghost var l1, r1, l2, r2, l3, r3;
      studentsTree, l1, r1 := AllPersonRows(db, StudentRows);
      instructorsTree, l2, r2 := AllPersonRows(db, InstructorRows);
      coursesTree, l3, r3 := AllCourseRows(db);
    }

    /** `run_search`: only the tree of the selected tab (0 students,
        1 instructors, any other courses) is refilled under `term.strip().lower()`. */
    method RunSearch(db: Store, term: string, tab: int)
      requires db.schema
      modifies this
      ensures instructorCombo == old(instructorCombo) && registerStudentCombo == old(registerStudentCombo)
      ensures registerCourseCombo == old(registerCourseCombo) && assignCourseCombo == old(assignCourseCombo)
      ensures assignInstructorCombo == old(assignInstructorCombo)
      ensures tab == 0 ==> TkPersonTree(studentsTree, db.Contents(), StudentRows, TkTerm(term))
      ensures tab == 0 ==> instructorsTree == old(instructorsTree) && coursesTree == old(coursesTree)
      ensures tab == 1 ==> TkPersonTree(instructorsTree, db.Contents(), InstructorRows, TkTerm(term))
      ensures tab == 1 ==> studentsTree == old(studentsTree) && coursesTree == old(coursesTree)
      ensures tab != 0 && tab != 1 ==> TkCourseTree(coursesTree, db.Contents(), TkTerm(term))
      ensures tab != 0 && tab != 1 ==> studentsTree == old(studentsTree) && instructorsTree == old(instructorsTree)
    {
      var t := Lower(Strip(term));
      ghost var l, h, s;
      if tab == 0 {
        studentsTree, l, h, s := PersonRows(db, StudentRows, t);
      } else if tab == 1 {
        instructorsTree, l, h, s := PersonRows(db, InstructorRows, t);
      } else {
        ghost var cl;
        coursesTree, cl, h, s := CourseRows(db, t);
      }
    }

    /** `refresh_instructor_combo` and `refresh_instructor_assign_combo`. */
    method RefreshInstructorCombos(db: Store)
      requires db.schema
      modifies this
      ensures studentsTree == old(studentsTree) && instructorsTree == old(instructorsTree)
      ensures coursesTree == old(coursesTree)
      ensures registerStudentCombo == old(registerStudentCombo) && registerCourseCombo == old(registerCourseCombo)
      ensures assignCourseCombo == old(assignCourseCombo)
      ensures exists l :: IsListing(l, db.instructors) && instructorCombo == PersonComboItems(l)
      ensures exists l :: IsListing(l, db.instructors) && assignInstructorCombo == PersonComboItems(l)
    {
      var rows := db.ListInstructors();
      instructorCombo := PersonComboItems(rows);
      rows := db.ListInstructors();
      assignInstructorCombo := PersonComboItems(rows);
    }

    /** `refresh_student_combo`. */
    method RefreshStudentCombo(db: Store)
      requires db.schema
      modifies this
      ensures studentsTree == old(studentsTree) && instructorsTree == old(instructorsTree)
      ensures coursesTree == old(coursesTree)
      ensures instructorCombo == old(instructorCombo) && registerCourseCombo == old(registerCourseCombo)
      ensures assignCourseCombo == old(assignCourseCombo) && assignInstructorCombo == old(assignInstructorCombo)
      ensures exists l :: IsListing(l, db.students) && registerStudentCombo == PersonComboItems(l)
    {
      var rows := db.ListStudents();
      registerStudentCombo := PersonComboItems(rows);
    }

    /** `refresh_course_combos`: one list of labels for both course combos. */
    method RefreshCourseCombos(db: Store)
      requires db.schema
      modifies this
      ensures studentsTree == old(studentsTree) && instructorsTree == old(instructorsTree)
      ensures coursesTree == old(coursesTree)
      ensures instructorCombo == old(instructorCombo) && registerStudentCombo == old(registerStudentCombo)
      ensures assignInstructorCombo == old(assignInstructorCombo)
      ensures registerCourseCombo == assignCourseCombo
      ensures exists l :: IsListing(l, db.courses) && registerCourseCombo == CourseComboItems(l)
    {
      var rows := db.ListCourses();
      var vals := CourseComboItems(rows);
      registerCourseCombo := vals;
      assignCourseCombo := vals;
    }
  }
}
