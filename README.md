# School management core, modelled in Dafny

This project models the core of a small school management system: the
validated entity classes `Person`, `Student`, `Instructor` and `Course` with
their `to_dict` serialisers, the SQLite store of `db.py` (four tables:
students, instructors, courses and the registrations between students and
courses), and the data side of the two front-ends — the free-text row filter
of the tables and the `"id - name"` combo labels from which the selected id is
parsed back.

Layout, one module per file:

- `results.dfy` — `Option` and `Result`.
- `text.dfy` — the string operations the source relies on: `strip` over ASCII
  whitespace, ASCII `lower`, substring search (`t in hay`), `join`,
  `split(sep, 1)[0]`, decimal rendering of an integer.
- `identifiers.dfy` — the identifier rule `_ID_RE`.
- `records.dfy` — the `ValueError` messages and the insertion-ordered dict
  built by `to_dict` (including `dict.update`).
- `person.dfy`, `student.dfy`, `instructor.dfy`, `course.dfy` — each
  constructor as a function returning `Result<Entity, ValidationError>`, running
  the checks of `__post_init__` in source order, and each `to_dict`.
- `order.dfy` — the order `ORDER BY <text key>` lists rows in (character codes
  compared left to right, a proper prefix first) and the unordered answers of
  queries without `ORDER BY`.
- `db.dfy` — the tables as a value `Tables`, every write as a transition
  function on it with lemmas about cascades and relations, and the class
  `Store` whose methods change its fields exactly as those functions say.
- `search.dfy` — haystacks, displayed rows, the filter `KeepMatching`, and the
  combo labels and their parse.
- `qt_window.dfy` — the Qt window: the loops of `_fill_tables`, the loops of
  `_refresh_combos`, and the window as a class over its tables and combos.
- `tk_window.dfy` — the Tk window: `run_search`, which refills only the tree of
  the selected tab, `refresh_all_tables`, the combo refreshers and start-up.

What the code does, as modelled (where it departs from the design its
docstrings and schema suggest, the model follows the code):

- The email check is the regular expression itself: `EmailPattern` is its
  language, `EmailShape` the cut-at-`@`, cut-at-last-`.` decision procedure,
  and the two are proved equal. The `$` anchor of `re.match` also accepts one
  trailing line feed, for emails and for identifiers alike.
- `Student.to_dict` and `Instructor.to_dict` put the identifier **last**
  (`dict.update` appends a new key), although their docstrings list it first.
- No `PRAGMA foreign_keys` is ever issued, so SQLite does not enforce the
  foreign keys the schema declares: `add_course`, `enroll_student`,
  `assign_instructor` and `update_course` accept unknown ids. Apart from the
  integer width of the age column (see "Left out"), the only store error is the
  duplicate primary key of an `INSERT`.
- `update_*` and `assign_instructor` on an absent id change nothing and raise
  nothing, although the docstrings of `update_*` say they raise.
- `delete_*` on an absent id raises nothing either, but it still runs its first
  statement: registrations or course assignments that name the id are removed
  or nulled, and with unenforced foreign keys such rows can exist. Only an
  absent id that no row refers to leaves the tables unchanged.
- `student_courses`, `instructor_courses` and `course_students` have no
  `ORDER BY`; their answers are stated as enumerations of a set, in no
  particular order, and every place that uses one holds for any order.

## Model

| member | source | states |
|---|---|---|
| Persons.EmailShapeIsPattern | Person.py:18 | the cut-based email check accepts exactly the strings of `[A-Za-z0-9._%+-]+@[A-Za-z0-9.-]+\.[A-Za-z]{2,63}` |
| Persons.EmailHasOneAt | Person.py:18 | an accepted email holds exactly one `@` |
| Persons.EmailEndsInTopLevel | Person.py:18 | an accepted email ends in 2 to 63 letters after its last `.` |
| Persons.TrailingNewlineAccepted | Person.py:44 | `re.match` with `$` accepts `"a@b.cc\n"` but not `"a@b.cc\n\n"` |
| Persons.NoShapeEndsInNewline | Person.py:18 | no string of the email pattern itself ends in a line feed |
| Persons.NewPerson | Person.py:39-45 | a constructed person holds exactly the given name, age and email |
| Persons.PersonAcceptance | Person.py:39-45 | a person is accepted iff the name has a non-whitespace character, 0 <= age <= 120, and the email is in the pattern's language, optionally followed by one line feed |
| Persons.PersonFirstFailure | Person.py:39-45 | the checks run name, age, email and the first failing one decides the error |
| Persons.PersonToDict | Person.py:48-55 | the dict has exactly the keys name, age, email, in that order, with the field values |
| Text.NonBlankIff | Person.py:40 | `s.strip()` is non-empty iff `s` has a non-whitespace character |
| Text.StripLeft | Person.py:40 | the result is a suffix of the input, only whitespace was removed, and it does not start with whitespace |
| Text.StripRight | Person.py:40 | the result is a prefix of the input, only whitespace was removed, and it does not end with whitespace |
| Identifiers.IdOkHasNoSpace | Student.py:14 | an accepted id is non-empty, starts with no whitespace and contains no space |
| Records.Update | Student.py:52-54 | `dict.update` keeps keys unique, binds the key, leaves other keys' values alone, and appends a new key last |
| Students.NewStudent | Student.py:39-42 | a constructed student holds exactly the given fields |
| Students.StudentAcceptance | Student.py:39-42 | a student is accepted iff the person rules hold and the id has 1 to 64 characters from `[A-Za-z0-9._-]` (optionally followed by one line feed) |
| Students.StudentPersonChecksFirst | Student.py:40-42 | a person-level error is reported even when the id is bad too |
| Students.StudentIdRejected | Student.py:41-42 | with valid person fields, a bad id raises the fixed `student_id` message |
| Students.StudentToDict | Student.py:45-54 | the keys are name, age, email, student_id in that order, with the field values |
| Students.StudentDictRoundTrip | Student.py:45-54 | reading the dict back gives the same student, which validates again |
| Students.MayaConstructs | Student.py:34 | `Student("Maya", 20, "maya@uni.edu", "S-1001")` constructs |
| Instructors.NewInstructor | Instructor.py:36-39 | a constructed instructor holds exactly the given fields |
| Instructors.InstructorAcceptance | Instructor.py:36-39 | an instructor is accepted iff the person rules hold and the id matches `_ID_RE` |
| Instructors.InstructorPersonChecksFirst | Instructor.py:37-39 | a person-level error is reported even when the id is bad too |
| Instructors.InstructorIdRejected | Instructor.py:38-39 | with valid person fields, a bad id raises the fixed `instructor_id` message |
| Instructors.InstructorToDict | Instructor.py:42-51 | the keys are name, age, email, instructor_id in that order, with the field values |
| Instructors.InstructorDictRoundTrip | Instructor.py:42-51 | reading the dict back gives the same instructor |
| Instructors.KarimConstructs | Instructor.py:31 | `Instructor("Dr. Karim", 38, "karim@dept.edu", "I_42")` constructs |
| Courses.NewCourse | Course.py:35-42 | a constructed course holds exactly the given fields |
| Courses.CourseAcceptance | Course.py:35-42 | a course is accepted iff the id matches `_ID_RE`, the name has a non-whitespace character, and the instructor id is None or matches `_ID_RE`; its existence is not checked |
| Courses.CourseFirstFailure | Course.py:35-42 | the checks run id, name, instructor id and the first failing one decides the error; None always passes |
| Courses.CourseToDict | Course.py:45-56 | the keys are course_id, course_name, instructor_id in that order; a missing instructor is `None` |
| Courses.CourseDictRoundTrip | Course.py:45-56 | reading the dict back gives the same course |
| Courses.SoftwareToolsConstructs | Course.py:28 | `Course("EECE435L", "Software Tools", "I_42")` constructs |
| Order.LessTotal | db.py:81 | any two distinct keys are ordered one way or the other |
| Order.SortedUnique | db.py:81 | two strictly ascending sequences with the same elements are equal |
| Order.SortedKeys | db.py:81 | the table's keys, each exactly once, strictly ascending |
| Order.Enumerate | db.py:124-126 | every element of the answer set exactly once, in some order |
| Db.ListTable | db.py:81 | the rows of the table, each exactly once with its stored values, by ascending key |
| Db.ListingUnique | db.py:81 | only one sequence lists a table by ascending key |
| Db.Store.constructor | db.py:20-22 | a database file is either new and empty or already initialised with its rows |
| Db.Store.InitDb | db.py:29-66 | afterwards the tables exist, and the stored rows are unchanged, so a second call changes nothing |
| Db.Store.ListStudents | db.py:73-83 | every student row once, ascending by `student_id` |
| Db.Store.ListInstructors | db.py:86-96 | every instructor row once, ascending by `instructor_id` |
| Db.Store.ListCourses | db.py:99-109 | every course row once, ascending by `course_id` |
| Db.Store.StudentCourses | db.py:116-128 | exactly the course ids registered to the student, each once, in no particular order |
| Db.Store.InstructorCourses | db.py:131-143 | exactly the ids of the courses whose instructor is the given id |
| Db.Store.CourseStudents | db.py:146-158 | exactly the student ids registered to the course |
| Db.UnknownIdsHaveNoRelations | db.py:49-62 | while the declared foreign keys hold, an unknown id has no related ids |
| Db.Store.AddStudent | db.py:165-173 | a taken key fails and changes nothing; otherwise the new state is the old one with the row inserted |
| Db.StudentAddedInsertsOne | db.py:165-173 | the insert fails iff the key is taken; otherwise exactly one row is added and nothing else changes |
| Db.StudentAddThenDelete | db.py:165-193 | deleting a student just added restores tables that satisfy the foreign keys |
| Db.Store.UpdateStudent | db.py:176-184 | the new state is the old one with the row's non-key fields overwritten, or unchanged for an absent id |
| Db.StudentUpdatedEffect | db.py:176-184 | only the named existing row changes, an absent id is a no-op, updating twice is updating once, and the foreign keys stay satisfied |
| Db.Store.DeleteStudent | db.py:187-193 | the student's registrations are removed, then the row |
| Db.StudentDeletedCascade | db.py:187-193 | the student and all its registrations are gone, other registrations, courses and instructors stay, the foreign keys stay satisfied, and an absent id with no registrations is a no-op |
| Db.AbsentStudentDeleteCascades | db.py:187-193 | deleting a student id that was never stored still removes a registration enrolled under it |
| Db.Store.AddInstructor | db.py:200-208 | a taken key fails and changes nothing; otherwise the row is inserted |
| Db.InstructorAddedInsertsOne | db.py:200-208 | the insert fails iff the key is taken; otherwise exactly one row is added and nothing else changes |
| Db.InstructorAddThenDelete | db.py:200-228 | deleting an instructor just added restores tables that satisfy the foreign keys |
| Db.Store.UpdateInstructor | db.py:211-219 | the named existing row's non-key fields are overwritten; an absent id changes nothing |
| Db.InstructorUpdatedEffect | db.py:211-219 | only the named existing row changes, an absent id is a no-op, and the foreign keys stay satisfied |
| Db.Store.DeleteInstructor | db.py:222-228 | the instructor is nulled on its courses, then its row is removed |
| Db.InstructorDeletedDetaches | db.py:222-228 | exactly the courses it taught lose their instructor, every course and registration stays, other instructors' courses are unchanged, the foreign keys stay satisfied, and an absent id that no course refers to is a no-op |
| Db.Store.AddCourse | db.py:235-243 | a taken key fails and changes nothing; otherwise the row is inserted with its instructor id unchecked |
| Db.CourseAddedInsertsOne | db.py:235-243 | the insert fails iff the key is taken, whatever the instructor id; otherwise exactly one row is added and the instructor gains that course |
| Db.CourseAddThenDelete | db.py:235-263 | deleting a course just added restores tables that satisfy the foreign keys |
| Db.Store.UpdateCourse | db.py:246-254 | the named existing row's name and instructor are overwritten; an absent id changes nothing |
| Db.CourseUpdatedEffect | db.py:246-254 | only the named existing course changes, an absent id is a no-op, and the foreign keys stay satisfied when the new instructor is stored |
| Db.Store.DeleteCourse | db.py:257-263 | the course's registrations are removed, then the row |
| Db.CourseDeletedCascade | db.py:257-263 | the course and its registrations are gone, every student and instructor relation loses only that course, students and instructors stay, the foreign keys stay satisfied, and an absent id with no registrations is a no-op |
| Db.Store.EnrollStudent | db.py:270-278 | the pair is added to the registrations |
| Db.EnrolledIdempotent | db.py:270-278 | enrolling twice is enrolling once, an existing pair is a no-op, and both relation queries gain the pair |
| Db.EnrolledUnchecked | db.py:270-278 | unknown ids are accepted: the foreign keys stay satisfied iff both ids are stored |
| Db.Store.AssignInstructor | db.py:281-289 | an existing course gets the instructor; an absent course changes nothing |
| Db.InstructorAssignedEffect | db.py:281-289 | the course keeps its name and gets the new instructor, moving to that instructor's courses and leaving every other instructor's; every other course, and every other table, is unchanged; and the foreign keys stay satisfied iff the instructor is stored |
| Db.ScenarioRelations | db.py:116-158 | after adding an instructor, a course taught by it and an enrolled student, each relation query answers the expected single id |
| Db.ScenarioDeletes | db.py:187-228 | deleting that student empties the roster but keeps the course; deleting the instructor unassigns the course and keeps the enrolment |
| Search.RelatedQuery | main_window_PyQt_db.py:103-112 | the course ids related to a student or an instructor, each once |
| Search.PeopleQuery | main_window_PyQt_db.py:102-111 | the students or the instructors, each once, by ascending id |
| Text.Lower | main_window_PyQt_db.py:104 | same length, every character lower-cased (ASCII) |
| Text.Contains | main_window_PyQt_db.py:105 | `t in hay` holds iff `t` occurs at some position of `hay` |
| Text.StripLowerCommute | main_window_tk_db.py:278 | stripping and lower-casing commute |
| Search.QtTermNormalised | main_window_PyQt_db.py:98 | the normalised term holds no capital letter and neither starts nor ends with whitespace |
| Search.TermsAgree | main_window_tk_db.py:278 | `term.lower().strip()` and `term.strip().lower()` give the same term |
| Search.PersonFieldsFound | main_window_PyQt_db.py:104 | a person's own id and name are found in its haystack |
| Search.CourseFieldsFound | main_window_PyQt_db.py:123 | a course's own id and name are found in its haystack |
| Search.KeptIndices | main_window_PyQt_db.py:101-106 | exactly the positions whose haystack holds the term, in increasing order |
| Search.KeepMatchingSnoc | main_window_PyQt_db.py:105-106 | one more row through the loop is appended iff its haystack holds the term |
| Search.KeepMatchingIff | main_window_PyQt_db.py:101-107 | with distinct rows, a row is displayed iff its haystack holds the term, and nothing else is displayed |
| Search.EmptyTermKeepsAll | main_window_PyQt_db.py:91-107 | the empty term keeps every row, in order |
| Search.PersonTableKeeps | main_window_PyQt_db.py:100-116 | a listed person is displayed, with its related ids, iff its haystack holds the term |
| Search.PersonTableOrder | main_window_PyQt_db.py:100-116 | only stored people are displayed, ascending by id, and the empty term displays the whole listing |
| Search.CourseTableKeeps | main_window_PyQt_db.py:118-126 | a listed course is displayed, with `""` for no instructor and its roster, iff its haystack holds the term |
| Search.CourseTableOrder | main_window_PyQt_db.py:118-126 | only stored courses are displayed, ascending by id, and the empty term displays the whole listing |
| Text.BeforeFirst | main_window_PyQt_db.py:484 | `s.split(sep, 1)[0]`: the prefix before the first occurrence of `sep`, or all of `s` |
| Search.ComboRoundTrip | main_window_PyQt_db.py:480-485 | the label `id - name` of a valid id and a non-blank name parses back to the id |
| Search.BlankNameLosesRoundTrip | main_window_PyQt_db.py:480-485 | with a blank name the stripped label `S1 -` comes back whole as the id |
| Search.BlankItemSelectsNothing | main_window_PyQt_db.py:400-401 | the blank instructor item selects no instructor |
| Search.SelectedPairRoundTrip | main_window_PyQt_db.py:480-500 | both combo labels parse back to their ids, and an empty selection is refused |
| Search.PersonComboSelects | main_window_PyQt_db.py:75-77 | every item of a person combo selects its own row's id |
| Search.InstructorChoicesSelect | main_window_PyQt_db.py:70-73 | the course form's blank first item selects no instructor and every other item its instructor |
| Search.CourseComboSelects | main_window_PyQt_db.py:79-81 | every item of a course combo selects its own course's id |
| QtWindow.PersonRows | main_window_PyQt_db.py:100-116 | the rows kept from the listing, in order, are exactly those whose haystack holds the term, with one relation answer shared by haystack and display |
| QtWindow.CourseRows | main_window_PyQt_db.py:118-126 | the courses kept from the listing, in order, are exactly those whose haystack holds the term |
| QtWindow.PersonLabels | main_window_PyQt_db.py:75-77 | one `id - name` item per listed person, in listing order |
| QtWindow.CourseLabels | main_window_PyQt_db.py:79-81 | one `id - name` item per listed course, in listing order |
| QtWindow.MainWindow.constructor | main_window_PyQt_db.py:51-60 | afterwards the tables exist, no row has changed, and the combos and unfiltered tables are loaded |
| QtWindow.MainWindow.RefreshCombos | main_window_PyQt_db.py:68-89 | each combo lists its table by ascending id; the course form's instructor choice starts with a blank item; the tables are untouched |
| QtWindow.MainWindow.FillTables | main_window_PyQt_db.py:91-126 | the three tables are refilled under `term.lower().strip()`; the combos are untouched |
| QtWindow.MainWindow.RefreshAll | main_window_PyQt_db.py:63-66 | the combos are reloaded and the tables filled under the empty term |
| TkWindow.SearchPerson | main_window_tk_db.py:282-286 | the row is kept iff the space-joined haystack holds the term, and it is shown with a second relation answer joined by ", " |
| TkWindow.PersonRows | main_window_tk_db.py:280-293 | the kept people, in listing order, are exactly those whose space-joined haystack holds the term |
| TkWindow.SearchCourse | main_window_tk_db.py:296-301 | the course is kept iff its haystack holds the term, and it is shown with `""` for no instructor and a second roster answer |
| TkWindow.CourseRows | main_window_tk_db.py:294-301 | the kept courses, in listing order, are exactly those whose haystack holds the term |
| TkWindow.AllPersonRows | main_window_tk_db.py:25-33 | every listed person, in order, with its related ids |
| TkWindow.AllCourseRows | main_window_tk_db.py:35-39 | every listed course, in order, with `""` for no instructor and its roster |
| TkWindow.FullTreeIsEmptySearch | main_window_tk_db.py:24-33 | the unfiltered tree is what a search for the empty term shows |
| TkWindow.FullCourseTreeIsEmptySearch | main_window_tk_db.py:35-39 | the unfiltered course tree is what a search for the empty term shows |
| TkWindow.MainWindow.constructor | main_window_tk_db.py:398-402 | after start-up (`init_db` at line 304, then the five refreshers) the tables exist, no row has changed, and every combo and every tree is loaded |
| TkWindow.MainWindow.ReloadFromDb | main_window_tk_db.py:264-266 | every combo reloaded by ascending id and every tree refilled unfiltered |
| TkWindow.MainWindow.RefreshAllTables | main_window_tk_db.py:24-39 | every tree shows all its rows; the combos are untouched |
| TkWindow.MainWindow.RunSearch | main_window_tk_db.py:277-301 | only the selected tab's tree (0 students, 1 instructors, any other courses) is refilled under `term.strip().lower()`; the others are untouched |
| TkWindow.MainWindow.RefreshInstructorCombos | main_window_tk_db.py:10-22 | both instructor combos list the instructors by ascending id |
| TkWindow.MainWindow.RefreshStudentCombo | main_window_tk_db.py:13-14 | the student combo lists the students by ascending id |
| TkWindow.MainWindow.RefreshCourseCombos | main_window_tk_db.py:16-19 | both course combos hold the same list of courses by ascending id |

## Left out

- Widgets, layouts, signal wiring, message boxes and file dialogs: the windows are modelled only by the rows of their tables and the items of their combo boxes.
- `export_csv` and `backup_db` / `backup_db_ui`: file I/O and a file copy.
- SQLite plumbing: connections, cursors, commits, row factories, and the exact exception types and messages. Each write is one atomic step, and the duplicate-key failure is the value `DuplicateKey`.
- Db.Store: every method except `InitDb` requires `schema`. On a file where `init_db` never ran, SQLite raises "no such table", and that path is not modelled. Both front-ends call `init_db` before anything else.
- Db.UnknownIdsHaveNoRelations: holds only while the declared foreign keys hold. Because they are not enforced, an enrolment or assignment with an unknown id gives that id relations.
- Python's `isinstance` checks and the front-ends' `int(...)` parsing of the age field: the types of the model rule out non-strings and non-integers.
- `str.strip`, `str.lower` and the regex character classes are modelled over ASCII only: whitespace is `\t`..`\r`, `\x1c`..`\x1f` and space, and case folding is `A`..`Z` to `a`..`z`.
- The text of the GUI error messages ("select a student and a course", and so on) is not modelled. `SelectedPair` returns `None` in those cases.
- Search.ComboRoundTrip: requires a non-blank name. With a blank name the parse returns the id followed by " -", as `Search.BlankNameLosesRoundTrip` shows. The constructors reject blank names before any row is stored.
- The Tk tree receives the age as an `int` and displays its decimal text; the model stores that text.
- The form handlers of both windows (add, update, delete, register, assign) are not part of this model beyond the combo parse they share. That includes the Tk `add_student` and `add_instructor` handlers, which read `._email` from the constructed entity (main_window_tk_db.py:53 and :90).
- Db.Store.AddStudent, Db.Store.AddInstructor, Db.Store.UpdateStudent, Db.Store.UpdateInstructor: accept any integer age. Python's `sqlite3` raises `OverflowError` and writes nothing for an age outside the signed 64-bit range of the `INTEGER` column; that error is not modelled. Both front-ends validate the age to [0, 120] through the entity constructors before calling these.
