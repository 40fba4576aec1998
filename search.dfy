/**
 * The two rules the front-ends add on top of the store: the free-text row
 * filter of the tables, and the "id - name" labels of the combo boxes with
 * the parse that recovers the id from the selected label.
 */
module Search {
  import opened Results
  import opened Text
  import opened Order
  import opened Identifiers
  import opened Db

  /** One row of the students or instructors table: id, name, age as shown,
      email and the related course ids joined with ", ". */
  datatype PersonView = PersonView(id: Id, name: string, age: string, email: string, courses: string)

  /** One row of the courses table: id, name, instructor id (or ""), and the
      roster joined with ", ". */
  datatype CourseView = CourseView(id: Id, name: string, instructor: string, roster: string)

  /** Which of the two person tables a filter runs over. */
  datatype PersonKind = StudentRows | InstructorRows

  function People(d: Tables, kind: PersonKind): map<Id, PersonRow> {
    if kind == StudentRows then d.students else d.instructors
  }

  /** The course ids shown beside a person: registrations for a student,
      taught courses for an instructor. */
  function Related(d: Tables, kind: PersonKind, id: Id): set<Id> {
    if kind == StudentRows then StudentCourseSet(d, id) else InstructorCourseSet(d, id)
  }

  /** `student_courses(id)` or `instructor_courses(id)`, by table. */
  method RelatedQuery(db: Store, kind: PersonKind, id: Id) returns (ids: seq<Id>)
    requires db.schema
    ensures Enumerates(ids, Related(db.Contents(), kind, id))
  {
    if kind == StudentRows {
      ids := db.StudentCourses(id);
    } else {
      ids := db.InstructorCourses(id);
    }
  }

  /** `list_students()` or `list_instructors()`, by table. */
  method PeopleQuery(db: Store, kind: PersonKind) returns (rows: seq<(Id, PersonRow)>)
    requires db.schema
    ensures IsListing(rows, People(db.Contents(), kind))
  {
    if kind == StudentRows {
      rows := db.ListStudents();
    } else {
      rows := db.ListInstructors();
    }
  }

  // ---- the search term

  /** `term.lower().strip()`, as the Qt window normalises it. */
  function QtTerm(term: string): string {
    Strip(Lower(term))
  }

  /** The normalised term holds no upper-case letter and neither starts nor
      ends with whitespace. */
  lemma QtTermNormalised(term: string)
    ensures forall i :: 0 <= i < |QtTerm(term)| ==> !IsUpper(QtTerm(term)[i])
    ensures QtTerm(term) == [] || (!IsSpace(QtTerm(term)[0]) && !IsSpace(QtTerm(term)[|QtTerm(term)| - 1]))
  {
    var l := Lower(term);
    StripKeepsNoUpper(l);
    var a := StripLeft(l);
    var t := StripRight(a);
    if t != [] {
      assert t[0] == a[0];
    }
  }

  predicate NoUpper(s: string) {
    forall i :: 0 <= i < |s| ==> !IsUpper(s[i])
  }

  lemma NoUpperSlice(s: string, lo: nat, hi: nat)
    requires lo <= hi <= |s| && NoUpper(s)
    ensures NoUpper(s[lo..hi])
  {
    forall i | 0 <= i < hi - lo
      ensures !IsUpper(s[lo..hi][i])
    {
      assert s[lo..hi][i] == s[lo + i];
    }
  }

  /** Stripping a string without capitals leaves none. */
  lemma StripKeepsNoUpper(l: string)
    requires NoUpper(l)
    ensures NoUpper(Strip(l))
  {
    var a := StripLeft(l);
    NoUpperSlice(l, |l| - |a|, |l|);
    var t := StripRight(a);
    NoUpperSlice(a, 0, |t|);
  }

  /** `term.strip().lower()`, as the Tk window normalises it. */
  function TkTerm(term: string): string {
    Lower(Strip(term))
  }

  /** Both windows search for the same normalised term. */
  lemma TermsAgree(term: string)
    ensures QtTerm(term) == TkTerm(term)
  {
    StripLowerCommute(term);
  }

  // ---- haystacks and displayed rows

  /** The lower-cased, space-separated text a person row is searched in;
      `sep` joins the related course ids. */
  function PersonHaystack(id: Id, row: PersonRow, related: seq<Id>, sep: string): string {
    Lower(id + " " + row.name + " " + IntToString(row.age) + " " + row.email + " " + Join(related, sep))
  }

  function PersonViewOf(id: Id, row: PersonRow, related: seq<Id>): PersonView {
    PersonView(id, row.name, IntToString(row.age), row.email, Join(related, ", "))
  }

  /** `c["instructor_id"] or ""`. */
  function InstructorText(instructor: Option<Id>): string {
    if instructor.Some? then instructor.value else ""
  }

  function CourseHaystack(id: Id, row: CourseRow, roster: seq<Id>, sep: string): string {
    Lower(id + " " + row.name + " " + InstructorText(row.instructor) + " " + Join(roster, sep))
  }

  function CourseViewOf(id: Id, row: CourseRow, roster: seq<Id>): CourseView {
    CourseView(id, row.name, InstructorText(row.instructor), Join(roster, ", "))
  }

  /** Lower-casing keeps every occurrence, lower-cased. */
  lemma LowerKeepsOccurrence(s: string, t: string, i: int)
    requires OccursAt(s, t, i)
    ensures Contains(Lower(s), Lower(t))
  {
    assert Lower(s)[i..i + |t|] == Lower(t);
    assert OccursAt(Lower(s), Lower(t), i);
  }

  /** Searching for a person's own id or name keeps the row. */
  lemma PersonFieldsFound(id: Id, row: PersonRow, related: seq<Id>, sep: string)
    ensures Contains(PersonHaystack(id, row, related, sep), Lower(id))
    ensures Contains(PersonHaystack(id, row, related, sep), Lower(row.name))
  {
    var s := id + " " + row.name + " " + IntToString(row.age) + " " + row.email + " " + Join(related, sep);
    assert s[0..|id|] == id;
    LowerKeepsOccurrence(s, id, 0);
    assert s[|id| + 1..|id| + 1 + |row.name|] == row.name;
    LowerKeepsOccurrence(s, row.name, |id| + 1);
  }

  /** Searching for a course's own id or name keeps the row. */
  lemma CourseFieldsFound(id: Id, row: CourseRow, roster: seq<Id>, sep: string)
    ensures Contains(CourseHaystack(id, row, roster, sep), Lower(id))
    ensures Contains(CourseHaystack(id, row, roster, sep), Lower(row.name))
  {
    var s := id + " " + row.name + " " + InstructorText(row.instructor) + " " + Join(roster, sep);
    assert s[0..|id|] == id;
    LowerKeepsOccurrence(s, id, 0);
    assert s[|id| + 1..|id| + 1 + |row.name|] == row.name;
    LowerKeepsOccurrence(s, row.name, |id| + 1);
  }

  // ---- the filter: keep, in listing order, the rows whose haystack holds the term

  /** The positions, in increasing order, of the haystacks that contain `t`. */
  function KeptIndices(t: string, hays: seq<string>): (idx: seq<nat>)
    ensures forall j :: 0 <= j < |idx| ==> idx[j] < |hays| && Contains(hays[idx[j]], t)
    ensures forall i, j :: 0 <= i < j < |idx| ==> idx[i] < idx[j]
    ensures forall k :: 0 <= k < |hays| && Contains(hays[k], t) ==> k in idx
    decreases |hays|
  {
    if |hays| == 0 then []
    else
      var n := |hays| - 1;
      var front := KeptIndices(t, hays[..n]);
      assert forall j :: 0 <= j < |front| ==> hays[..n][front[j]] == hays[front[j]];
      front + (if Contains(hays[n], t) then [n] else [])
  }

  function Picked<V>(views: seq<V>, idx: seq<nat>): seq<V>
    requires forall j :: 0 <= j < |idx| ==> idx[j] < |views|
  {
    seq(|idx|, j requires 0 <= j < |idx| => views[idx[j]])
  }

  /** The displayed rows: `views[k]` for each `k` whose haystack holds `t`. */
  function KeepMatching<V>(t: string, hays: seq<string>, views: seq<V>): seq<V>
    requires |hays| == |views|
  {
    Picked(views, KeptIndices(t, hays))
  }

  /** One more row through the loop: appended exactly when its haystack holds `t`. */
  lemma KeepMatchingSnoc<V>(t: string, hays: seq<string>, views: seq<V>, h: string, v: V)
    requires |hays| == |views|
    ensures KeepMatching(t, hays + [h], views + [v])
         == KeepMatching(t, hays, views) + (if Contains(h, t) then [v] else [])
  {
    assert (hays + [h])[..|hays|] == hays;
  }

  /** With distinct rows, a row is displayed exactly when its haystack holds
      `t`, and nothing else is displayed. */
  lemma KeepMatchingIff<V>(t: string, hays: seq<string>, views: seq<V>)
    requires |hays| == |views|
    requires forall i, j :: 0 <= i < j < |views| ==> views[i] != views[j]
    ensures forall k :: 0 <= k < |views| ==> (views[k] in KeepMatching(t, hays, views) <==> Contains(hays[k], t))
    ensures forall v :: v in KeepMatching(t, hays, views) ==> exists k :: 0 <= k < |views| && v == views[k] && Contains(hays[k], t)
  {
    var idx := KeptIndices(t, hays);
    var r := KeepMatching(t, hays, views);
    forall k | 0 <= k < |views| && views[k] in r
      ensures Contains(hays[k], t)
    {
      var j :| 0 <= j < |r| && r[j] == views[k];
      assert views[idx[j]] == views[k];
      assert idx[j] == k;
    }
    forall k | 0 <= k < |views| && Contains(hays[k], t)
      ensures views[k] in r
    {
      var j :| 0 <= j < |idx| && idx[j] == k;
      assert r[j] == views[k];
    }
    forall v | v in r
      ensures exists k :: 0 <= k < |views| && v == views[k] && Contains(hays[k], t)
    {
      var j :| 0 <= j < |r| && r[j] == v;
      assert v == views[idx[j]] && Contains(hays[idx[j]], t);
    }
  }

  lemma {:induction false} EmptyTermKeepsIndices(hays: seq<string>)
    ensures KeptIndices("", hays) == seq(|hays|, k => k)
    decreases |hays|
  {
    if |hays| > 0 {
      var n := |hays| - 1;
      EmptyTermKeepsIndices(hays[..n]);
      EmptyTermOccurs(hays[n]);
      assert KeptIndices("", hays) == KeptIndices("", hays[..n]) + [n];
      assert seq(n + 1, k => k) == seq(n, k => k) + [n];
    }
  }

  /** The empty term displays every row, in listing order. */
  lemma EmptyTermKeepsAll<V>(hays: seq<string>, views: seq<V>)
    requires |hays| == |views|
    ensures KeepMatching("", hays, views) == views
  {
    EmptyTermKeepsIndices(hays);
  }

  // ---- the person and course tables

  function PersonHays(listing: seq<(Id, PersonRow)>, related: seq<seq<Id>>, sep: string): seq<string>
    requires |related| == |listing|
  {
    seq(|listing|, k requires 0 <= k < |listing| => PersonHaystack(listing[k].0, listing[k].1, related[k], sep))
  }

  function PersonViews(listing: seq<(Id, PersonRow)>, related: seq<seq<Id>>): seq<PersonView>
    requires |related| == |listing|
  {
    seq(|listing|, k requires 0 <= k < |listing| => PersonViewOf(listing[k].0, listing[k].1, related[k]))
  }

  function CourseHays(listing: seq<(Id, CourseRow)>, rosters: seq<seq<Id>>, sep: string): seq<string>
    requires |rosters| == |listing|
  {
    seq(|listing|, k requires 0 <= k < |listing| => CourseHaystack(listing[k].0, listing[k].1, rosters[k], sep))
  }

  function CourseViews(listing: seq<(Id, CourseRow)>, rosters: seq<seq<Id>>): seq<CourseView>
    requires |rosters| == |listing|
  {
    seq(|listing|, k requires 0 <= k < |listing| => CourseViewOf(listing[k].0, listing[k].1, rosters[k]))
  }

  /** One more listed person through a filter loop. */
  lemma PersonRowsStep(t: string, sep: string, listing: seq<(Id, PersonRow)>, k: nat,
                       hayRel: seq<seq<Id>>, shownRel: seq<seq<Id>>, hayIds: seq<Id>, shownIds: seq<Id>)
    requires k < |listing| && |hayRel| == k && |shownRel| == k
    ensures KeepMatching(t, PersonHays(listing[..k + 1], hayRel + [hayIds], sep), PersonViews(listing[..k + 1], shownRel + [shownIds]))
         == KeepMatching(t, PersonHays(listing[..k], hayRel, sep), PersonViews(listing[..k], shownRel))
            + (if Contains(PersonHaystack(listing[k].0, listing[k].1, hayIds, sep), t)
               then [PersonViewOf(listing[k].0, listing[k].1, shownIds)] else [])
  {
    var hays := PersonHays(listing[..k], hayRel, sep);
    var views := PersonViews(listing[..k], shownRel);
    var h := PersonHaystack(listing[k].0, listing[k].1, hayIds, sep);
    var v := PersonViewOf(listing[k].0, listing[k].1, shownIds);
    assert PersonHays(listing[..k + 1], hayRel + [hayIds], sep) == hays + [h];
    assert PersonViews(listing[..k + 1], shownRel + [shownIds]) == views + [v];
    KeepMatchingSnoc(t, hays, views, h, v);
  }

  lemma CourseRowsStep(t: string, sep: string, listing: seq<(Id, CourseRow)>, k: nat,
                       hayRosters: seq<seq<Id>>, shownRosters: seq<seq<Id>>, hayIds: seq<Id>, shownIds: seq<Id>)
    requires k < |listing| && |hayRosters| == k && |shownRosters| == k
    ensures KeepMatching(t, CourseHays(listing[..k + 1], hayRosters + [hayIds], sep), CourseViews(listing[..k + 1], shownRosters + [shownIds]))
         == KeepMatching(t, CourseHays(listing[..k], hayRosters, sep), CourseViews(listing[..k], shownRosters))
            + (if Contains(CourseHaystack(listing[k].0, listing[k].1, hayIds, sep), t)
               then [CourseViewOf(listing[k].0, listing[k].1, shownIds)] else [])
  {
    var hays := CourseHays(listing[..k], hayRosters, sep);
    var views := CourseViews(listing[..k], shownRosters);
    var h := CourseHaystack(listing[k].0, listing[k].1, hayIds, sep);
    var v := CourseViewOf(listing[k].0, listing[k].1, shownIds);
    assert CourseHays(listing[..k + 1], hayRosters + [hayIds], sep) == hays + [h];
    assert CourseViews(listing[..k + 1], shownRosters + [shownIds]) == views + [v];
    KeepMatchingSnoc(t, hays, views, h, v);
  }

  /** `related[j]` answers the relation query for the j-th listed person, for
      every position filled so far. */
  ghost predicate RelatedAnswers(d: Tables, kind: PersonKind, listing: seq<(Id, PersonRow)>, related: seq<seq<Id>>) {
    && |related| <= |listing|
    && (forall j :: 0 <= j < |related| ==> Enumerates(related[j], Related(d, kind, listing[j].0)))
  }

  lemma RelatedAnswersSnoc(d: Tables, kind: PersonKind, listing: seq<(Id, PersonRow)>, related: seq<seq<Id>>, ids: seq<Id>)
    requires RelatedAnswers(d, kind, listing, related) && |related| < |listing|
    requires Enumerates(ids, Related(d, kind, listing[|related|].0))
    ensures RelatedAnswers(d, kind, listing, related + [ids])
  {
  }

  ghost predicate RosterAnswers(d: Tables, listing: seq<(Id, CourseRow)>, rosters: seq<seq<Id>>) {
    && |rosters| <= |listing|
    && (forall j :: 0 <= j < |rosters| ==> Enumerates(rosters[j], CourseStudentSet(d, listing[j].0)))
  }

  lemma RosterAnswersSnoc(d: Tables, listing: seq<(Id, CourseRow)>, rosters: seq<seq<Id>>, ids: seq<Id>)
    requires RosterAnswers(d, listing, rosters) && |rosters| < |listing|
    requires Enumerates(ids, CourseStudentSet(d, listing[|rosters|].0))
    ensures RosterAnswers(d, listing, rosters + [ids])
  {
  }

  /** `listing` is what `list_students` / `list_instructors` returns and
      `related[k]` what the relation query returns for its k-th row. */
  ghost predicate PersonQueries(d: Tables, kind: PersonKind, listing: seq<(Id, PersonRow)>, related: seq<seq<Id>>) {
    IsListing(listing, People(d, kind)) && |related| == |listing| && RelatedAnswers(d, kind, listing, related)
  }

  ghost predicate CourseQueries(d: Tables, listing: seq<(Id, CourseRow)>, rosters: seq<seq<Id>>) {
    IsListing(listing, d.courses) && |rosters| == |listing| && RosterAnswers(d, listing, rosters)
  }

  /** `rows` is a filtered person table: each listed person is searched in a
      haystack built from `hayRel` joined by `haySep`, and shown with `shownRel`. */
  ghost predicate PersonTableShows(rows: seq<PersonView>, d: Tables, kind: PersonKind, t: string, haySep: string,
                                   listing: seq<(Id, PersonRow)>, hayRel: seq<seq<Id>>, shownRel: seq<seq<Id>>) {
    && PersonQueries(d, kind, listing, hayRel)
    && PersonQueries(d, kind, listing, shownRel)
    && rows == KeepMatching(t, PersonHays(listing, hayRel, haySep), PersonViews(listing, shownRel))
  }

  ghost predicate CourseTableShows(rows: seq<CourseView>, d: Tables, t: string, haySep: string,
                                   listing: seq<(Id, CourseRow)>, hayRosters: seq<seq<Id>>, shownRosters: seq<seq<Id>>) {
    && CourseQueries(d, listing, hayRosters)
    && CourseQueries(d, listing, shownRosters)
    && rows == KeepMatching(t, CourseHays(listing, hayRosters, haySep), CourseViews(listing, shownRosters))
  }

  function ViewIds(rows: seq<PersonView>): seq<Id> {
    seq(|rows|, j requires 0 <= j < |rows| => rows[j].id)
  }

  function CourseViewIds(rows: seq<CourseView>): seq<Id> {
    seq(|rows|, j requires 0 <= j < |rows| => rows[j].id)
  }

  /** Keeping increasing positions of an ascending sequence keeps it ascending. */
  lemma KeptAscending(ids: seq<Id>, idx: seq<nat>)
    requires StrictlySorted(ids)
    requires forall j :: 0 <= j < |idx| ==> idx[j] < |ids|
    requires forall i, j :: 0 <= i < j < |idx| ==> idx[i] < idx[j]
    ensures StrictlySorted(Picked(ids, idx))
  {
  }

  lemma ListedIdsDistinct(ids: seq<Id>, i: nat, j: nat)
    requires StrictlySorted(ids) && i < j < |ids|
    ensures ids[i] != ids[j]
  {
    LessIrreflexive(ids[i]);
  }

  lemma PersonViewsDistinct(listing: seq<(Id, PersonRow)>, related: seq<seq<Id>>)
    requires StrictlySorted(IdsOf(listing)) && |related| == |listing|
    ensures forall i, j :: 0 <= i < j < |listing| ==> PersonViews(listing, related)[i] != PersonViews(listing, related)[j]
  {
    forall i, j | 0 <= i < j < |listing|
      ensures PersonViews(listing, related)[i] != PersonViews(listing, related)[j]
    {
      ListedIdsDistinct(IdsOf(listing), i, j);
      assert PersonViews(listing, related)[i].id == listing[i].0;
      assert PersonViews(listing, related)[j].id == listing[j].0;
    }
  }

  lemma CourseViewsDistinct(listing: seq<(Id, CourseRow)>, rosters: seq<seq<Id>>)
    requires StrictlySorted(IdsOf(listing)) && |rosters| == |listing|
    ensures forall i, j :: 0 <= i < j < |listing| ==> CourseViews(listing, rosters)[i] != CourseViews(listing, rosters)[j]
  {
    forall i, j | 0 <= i < j < |listing|
      ensures CourseViews(listing, rosters)[i] != CourseViews(listing, rosters)[j]
    {
      ListedIdsDistinct(IdsOf(listing), i, j);
      assert CourseViews(listing, rosters)[i].id == listing[i].0;
      assert CourseViews(listing, rosters)[j].id == listing[j].0;
    }
  }

  /** A listed person's row is displayed exactly when its haystack holds the term. */
  lemma PersonTableKeeps(rows: seq<PersonView>, d: Tables, kind: PersonKind, t: string, haySep: string,
                         listing: seq<(Id, PersonRow)>, hayRel: seq<seq<Id>>, shownRel: seq<seq<Id>>)
    requires PersonTableShows(rows, d, kind, t, haySep, listing, hayRel, shownRel)
    ensures forall k :: 0 <= k < |listing| ==>
      ((PersonViewOf(listing[k].0, listing[k].1, shownRel[k]) in rows)
       <==> Contains(PersonHaystack(listing[k].0, listing[k].1, hayRel[k], haySep), t))
  {
    var hays := PersonHays(listing, hayRel, haySep);
    var views := PersonViews(listing, shownRel);
    PersonViewsDistinct(listing, shownRel);
    KeepMatchingIff(t, hays, views);
    forall k | 0 <= k < |listing|
      ensures (PersonViewOf(listing[k].0, listing[k].1, shownRel[k]) in rows)
              <==> Contains(PersonHaystack(listing[k].0, listing[k].1, hayRel[k], haySep), t)
    {
      assert views[k] == PersonViewOf(listing[k].0, listing[k].1, shownRel[k]);
      assert hays[k] == PersonHaystack(listing[k].0, listing[k].1, hayRel[k], haySep);
    }
  }

  /** Only stored people are displayed, by ascending id, and the empty term
      displays the whole listing. */
  lemma PersonTableOrder(rows: seq<PersonView>, d: Tables, kind: PersonKind, t: string, haySep: string,
                         listing: seq<(Id, PersonRow)>, hayRel: seq<seq<Id>>, shownRel: seq<seq<Id>>)
    requires PersonTableShows(rows, d, kind, t, haySep, listing, hayRel, shownRel)
    ensures forall v :: v in rows ==> v.id in People(d, kind)
    ensures StrictlySorted(ViewIds(rows))
    ensures t == "" ==> rows == PersonViews(listing, shownRel)
  {
    var hays := PersonHays(listing, hayRel, haySep);
    var views := PersonViews(listing, shownRel);
    var idx := KeptIndices(t, hays);
    KeptAscending(IdsOf(listing), idx);
    assert ViewIds(rows) == Picked(IdsOf(listing), idx);
    forall v | v in rows
      ensures v.id in People(d, kind)
    {
      var j :| 0 <= j < |rows| && rows[j] == v;
      assert v.id == listing[idx[j]].0;
    }
    if t == "" {
      EmptyTermKeepsAll(hays, views);
    }
  }

  lemma CourseTableKeeps(rows: seq<CourseView>, d: Tables, t: string, haySep: string,
                         listing: seq<(Id, CourseRow)>, hayRosters: seq<seq<Id>>, shownRosters: seq<seq<Id>>)
    requires CourseTableShows(rows, d, t, haySep, listing, hayRosters, shownRosters)
    ensures forall k :: 0 <= k < |listing| ==>
      ((CourseViewOf(listing[k].0, listing[k].1, shownRosters[k]) in rows)
       <==> Contains(CourseHaystack(listing[k].0, listing[k].1, hayRosters[k], haySep), t))
  {
    var hays := CourseHays(listing, hayRosters, haySep);
    var views := CourseViews(listing, shownRosters);
    CourseViewsDistinct(listing, shownRosters);
    KeepMatchingIff(t, hays, views);
    forall k | 0 <= k < |listing|
      ensures (CourseViewOf(listing[k].0, listing[k].1, shownRosters[k]) in rows)
              <==> Contains(CourseHaystack(listing[k].0, listing[k].1, hayRosters[k], haySep), t)
    {
      assert views[k] == CourseViewOf(listing[k].0, listing[k].1, shownRosters[k]);
      assert hays[k] == CourseHaystack(listing[k].0, listing[k].1, hayRosters[k], haySep);
    }
  }

  lemma CourseTableOrder(rows: seq<CourseView>, d: Tables, t: string, haySep: string,
                         listing: seq<(Id, CourseRow)>, hayRosters: seq<seq<Id>>, shownRosters: seq<seq<Id>>)
    requires CourseTableShows(rows, d, t, haySep, listing, hayRosters, shownRosters)
    ensures forall v :: v in rows ==> v.id in d.courses
    ensures StrictlySorted(CourseViewIds(rows))
    ensures t == "" ==> rows == CourseViews(listing, shownRosters)
  {
    var hays := CourseHays(listing, hayRosters, haySep);
    var views := CourseViews(listing, shownRosters);
    var idx := KeptIndices(t, hays);
    KeptAscending(IdsOf(listing), idx);
    assert CourseViewIds(rows) == Picked(IdsOf(listing), idx);
    forall v | v in rows
      ensures v.id in d.courses
    {
      var j :| 0 <= j < |rows| && rows[j] == v;
      assert v.id == listing[idx[j]].0;
    }
    if t == "" {
      EmptyTermKeepsAll(hays, views);
    }
  }

  // ---- combo labels

  /** `f"{id} - {name}"`. */
  function ComboLabel(id: Id, name: string): string {
    id + " - " + name
  }

  /** `text.strip()`, then `text.split(" - ", 1)[0] if text else None`. */
  function SelectedId(text: string): Option<Id> {
    var s := Strip(text);
    if s == [] then None else Some(BeforeFirst(s, " - "))
  }

  /** Stripping a label keeps the id and separator and trims only the name. */
  lemma StripLabel(id: Id, name: string)
    requires IdOk(id) && NonBlank(name)
    ensures Strip(ComboLabel(id, name)) == id + " - " + StripRight(name)
  {
    IdOkHasNoSpace(id);
    NonBlankIff(name);
    var item := ComboLabel(id, name);
    assert item[0] == id[0];
    assert StripLeft(item) == item;
    StripRightAppend(id + " - ", name);
  }

  /** The first separator after a space-free id is the one right after it. */
  lemma SplitAfterId(id: Id, rest: string)
    requires forall i :: 0 <= i < |id| ==> id[i] != ' '
    ensures BeforeFirst(id + " - " + rest, " - ") == id
  {
    var s := id + " - " + rest;
    assert s[|id|..|id| + 3] == " - ";
    forall q | 0 <= q < |id|
      ensures !OccursAt(s, " - ", q)
    {
      assert s[q] == id[q];
    }
    BeforeFirstAt(s, " - ", |id|);
    assert s[..|id|] == id;
  }

  /** A label built from a valid id and a non-blank name parses back to the id. */
  lemma ComboRoundTrip(id: Id, name: string)
    requires IdOk(id) && NonBlank(name)
    ensures SelectedId(ComboLabel(id, name)) == Some(id)
  {
    StripLabel(id, name);
    IdOkHasNoSpace(id);
    SplitAfterId(id, StripRight(name));
  }

  /** The blank first item of the instructor combo selects no instructor. */
  lemma BlankItemSelectsNothing()
    ensures SelectedId("") == None
    ensures SelectedId(" ") == None
  {
  }

  /** A blank name loses the round trip: stripping eats the separator's trailing
      space, so the whole "S1 -" comes back as the id. */
  lemma BlankNameLosesRoundTrip()
    ensures SelectedId(ComboLabel("S1", " ")) == Some("S1 -")
  {
    var item := ComboLabel("S1", " ");
    assert item == "S1 -  ";
    assert StripLeft(item) == item;
    assert StripRight(item) == "S1 -" by {
      assert StripRight(item[..5]) == StripRight(item[..4]);
      assert item[..4] == "S1 -";
    }
    assert !OccursAt("S1 -", " - ", 0);
    assert !OccursAt("S1 -", " - ", 1);
    assert !(" - " <= "S1 -"[2..]);
  }

  /** The two selections of a register or assign action: both must be non-blank. */
  function SelectedPair(first: string, second: string): Option<(Id, Id)> {
    match (SelectedId(first), SelectedId(second))
    case (Some(a), Some(b)) => Some((a, b))
    case _ => None
  }

  lemma SelectedPairRoundTrip(id1: Id, name1: string, id2: Id, name2: string)
    requires IdOk(id1) && NonBlank(name1) && IdOk(id2) && NonBlank(name2)
    ensures SelectedPair(ComboLabel(id1, name1), ComboLabel(id2, name2)) == Some((id1, id2))
    ensures SelectedPair("", ComboLabel(id2, name2)) == None
    ensures SelectedPair(ComboLabel(id1, name1), "") == None
  {
    ComboRoundTrip(id1, name1);
    ComboRoundTrip(id2, name2);
  }

  /** The items of a student or instructor combo, in listing order. */
  function PersonComboItems(rows: seq<(Id, PersonRow)>): seq<string> {
    seq(|rows|, k requires 0 <= k < |rows| => ComboLabel(rows[k].0, rows[k].1.name))
  }

  function CourseComboItems(rows: seq<(Id, CourseRow)>): seq<string> {
    seq(|rows|, k requires 0 <= k < |rows| => ComboLabel(rows[k].0, rows[k].1.name))
  }

  /** The instructor choice of the course form: a blank item, then every instructor. */
  function InstructorChoices(rows: seq<(Id, PersonRow)>): seq<string> {
    [""] + PersonComboItems(rows)
  }

  /** Every item of a person combo selects its own row's id. */
  lemma PersonComboSelects(rows: seq<(Id, PersonRow)>)
    requires forall k :: 0 <= k < |rows| ==> IdOk(rows[k].0) && NonBlank(rows[k].1.name)
    ensures forall k :: 0 <= k < |rows| ==> SelectedId(PersonComboItems(rows)[k]) == Some(rows[k].0)
  {
    forall k | 0 <= k < |rows|
      ensures SelectedId(PersonComboItems(rows)[k]) == Some(rows[k].0)
    {
      ComboRoundTrip(rows[k].0, rows[k].1.name);
    }
  }

  /** The course form's instructor choice: the blank item selects no
      instructor, every other item its instructor's id. */
  lemma InstructorChoicesSelect(rows: seq<(Id, PersonRow)>)
    requires forall k :: 0 <= k < |rows| ==> IdOk(rows[k].0) && NonBlank(rows[k].1.name)
    ensures SelectedId(InstructorChoices(rows)[0]) == None
    ensures forall k :: 0 <= k < |rows| ==> SelectedId(InstructorChoices(rows)[k + 1]) == Some(rows[k].0)
  {
    var items := PersonComboItems(rows);
    assert InstructorChoices(rows)[0] == "";
    assert forall k :: 0 <= k < |rows| ==> InstructorChoices(rows)[k + 1] == items[k];
    PersonComboSelects(rows);
  }

  lemma CourseComboSelects(rows: seq<(Id, CourseRow)>)
    requires forall k :: 0 <= k < |rows| ==> IdOk(rows[k].0) && NonBlank(rows[k].1.name)
    ensures forall k :: 0 <= k < |rows| ==> SelectedId(CourseComboItems(rows)[k]) == Some(rows[k].0)
  {
    forall k | 0 <= k < |rows|
      ensures SelectedId(CourseComboItems(rows)[k]) == Some(rows[k].0)
    {
      ComboRoundTrip(rows[k].0, rows[k].1.name);
    }
  }
}
