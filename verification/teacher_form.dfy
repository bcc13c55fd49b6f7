/**
 * The logic of the teacher form (`components/teacher-form.tsx`): the display
 * order of courses, the courses a teacher may be given, the suggested hours of
 * an assignment, the weekly load, the row updates and the validation and
 * record build on submit. It works on the records of `lib/types.ts`.
 */
module TeacherForm {
  import opened Wrappers
  import opened LibTypes
  import School
  import Seqs
  import Text

  /** A row of the form: a subject, its weekly hours and the courses it is taught in. */
  datatype Assignment = Assignment(subjectId: string, weeklyHoursAssigned: int, courseIds: seq<string>)

  /** The form's state as `handleSubmit` reads it. */
  datatype Form = Form(
    fullName: string,
    email: string,
    phone: string,
    specialty: string,
    rows: seq<Assignment>,
    restrictions: seq<School.Restriction>,
    teacherType: TeacherType,
    qualifiedLevels: seq<School.Level>,
    qualifiedGrades: seq<School.Grade>,
    qualifiedSections: seq<School.Section>,
    homeroomCourseId: string)

  // ---------------------------------------------------------------------
  // Course order and the courses available to the teacher
  // ---------------------------------------------------------------------

  /** `sortedCourses`: the stored courses sorted with the level, grade, section comparator. */
  function SortedCourses(courses: seq<Course>): (r: seq<Course>)
    ensures |r| == |courses|
  {
    Seqs.SortBy(courses, CourseRank)
  }

  /**
   * The sorted list is a permutation ordered by the comparator of
   * `getLevelOrder`, `getGradeOrder` and the section letter.
   */
  lemma SortedCoursesSpec(courses: seq<Course>)
    ensures var r := SortedCourses(courses);
      && multiset(r) == multiset(courses)
      && forall i, j :: 0 <= i < j < |r| ==>
           School.CompareTriples(r[i].level, r[i].grade, r[i].section, r[j].level, r[j].grade, r[j].section) <= 0
  {
    var r := SortedCourses(courses);
    Seqs.SortBySpec(courses, CourseRank);
    forall i, j | 0 <= i < j < |r|
      ensures School.CompareTriples(r[i].level, r[i].grade, r[i].section, r[j].level, r[j].grade, r[j].section) <= 0
    {
      School.RankMatchesComparator(r[i].level, r[i].grade, r[i].section, r[j].level, r[j].grade, r[j].section);
    }
  }

  /** Courses of the same level, grade and section keep their stored order (`sort` is stable). */
  lemma SortedCoursesStable(courses: seq<Course>, l: School.Level, g: School.Grade, s: School.Section)
    ensures var same := Seqs.KeyIs(CourseRank, School.TripleRank(l, g, s));
      Seqs.Filter(SortedCourses(courses), same) == Seqs.Filter(courses, same)
  {
    Seqs.SortByStable(courses, CourseRank, School.TripleRank(l, g, s));
  }

  /** An empty qualification list admits every value. */
  predicate Qualifies(f: Form, c: Course) {
    && (|f.qualifiedLevels| == 0 || c.level in f.qualifiedLevels)
    && (|f.qualifiedGrades| == 0 || c.grade in f.qualifiedGrades)
    && (|f.qualifiedSections| == 0 || c.section in f.qualifiedSections)
  }

  function QualifiesFor(f: Form): Course -> bool {
    (c: Course) => Qualifies(f, c)
  }

  /** `getAvailableCoursesForTeacher`. */
  function AvailableCourses(f: Form, courses: seq<Course>): seq<Course> {
    if f.teacherType == Fijo then
      match FindCourse(courses, f.homeroomCourseId)
      case Some(c) => [c]
      case None => []
    else Seqs.Filter(SortedCourses(courses), QualifiesFor(f))
  }

  /**
   * A "fijo" teacher is offered exactly the first course with the homeroom
   * id, if any. Any other teacher is offered exactly the qualifying courses,
   * each as often as stored, in display order.
   */
  lemma AvailableCoursesSpec(f: Form, courses: seq<Course>)
    ensures var r := AvailableCourses(f, courses);
      && (f.teacherType == Fijo ==>
            && |r| <= 1
            && (|r| == 1 <==> exists i :: 0 <= i < |courses| && courses[i].id == f.homeroomCourseId)
            && (|r| == 1 ==> exists k :: 0 <= k < |courses| && r[0] == courses[k] && courses[k].id == f.homeroomCourseId
                                         && forall j :: 0 <= j < k ==> courses[j].id != f.homeroomCourseId))
      && (f.teacherType != Fijo ==>
            && (forall c :: c in r <==> c in courses && Qualifies(f, c))
            && multiset(r) == multiset(Seqs.Filter(courses, QualifiesFor(f)))
            && Seqs.SortedBy(r, CourseRank))
  {
    var r := AvailableCourses(f, courses);
    if f.teacherType == Fijo {
      match Seqs.FindIndex(courses, CourseIdIs(f.homeroomCourseId))
      case None =>
      case Some(k) =>
    } else {
      var sorted := SortedCourses(courses);
      var q := QualifiesFor(f);
      Seqs.SortBySpec(courses, CourseRank);
      Seqs.FilterSorted(sorted, q, CourseRank);
      forall x ensures multiset(r)[x] == multiset(Seqs.Filter(courses, q))[x] {
        Seqs.FilterMultiset(sorted, q, x);
        Seqs.FilterMultiset(courses, q, x);
      }
      forall c ensures c in r <==> c in courses && Qualifies(f, c) {
        assert c in sorted <==> c in courses by {
          assert c in sorted <==> multiset(sorted)[c] > 0;
        }
      }
    }
  }

  // ---------------------------------------------------------------------
  // Suggested hours and weekly load
  // ---------------------------------------------------------------------

  /** The hours one selected course contributes: its configured entry, or 0; an unknown course adds 0. */
  function CourseHours(s: School.Subject, courses: seq<Course>, courseId: string): int {
    match FindCourse(courses, courseId)
    case None => 0
    case Some(c) => School.HoursOrZero(s, c.level, c.grade)
  }

  function SumCourseHours(s: School.Subject, courses: seq<Course>, courseIds: seq<string>): int {
    if |courseIds| == 0 then 0 else CourseHours(s, courses, courseIds[0]) + SumCourseHours(s, courses, courseIds[1..])
  }

  /** `calculateHoursForCourses`. */
  function CalculateHoursForCourses(subjects: seq<School.Subject>, courses: seq<Course>,
                                    subjectId: string, courseIds: seq<string>): (h: int)
    ensures School.FindSubject(subjects, subjectId).None? ==> h == 0
    ensures School.FindSubject(subjects, subjectId).Some? && School.FindSubject(subjects, subjectId).value.hoursTable.None?
            ==> h == 0
  {
    match School.FindSubject(subjects, subjectId)
    case None => 0
    case Some(s) => if s.hoursTable.None? then 0 else SumCourseHours(s, courses, courseIds)
  }

  lemma {:induction false} SumCourseHoursAppend(s: School.Subject, courses: seq<Course>, a: seq<string>, b: seq<string>)
    ensures SumCourseHours(s, courses, a + b) == SumCourseHours(s, courses, a) + SumCourseHours(s, courses, b)
  {
    if |a| > 0 {
      assert (a + b)[1..] == a[1..] + b;
      SumCourseHoursAppend(s, courses, a[1..], b);
    } else {
      assert a + b == b;
    }
  }

  /** The suggestion is additive over the selected courses. */
  lemma CalculateHoursAppend(subjects: seq<School.Subject>, courses: seq<Course>, subjectId: string,
                             a: seq<string>, b: seq<string>)
    ensures CalculateHoursForCourses(subjects, courses, subjectId, a + b)
         == CalculateHoursForCourses(subjects, courses, subjectId, a) + CalculateHoursForCourses(subjects, courses, subjectId, b)
  {
    match School.FindSubject(subjects, subjectId)
    case None =>
    case Some(s) => SumCourseHoursAppend(s, courses, a, b);
  }

  /** One selected course contributes its configured hours when the subject, its table and the course exist. */
  lemma CalculateHoursSingle(subjects: seq<School.Subject>, courses: seq<Course>, subjectId: string, courseId: string)
    ensures CalculateHoursForCourses(subjects, courses, subjectId, [courseId])
         == match School.FindSubject(subjects, subjectId)
            case None => 0
            case Some(s) =>
              if s.hoursTable.None? || FindCourse(courses, courseId).None? then 0
              else School.HoursOrZero(s, FindCourse(courses, courseId).value.level, FindCourse(courses, courseId).value.grade)
  {
    match School.FindSubject(subjects, subjectId)
    case None =>
    case Some(s) =>
      assert SumCourseHours(s, courses, [courseId]) == CourseHours(s, courses, courseId) + SumCourseHours(s, courses, []);
  }

  function KnownCourse(courses: seq<Course>): string -> bool {
    (id: string) => FindCourse(courses, id).Some?
  }

  /** Selected ids that name no course contribute nothing. */
  lemma {:induction false} UnknownCoursesIgnored(subjects: seq<School.Subject>, courses: seq<Course>,
                                                 subjectId: string, courseIds: seq<string>)
    ensures CalculateHoursForCourses(subjects, courses, subjectId, courseIds)
         == CalculateHoursForCourses(subjects, courses, subjectId, Seqs.Filter(courseIds, KnownCourse(courses)))
  {
    if |courseIds| > 0 {
      var known := KnownCourse(courses);
      UnknownCoursesIgnored(subjects, courses, subjectId, courseIds[1..]);
      var head := if known(courseIds[0]) then [courseIds[0]] else [];
      assert Seqs.Filter(courseIds, known) == head + Seqs.Filter(courseIds[1..], known);
      assert courseIds == [courseIds[0]] + courseIds[1..];
      CalculateHoursAppend(subjects, courses, subjectId, [courseIds[0]], courseIds[1..]);
      CalculateHoursAppend(subjects, courses, subjectId, head, Seqs.Filter(courseIds[1..], known));
      CalculateHoursSingle(subjects, courses, subjectId, courseIds[0]);
    }
  }

  /** `weeklyLoad`: the assigned hours of all rows. */
  function WeeklyLoad(rows: seq<Assignment>): int {
    if |rows| == 0 then 0 else rows[0].weeklyHoursAssigned + WeeklyLoad(rows[1..])
  }

  /** Replacing one row changes the load by the difference of that row's hours. */
  lemma {:induction false} WeeklyLoadUpdate(rows: seq<Assignment>, i: nat, a: Assignment)
    requires i < |rows|
    ensures WeeklyLoad(rows[i := a]) == WeeklyLoad(rows) - rows[i].weeklyHoursAssigned + a.weeklyHoursAssigned
  {
    if i > 0 {
      assert rows[i := a][1..] == rows[1..][i - 1 := a];
      WeeklyLoadUpdate(rows[1..], i - 1, a);
    } else {
      assert rows[i := a][1..] == rows[1..];
    }
  }

  /** Rows with positive hours give a positive load. */
  lemma {:induction false} WeeklyLoadPositive(rows: seq<Assignment>)
    requires |rows| > 0 && forall i :: 0 <= i < |rows| ==> rows[i].weeklyHoursAssigned > 0
    ensures WeeklyLoad(rows) >= |rows|
  {
    if |rows| > 1 {
      WeeklyLoadPositive(rows[1..]);
    }
  }

  /** Splitting the rows splits the load. */
  lemma {:induction false} WeeklyLoadAppend(a: seq<Assignment>, b: seq<Assignment>)
    ensures WeeklyLoad(a + b) == WeeklyLoad(a) + WeeklyLoad(b)
  {
    if |a| > 0 {
      assert (a + b)[1..] == a[1..] + b;
      WeeklyLoadAppend(a[1..], b);
    } else {
      assert a + b == b;
    }
  }

  /** `handleAddAssignedSubject`: an empty row at the end. */
  function AddAssignment(rows: seq<Assignment>): (r: seq<Assignment>)
    ensures |r| == |rows| + 1 && r[..|rows|] == rows
    ensures r[|rows|] == Assignment("", 0, [])
  {
    rows + [Assignment("", 0, [])]
  }

  /** `handleRemoveAssignedSubject`: the row at `index` goes; any other index changes nothing. */
  function RemoveAssignment(rows: seq<Assignment>, index: int): seq<Assignment> {
    Seqs.RemoveIndex(rows, index)
  }

  /** A new row carries no hours, so the load stays, and removing it restores the list. */
  lemma AddAssignmentLoad(rows: seq<Assignment>)
    ensures WeeklyLoad(AddAssignment(rows)) == WeeklyLoad(rows)
    ensures RemoveAssignment(AddAssignment(rows), |rows|) == rows
  {
    var empty := Assignment("", 0, []);
    WeeklyLoadAppend(rows, [empty]);
    assert WeeklyLoad([empty]) == 0 + WeeklyLoad([]);
    assert (rows + [empty])[..|rows|] == rows;
  }

  /** Removing a row takes out exactly its hours. */
  lemma RemoveAssignmentLoad(rows: seq<Assignment>, index: nat)
    requires index < |rows|
    ensures WeeklyLoad(RemoveAssignment(rows, index)) == WeeklyLoad(rows) - rows[index].weeklyHoursAssigned
  {
    var before, after := rows[..index], rows[index + 1..];
    var tail := rows[index..];
    assert rows == before + tail;
    assert tail[1..] == after;
    assert RemoveAssignment(rows, index) == before + after;
    WeeklyLoadAppend(before, tail);
    WeeklyLoadAppend(before, after);
  }

  // ---------------------------------------------------------------------
  // handleAssignedSubjectChange
  // ---------------------------------------------------------------------

  /** The three edits of a row; `NewHours(None)` is the emptied hours field. */
  datatype Change = NewSubject(subjectId: string) | NewHours(hours: Option<int>) | NewCourses(courseIds: seq<string>)

  function ChangeAssignment(rows: seq<Assignment>, index: nat, change: Change,
                            subjects: seq<School.Subject>, courses: seq<Course>): (r: seq<Assignment>)
    requires index < |rows|
    ensures |r| == |rows|
    ensures forall j :: 0 <= j < |rows| && j != index ==> r[j] == rows[j]
    ensures change.NewSubject? ==> r[index] == Assignment(change.subjectId, 0, [])
    ensures change.NewCourses? ==>
      r[index] == Assignment(rows[index].subjectId,
                             CalculateHoursForCourses(subjects, courses, rows[index].subjectId, change.courseIds),
                             change.courseIds)
    ensures change.NewHours? ==>
      r[index] == rows[index].(weeklyHoursAssigned := if change.hours.None? then 0 else change.hours.value)
  {
    var row := rows[index];
    match change
    case NewHours(hours) =>
      rows[index := row.(weeklyHoursAssigned := if hours.None? then 0 else hours.value)]
    case NewCourses(courseIds) =>
      rows[index := row.(courseIds := courseIds,
                         weeklyHoursAssigned := CalculateHoursForCourses(subjects, courses, row.subjectId, courseIds))]
    case NewSubject(subjectId) =>
      rows[index := row.(subjectId := subjectId, courseIds := [], weeklyHoursAssigned := 0)]
  }

  /** After any row edit the weekly load moves by exactly that row's change in hours. */
  lemma ChangeAssignmentLoad(rows: seq<Assignment>, index: nat, change: Change,
                             subjects: seq<School.Subject>, courses: seq<Course>)
    requires index < |rows|
    ensures var r := ChangeAssignment(rows, index, change, subjects, courses);
      WeeklyLoad(r) == WeeklyLoad(rows) - rows[index].weeklyHoursAssigned + r[index].weeklyHoursAssigned
  {
    var r := ChangeAssignment(rows, index, change, subjects, courses);
    assert r == rows[index := r[index]];
    WeeklyLoadUpdate(rows, index, r[index]);
  }

  // ---------------------------------------------------------------------
  // handleSubmit
  // ---------------------------------------------------------------------

  datatype RowCheck = MissingSubject | MissingCourses | HoursNotPositive

  /** The messages of `handleSubmit`, with the 1-based row number where the message shows one. */
  datatype TeacherError =
    | NameRequired
    | NoSubjects
    | RowError(check: RowCheck, row: nat)
    | NoQualifiedLevels
    | NoQualifiedGrades
    | NoQualifiedSections
    | NoHomeroom

  predicate Fails(check: RowCheck, a: Assignment) {
    match check
    case MissingSubject => a.subjectId == ""
    case MissingCourses => |a.courseIds| == 0
    case HoursNotPositive => a.weeklyHoursAssigned <= 0
  }

  /** The three row checks, in order. */
  function CheckRow(a: Assignment, row: nat): seq<TeacherError> {
    (if a.subjectId == "" then [RowError(MissingSubject, row)] else [])
    + (if |a.courseIds| == 0 then [RowError(MissingCourses, row)] else [])
    + (if a.weeklyHoursAssigned <= 0 then [RowError(HoursNotPositive, row)] else [])
  }

  /** The row checks of `rows`, numbered from `base + 1`. */
  function RowErrors(rows: seq<Assignment>, base: nat): seq<TeacherError> {
    if |rows| == 0 then [] else CheckRow(rows[0], base + 1) + RowErrors(rows[1..], base + 1)
  }

  /** One row's messages are exactly its failing checks. */
  lemma CheckRowSpec(a: Assignment, row: nat)
    ensures forall e :: e in CheckRow(a, row) <==> e.RowError? && e.row == row && Fails(e.check, a)
  {
    var s := if a.subjectId == "" then [RowError(MissingSubject, row)] else [];
    var c := if |a.courseIds| == 0 then [RowError(MissingCourses, row)] else [];
    var h := if a.weeklyHoursAssigned <= 0 then [RowError(HoursNotPositive, row)] else [];
    assert CheckRow(a, row) == s + c + h;
    forall e ensures e in CheckRow(a, row) <==> e.RowError? && e.row == row && Fails(e.check, a) {
      assert e in CheckRow(a, row) <==> e in s || e in c || e in h;
    }
  }

  /** A row error names a failing check of an existing row. */
  lemma {:induction false} RowErrorsSound(rows: seq<Assignment>, base: nat)
    ensures forall e :: e in RowErrors(rows, base) ==>
      e.RowError? && base < e.row <= base + |rows| && Fails(e.check, rows[e.row - base - 1])
  {
    if |rows| > 0 {
      var rest := rows[1..];
      RowErrorsSound(rest, base + 1);
      CheckRowSpec(rows[0], base + 1);
      forall e | e in RowErrors(rows, base)
        ensures e.RowError? && base < e.row <= base + |rows| && Fails(e.check, rows[e.row - base - 1])
      {
        if e in RowErrors(rest, base + 1) {
          assert rest[e.row - (base + 1) - 1] == rows[e.row - base - 1];
        }
      }
    }
  }

  /** Every failing check of every row is reported with its row number. */
  lemma {:induction false} RowErrorsComplete(rows: seq<Assignment>, base: nat)
    ensures forall check, i :: 0 <= i < |rows| && Fails(check, rows[i]) ==>
      RowError(check, base + i + 1) in RowErrors(rows, base)
  {
    if |rows| > 0 {
      var rest := rows[1..];
      RowErrorsComplete(rest, base + 1);
      CheckRowSpec(rows[0], base + 1);
      forall check, i | 0 <= i < |rows| && Fails(check, rows[i])
        ensures RowError(check, base + i + 1) in RowErrors(rows, base)
      {
        if i > 0 {
          assert rows[i] == rest[i - 1];
        }
      }
    }
  }

  /** The kinds that must name at least one level, grade and section. */
  predicate Rotating(t: TeacherType) {
    t == Rotacion || t == DosNiveles || t == Mixto
  }

  /** The kinds that must name a homeroom course. */
  predicate NeedsHomeroom(t: TeacherType) {
    t == Fijo || t == Mixto
  }

  /** The checks on the name and on the presence of rows. */
  function GeneralErrors(f: Form): seq<TeacherError> {
    (if Text.Trim(f.fullName) == "" then [NameRequired] else [])
    + (if |f.rows| == 0 then [NoSubjects] else [])
  }

  /** The checks that depend on the kind of teacher. */
  function KindErrors(f: Form): seq<TeacherError> {
    (if Rotating(f.teacherType) && |f.qualifiedLevels| == 0 then [NoQualifiedLevels] else [])
    + (if Rotating(f.teacherType) && |f.qualifiedGrades| == 0 then [NoQualifiedGrades] else [])
    + (if Rotating(f.teacherType) && |f.qualifiedSections| == 0 then [NoQualifiedSections] else [])
    + (if NeedsHomeroom(f.teacherType) && f.homeroomCourseId == "" then [NoHomeroom] else [])
  }

  /** Every message `handleSubmit` collects, in the order it pushes them. */
  function FormErrors(f: Form): seq<TeacherError> {
    GeneralErrors(f) + RowErrors(f.rows, 0) + KindErrors(f)
  }

  /** The record `onSave` receives; the id is the edited teacher's, or a fresh one. */
  function BuildTeacher(f: Form, initialId: Option<string>, freshId: string): Teacher {
    var fijo := f.teacherType == Fijo;
    Teacher(
      if initialId.Some? && initialId.value != "" then initialId.value else freshId,
      f.fullName,
      Some(f.email),
      Some(f.phone),
      Some(f.specialty),
      seq(|f.rows|, i requires 0 <= i < |f.rows| =>
        SubjectTaught(f.rows[i].subjectId, f.rows[i].weeklyHoursAssigned, f.rows[i].courseIds)),
      WeeklyLoad(f.rows),
      f.restrictions,
      f.teacherType,
      Some(if fijo then [] else f.qualifiedLevels),
      Some(if fijo then [] else f.qualifiedGrades),
      Some(if fijo then [] else f.qualifiedSections),
      if NeedsHomeroom(f.teacherType) then Some(f.homeroomCourseId) else None)
  }

  /** `handleSubmit`: the collected errors, or the teacher handed to `onSave`. */
  function Submit(f: Form, initialId: Option<string>, freshId: string): (r: Result<Teacher, seq<TeacherError>>)
    ensures r.Err? ==> |r.error| > 0
  {
    var errors := FormErrors(f);
    if |errors| > 0 then Err(errors) else Ok(BuildTeacher(f, initialId, freshId))
  }

  /** The form is acceptable, stated without the error list. */
  predicate Valid(f: Form) {
    && !Text.IsBlank(f.fullName)
    && |f.rows| > 0
    && (forall i :: 0 <= i < |f.rows| ==>
          f.rows[i].subjectId != "" && |f.rows[i].courseIds| > 0 && f.rows[i].weeklyHoursAssigned > 0)
    && (Rotating(f.teacherType) ==>
          |f.qualifiedLevels| > 0 && |f.qualifiedGrades| > 0 && |f.qualifiedSections| > 0)
    && (NeedsHomeroom(f.teacherType) ==> f.homeroomCourseId != "")
  }

  /** A row that passes all three checks. */
  predicate RowPasses(a: Assignment) {
    a.subjectId != "" && |a.courseIds| > 0 && a.weeklyHoursAssigned > 0
  }

  /** The row checks report nothing exactly when every row passes. */
  lemma {:induction false} RowErrorsEmpty(rows: seq<Assignment>, base: nat)
    ensures RowErrors(rows, base) == [] <==> forall i :: 0 <= i < |rows| ==> RowPasses(rows[i])
  {
    if |rows| > 0 {
      RowErrorsEmpty(rows[1..], base + 1);
      assert forall i :: 1 <= i < |rows| ==> rows[i] == rows[1..][i - 1];
    }
  }

  lemma GeneralErrorsSpec(f: Form)
    ensures NameRequired in GeneralErrors(f) <==> Text.IsBlank(f.fullName)
    ensures NoSubjects in GeneralErrors(f) <==> |f.rows| == 0
    ensures forall e :: e in GeneralErrors(f) ==> e == NameRequired || e == NoSubjects
  {
    Text.TrimEmptyIffBlank(f.fullName);
  }

  lemma KindErrorsMember(f: Form, e: TeacherError)
    ensures e in KindErrors(f) <==>
      || (e == NoQualifiedLevels && Rotating(f.teacherType) && |f.qualifiedLevels| == 0)
      || (e == NoQualifiedGrades && Rotating(f.teacherType) && |f.qualifiedGrades| == 0)
      || (e == NoQualifiedSections && Rotating(f.teacherType) && |f.qualifiedSections| == 0)
      || (e == NoHomeroom && NeedsHomeroom(f.teacherType) && f.homeroomCourseId == "")
  {
    var rot := Rotating(f.teacherType);
    var l := if rot && |f.qualifiedLevels| == 0 then [NoQualifiedLevels] else [];
    var g := if rot && |f.qualifiedGrades| == 0 then [NoQualifiedGrades] else [];
    var s := if rot && |f.qualifiedSections| == 0 then [NoQualifiedSections] else [];
    var h := if NeedsHomeroom(f.teacherType) && f.homeroomCourseId == "" then [NoHomeroom] else [];
    assert KindErrors(f) == l + g + s + h;
    assert e in KindErrors(f) <==> e in l || e in g || e in s || e in h;
  }

  lemma KindErrorsSpec(f: Form)
    ensures NoQualifiedLevels in KindErrors(f) <==> Rotating(f.teacherType) && |f.qualifiedLevels| == 0
    ensures NoQualifiedGrades in KindErrors(f) <==> Rotating(f.teacherType) && |f.qualifiedGrades| == 0
    ensures NoQualifiedSections in KindErrors(f) <==> Rotating(f.teacherType) && |f.qualifiedSections| == 0
    ensures NoHomeroom in KindErrors(f) <==> NeedsHomeroom(f.teacherType) && f.homeroomCourseId == ""
    ensures forall e :: e in KindErrors(f) ==> !e.RowError? && e != NameRequired && e != NoSubjects
  {
    forall e ensures e in KindErrors(f) ==> !e.RowError? && e != NameRequired && e != NoSubjects {
      KindErrorsMember(f, e);
    }
    KindErrorsMember(f, NoQualifiedLevels);
    KindErrorsMember(f, NoQualifiedGrades);
    KindErrorsMember(f, NoQualifiedSections);
    KindErrorsMember(f, NoHomeroom);
  }

  /** A message is in the full list exactly when one of the three groups holds it. */
  lemma FormErrorsMembers(f: Form, e: TeacherError)
    ensures e in FormErrors(f) <==> e in GeneralErrors(f) || e in RowErrors(f.rows, 0) || e in KindErrors(f)
  {
  }

  /** The name and row-presence messages are reported exactly when their conditions hold. */
  lemma FormErrorsGeneral(f: Form)
    ensures NameRequired in FormErrors(f) <==> Text.IsBlank(f.fullName)
    ensures NoSubjects in FormErrors(f) <==> |f.rows| == 0
  {
    GeneralErrorsSpec(f);
    KindErrorsSpec(f);
    RowErrorsSound(f.rows, 0);
    FormErrorsMembers(f, NameRequired);
    FormErrorsMembers(f, NoSubjects);
  }

  /** A row message is reported exactly for a failing check of an existing row. */
  lemma FormErrorsRows(f: Form)
    ensures forall check, i :: 0 <= i < |f.rows| ==>
      (RowError(check, i + 1) in FormErrors(f) <==> Fails(check, f.rows[i]))
    ensures forall e :: e in FormErrors(f) && e.RowError? ==> 0 < e.row <= |f.rows|
  {
    GeneralErrorsSpec(f);
    KindErrorsSpec(f);
    RowErrorsSound(f.rows, 0);
    RowErrorsComplete(f.rows, 0);
    forall e ensures e in FormErrors(f) <==> e in GeneralErrors(f) || e in RowErrors(f.rows, 0) || e in KindErrors(f) {
      FormErrorsMembers(f, e);
    }
  }

  /** The qualification and homeroom messages are reported exactly when their conditions hold. */
  lemma FormErrorsKind(f: Form)
    ensures NoQualifiedLevels in FormErrors(f) <==> Rotating(f.teacherType) && |f.qualifiedLevels| == 0
    ensures NoQualifiedGrades in FormErrors(f) <==> Rotating(f.teacherType) && |f.qualifiedGrades| == 0
    ensures NoQualifiedSections in FormErrors(f) <==> Rotating(f.teacherType) && |f.qualifiedSections| == 0
    ensures NoHomeroom in FormErrors(f) <==> NeedsHomeroom(f.teacherType) && f.homeroomCourseId == ""
  {
    GeneralErrorsSpec(f);
    KindErrorsSpec(f);
    RowErrorsSound(f.rows, 0);
    FormErrorsMembers(f, NoQualifiedLevels);
    FormErrorsMembers(f, NoQualifiedGrades);
    FormErrorsMembers(f, NoQualifiedSections);
    FormErrorsMembers(f, NoHomeroom);
  }

  /** Saving happens exactly when the form is valid. */
  lemma SubmitOkIffValid(f: Form, initialId: Option<string>, freshId: string)
    ensures Submit(f, initialId, freshId).Ok? <==> Valid(f)
  {
    Text.TrimEmptyIffBlank(f.fullName);
    RowErrorsEmpty(f.rows, 0);
    assert FormErrors(f) == [] <==> GeneralErrors(f) == [] && RowErrors(f.rows, 0) == [] && KindErrors(f) == [];
  }

  /**
   * The saved teacher: the fields and contact details as entered, the rows
   * as assignments, a positive load equal to their hours, empty
   * qualification lists for a "fijo" teacher and the homeroom kept only for
   * "fijo" and "mixto".
   */
  lemma SubmittedTeacher(f: Form, initialId: Option<string>, freshId: string)
    requires Valid(f)
    ensures Submit(f, initialId, freshId).Ok?
    ensures var t := Submit(f, initialId, freshId).value;
      && t.id == (if initialId.Some? && initialId.value != "" then initialId.value else freshId)
      && t.fullName == f.fullName && t.teacherType == f.teacherType && t.restrictions == f.restrictions
      && t.email == Some(f.email) && t.phone == Some(f.phone) && t.specialty == Some(f.specialty)
      && |t.subjectsTaught| == |f.rows|
      && (forall i :: 0 <= i < |f.rows| ==>
            t.subjectsTaught[i].subjectId == f.rows[i].subjectId
            && t.subjectsTaught[i].weeklyHoursAssigned == f.rows[i].weeklyHoursAssigned
            && t.subjectsTaught[i].courseIds == f.rows[i].courseIds)
      && t.weeklyLoad == WeeklyLoad(f.rows) && t.weeklyLoad > 0
      && (f.teacherType == Fijo ==>
            t.qualifiedLevels == Some([]) && t.qualifiedGrades == Some([]) && t.qualifiedSections == Some([]))
      && (f.teacherType != Fijo ==>
            && t.qualifiedLevels == Some(f.qualifiedLevels)
            && t.qualifiedGrades == Some(f.qualifiedGrades)
            && t.qualifiedSections == Some(f.qualifiedSections))
      && (t.homeroomCourseId.Some? <==> f.teacherType == Fijo || f.teacherType == Mixto)
      && (t.homeroomCourseId.Some? ==> t.homeroomCourseId.value == f.homeroomCourseId && f.homeroomCourseId != "")
  {
    SubmitOkIffValid(f, initialId, freshId);
    WeeklyLoadPositive(f.rows);
  }
}
