/**
 * The logic of the course form (`components/course-form.tsx`): the state an
 * edit starts from, the automatic subject list of a new course, the row
 * edits, and the validation and record build on submit.
 */
module CourseForm {
  import opened Wrappers
  import opened School
  import Seqs
  import HourPool

  /** `MAX_WEEKLY_HOURS_PER_COURSE`. */
  const MaxWeeklyHours: int := 40

  /** The form's state; `homeroomTeacherId` is `undefined` until one is chosen. */
  datatype Form = Form(
    level: Level,
    grade: Grade,
    section: Section,
    studentList: string,
    homeroomTeacherId: Option<string>,
    rows: seq<CourseSubject>)

  /** The state after mounting: the edited course's fields, or the defaults of a new course. */
  function Initial(initial: Option<Course>): (f: Form)
    ensures initial.None? ==> f.rows == [] && f.homeroomTeacherId.None? && f.studentList == ""
    ensures initial.Some? ==> f.rows == initial.value.courseSubjects
  {
    match initial
    case None => Form(Primario, Primero, A, "", None, [])
    case Some(c) => Form(c.level, c.grade, c.section, c.studentList, Some(c.homeroomTeacherId), c.courseSubjects)
  }

  // ---------------------------------------------------------------------
  // Automatic subjects of a new course
  // ---------------------------------------------------------------------

  /** The auto-populate effect: only a new course with no rows yet, once subjects are loaded. */
  function AutoPopulate(isNew: bool, subjects: seq<Subject>, f: Form): Form {
    if isNew && |subjects| > 0 && |f.rows| == 0 then f.(rows := AutoSubjects(subjects, f.level, f.grade)) else f
  }

  /**
   * The effect fills the rows of an empty new form with one entry per subject
   * configured at the form's level and grade, and otherwise changes nothing.
   * Running it again changes nothing more.
   */
  lemma AutoPopulateSpec(isNew: bool, subjects: seq<Subject>, f: Form)
    ensures var r := AutoPopulate(isNew, subjects, f);
      && r.(rows := f.rows) == f
      && (!isNew || |f.rows| > 0 ==> r == f)
      && (isNew && |f.rows| == 0 ==>
            forall e :: e in r.rows <==>
              exists i :: 0 <= i < |subjects| && ConfiguredHours(subjects[i], f.level, f.grade).Some?
                          && e == AutoEntry(subjects[i], f.level, f.grade))
      && AutoPopulate(isNew, subjects, r) == r
  {
    AutoSubjectsMembers(subjects, f.level, f.grade);
  }

  // ---------------------------------------------------------------------
  // Row edits
  // ---------------------------------------------------------------------

  /** `handleAddCourseSubject`: an empty row at the end. */
  function AddRow(f: Form): (r: Form)
    ensures |r.rows| == |f.rows| + 1 && r.rows[..|f.rows|] == f.rows
    ensures r.rows[|f.rows|] == CourseSubject("", 0)
  {
    f.(rows := f.rows + [CourseSubject("", 0)])
  }

  /** `handleRemoveCourseSubject`: the row at `index` goes; any other index changes nothing. */
  function RemoveRow(f: Form, index: int): (r: Form)
    ensures r.(rows := f.rows) == f
  {
    f.(rows := Seqs.RemoveIndex(f.rows, index))
  }

  /** Removing the row just added restores the form. */
  lemma RemoveAddedRow(f: Form)
    ensures RemoveRow(AddRow(f), |f.rows|) == f
  {
    assert (f.rows + [CourseSubject("", 0)])[..|f.rows|] == f.rows;
  }

  /** Removing a row takes exactly its hours out of the total. */
  lemma RemoveRowTotal(f: Form, index: nat)
    requires index < |f.rows|
    ensures HourPool.SumHours(RemoveRow(f, index).rows) == HourPool.SumHours(f.rows) - f.rows[index].weeklyHours
  {
    var rows := f.rows;
    assert rows == rows[..index] + [rows[index]] + rows[index + 1..];
    SumHoursAppend(rows[..index] + [rows[index]], rows[index + 1..]);
    SumHoursAppend(rows[..index], [rows[index]]);
    SumHoursAppend(rows[..index], rows[index + 1..]);
    assert HourPool.SumHours([rows[index]]) == rows[index].weeklyHours + HourPool.SumHours([]);
  }

  lemma {:induction false} SumHoursAppend(a: seq<CourseSubject>, b: seq<CourseSubject>)
    ensures HourPool.SumHours(a + b) == HourPool.SumHours(a) + HourPool.SumHours(b)
  {
    if |a| > 0 {
      assert (a + b)[1..] == a[1..] + b;
      SumHoursAppend(a[1..], b);
    } else {
      assert a + b == b;
    }
  }

  lemma {:induction false} SumHoursUpdate(rows: seq<CourseSubject>, i: nat, e: CourseSubject)
    requires i < |rows|
    ensures HourPool.SumHours(rows[i := e]) == HourPool.SumHours(rows) - rows[i].weeklyHours + e.weeklyHours
  {
    if i > 0 {
      assert rows[i := e][1..] == rows[1..][i - 1 := e];
      SumHoursUpdate(rows[1..], i - 1, e);
    } else {
      assert rows[i := e][1..] == rows[1..];
    }
  }

  /** The two editable fields of a row. */
  datatype Field = SubjectField(subjectId: string) | HoursField(hours: int)

  /** The hours a newly chosen subject brings: its configured entry, or 0. */
  function SuggestedHours(subjects: seq<Subject>, subjectId: string, level: Level, grade: Grade): int {
    match FindSubject(subjects, subjectId)
    case None => 0
    case Some(s) => if s.hoursTable.None? then 0 else HoursOrZero(s, level, grade)
  }

  /**
   * `handleCourseSubjectChange`: choosing a subject also resets the row's
   * hours to the suggestion (clearing it keeps them); typing hours sets them.
   */
  function ChangeRow(f: Form, index: nat, field: Field, subjects: seq<Subject>): (r: Form)
    requires index < |f.rows|
    ensures r.(rows := f.rows) == f
    ensures |r.rows| == |f.rows|
    ensures forall j :: 0 <= j < |f.rows| && j != index ==> r.rows[j] == f.rows[j]
  {
    var row := f.rows[index];
    var updated := match field
      case HoursField(h) => row.(weeklyHours := h)
      case SubjectField(v) =>
        if v == "" then row.(subjectId := v)
        else CourseSubject(v, SuggestedHours(subjects, v, f.level, f.grade));
    f.(rows := f.rows[index := updated])
  }

  /**
   * Choosing a subject configured at the form's level and grade gives the
   * row the same entry the automatic list gives it; an unknown subject or
   * one without a table gives 0 hours.
   */
  lemma ChangeSubjectSpec(f: Form, index: nat, subjectId: string, subjects: seq<Subject>)
    requires index < |f.rows| && subjectId != ""
    ensures var row := ChangeRow(f, index, SubjectField(subjectId), subjects).rows[index];
      && row.subjectId == subjectId
      && (FindSubject(subjects, subjectId).None? ==> row.weeklyHours == 0)
      && (forall s :: FindSubject(subjects, subjectId) == Some(s) && ConfiguredHours(s, f.level, f.grade).Some? ==>
            row == AutoEntry(s, f.level, f.grade))
      && (FindSubject(subjects, subjectId).Some? && FindSubject(subjects, subjectId).value.hoursTable.None? ==>
            row.weeklyHours == 0)
  {
  }

  /** Any edit moves the total by exactly that row's change in hours. */
  lemma ChangeRowTotal(f: Form, index: nat, field: Field, subjects: seq<Subject>)
    requires index < |f.rows|
    ensures var r := ChangeRow(f, index, field, subjects);
      HourPool.SumHours(r.rows) == HourPool.SumHours(f.rows) - f.rows[index].weeklyHours + r.rows[index].weeklyHours
  {
    var r := ChangeRow(f, index, field, subjects);
    assert r.rows == f.rows[index := r.rows[index]];
    SumHoursUpdate(f.rows, index, r.rows[index]);
  }

  // ---------------------------------------------------------------------
  // handleSubmit
  // ---------------------------------------------------------------------

  /** The messages of `handleSubmit`; rows are numbered from 1. */
  datatype CourseError =
    | TotalExceeds(total: int)
    | TotalNegative
    | RowNegative(row: nat)
    | RowWithoutSubject(row: nat)
    | NoHomeroom

  function CheckRow(cs: CourseSubject, row: nat): seq<CourseError> {
    (if cs.weeklyHours < 0 then [RowNegative(row)] else [])
    + (if cs.subjectId == "" then [RowWithoutSubject(row)] else [])
  }

  function RowErrors(rows: seq<CourseSubject>, base: nat): seq<CourseError> {
    if |rows| == 0 then [] else CheckRow(rows[0], base + 1) + RowErrors(rows[1..], base + 1)
  }

  /** The checks on the total hours. */
  function TotalErrors(total: int): seq<CourseError> {
    (if total > MaxWeeklyHours then [TotalExceeds(total)] else [])
    + (if total < 0 then [TotalNegative] else [])
  }

  function HomeroomErrors(f: Form): seq<CourseError> {
    if f.homeroomTeacherId.None? || f.homeroomTeacherId.value == "" then [NoHomeroom] else []
  }

  /** Every message `handleSubmit` collects, in the order it pushes them. */
  function FormErrors(f: Form): seq<CourseError> {
    TotalErrors(HourPool.SumHours(f.rows)) + RowErrors(f.rows, 0) + HomeroomErrors(f)
  }

  /** The saved course: the edited course's id when it has one, else a fresh one. */
  function BuildCourse(f: Form, initial: Option<Course>, freshId: string): Course {
    Course(
      if initial.Some? && initial.value.id != "" then initial.value.id else freshId,
      f.level, f.grade, f.section, f.studentList,
      if f.homeroomTeacherId.None? then "" else f.homeroomTeacherId.value,
      f.rows)
  }

  /** `handleSubmit`: the collected errors, or the course handed to `onSave`. */
  function Submit(f: Form, initial: Option<Course>, freshId: string): (r: Result<Course, seq<CourseError>>)
    ensures r.Err? ==> |r.error| > 0
  {
    var errors := FormErrors(f);
    if |errors| > 0 then Err(errors) else Ok(BuildCourse(f, initial, freshId))
  }

  predicate RowValid(cs: CourseSubject) {
    cs.weeklyHours >= 0 && cs.subjectId != ""
  }

  /** The form is acceptable, stated without the error list: at most 40 hours in total is allowed. */
  predicate Valid(f: Form) {
    && HourPool.SumHours(f.rows) <= MaxWeeklyHours
    && (forall i :: 0 <= i < |f.rows| ==> RowValid(f.rows[i]))
    && f.homeroomTeacherId.Some? && f.homeroomTeacherId.value != ""
  }

  lemma CheckRowMember(cs: CourseSubject, row: nat, e: CourseError)
    ensures e in CheckRow(cs, row) <==>
      (e == RowNegative(row) && cs.weeklyHours < 0) || (e == RowWithoutSubject(row) && cs.subjectId == "")
  {
    var n := if cs.weeklyHours < 0 then [RowNegative(row)] else [];
    var s := if cs.subjectId == "" then [RowWithoutSubject(row)] else [];
    assert e in CheckRow(cs, row) <==> e in n || e in s;
  }

  /** A row message names an existing row that fails that check; every failing check is reported. */
  lemma {:induction false} RowErrorsMember(rows: seq<CourseSubject>, base: nat, e: CourseError)
    ensures e in RowErrors(rows, base) <==>
      exists i :: 0 <= i < |rows| &&
        ((e == RowNegative(base + i + 1) && rows[i].weeklyHours < 0)
         || (e == RowWithoutSubject(base + i + 1) && rows[i].subjectId == ""))
  {
    if |rows| > 0 {
      var rest := rows[1..];
      RowErrorsMember(rest, base + 1, e);
      CheckRowMember(rows[0], base + 1, e);
      if e in RowErrors(rest, base + 1) {
        var i :| 0 <= i < |rest| &&
          ((e == RowNegative(base + 1 + i + 1) && rest[i].weeklyHours < 0)
           || (e == RowWithoutSubject(base + 1 + i + 1) && rest[i].subjectId == ""));
        assert rows[i + 1] == rest[i];
      }
      if exists i :: 0 <= i < |rows| &&
          ((e == RowNegative(base + i + 1) && rows[i].weeklyHours < 0)
           || (e == RowWithoutSubject(base + i + 1) && rows[i].subjectId == "")) {
        var i :| 0 <= i < |rows| &&
          ((e == RowNegative(base + i + 1) && rows[i].weeklyHours < 0)
           || (e == RowWithoutSubject(base + i + 1) && rows[i].subjectId == ""));
        if i > 0 {
          assert rows[i] == rest[i - 1];
        }
      }
    }
  }

  /** The row checks report nothing exactly when every row is valid. */
  lemma {:induction false} RowErrorsEmpty(rows: seq<CourseSubject>, base: nat)
    ensures RowErrors(rows, base) == [] <==> forall i :: 0 <= i < |rows| ==> RowValid(rows[i])
  {
    if |rows| > 0 {
      RowErrorsEmpty(rows[1..], base + 1);
      assert forall i :: 1 <= i < |rows| ==> rows[i] == rows[1..][i - 1];
    }
  }

  lemma {:induction false} SumHoursNonNegative(rows: seq<CourseSubject>)
    requires forall i :: 0 <= i < |rows| ==> rows[i].weeklyHours >= 0
    ensures HourPool.SumHours(rows) >= 0
  {
    if |rows| > 0 {
      SumHoursNonNegative(rows[1..]);
    }
  }

  lemma FormErrorsMember(f: Form, e: CourseError)
    ensures e in FormErrors(f) <==>
      e in TotalErrors(HourPool.SumHours(f.rows)) || e in RowErrors(f.rows, 0) || e in HomeroomErrors(f)
  {
  }

  /** The total is reported exactly when over 40 hours, and a negative total exactly when below 0. */
  lemma FormErrorsTotal(f: Form)
    ensures var total := HourPool.SumHours(f.rows);
      && (forall t :: TotalExceeds(t) in FormErrors(f) <==> t == total && total > MaxWeeklyHours)
      && (TotalNegative in FormErrors(f) <==> total < 0)
  {
    var total := HourPool.SumHours(f.rows);
    forall t ensures TotalExceeds(t) in FormErrors(f) <==> t == total && total > MaxWeeklyHours {
      FormErrorsMember(f, TotalExceeds(t));
      RowErrorsMember(f.rows, 0, TotalExceeds(t));
    }
    FormErrorsMember(f, TotalNegative);
    RowErrorsMember(f.rows, 0, TotalNegative);
  }

  /** A negative-hours message is reported exactly for an existing row with negative hours. */
  lemma FormErrorsNegativeRows(f: Form)
    ensures forall n: nat :: RowNegative(n) in FormErrors(f) <==> 0 < n <= |f.rows| && f.rows[n - 1].weeklyHours < 0
  {
    forall n: nat ensures RowNegative(n) in FormErrors(f) <==> 0 < n <= |f.rows| && f.rows[n - 1].weeklyHours < 0 {
      FormErrorsMember(f, RowNegative(n));
      RowErrorsMember(f.rows, 0, RowNegative(n));
    }
  }

  /** A missing-subject message is reported exactly for an existing row without a subject. */
  lemma FormErrorsRowsWithoutSubject(f: Form)
    ensures forall n: nat :: RowWithoutSubject(n) in FormErrors(f) <==> 0 < n <= |f.rows| && f.rows[n - 1].subjectId == ""
  {
    forall n: nat ensures RowWithoutSubject(n) in FormErrors(f) <==> 0 < n <= |f.rows| && f.rows[n - 1].subjectId == "" {
      FormErrorsMember(f, RowWithoutSubject(n));
      RowErrorsMember(f.rows, 0, RowWithoutSubject(n));
    }
  }

  /** The homeroom message is reported exactly when no homeroom teacher is chosen. */
  lemma FormErrorsHomeroom(f: Form)
    ensures NoHomeroom in FormErrors(f) <==> f.homeroomTeacherId.None? || f.homeroomTeacherId.value == ""
  {
    FormErrorsMember(f, NoHomeroom);
    RowErrorsMember(f.rows, 0, NoHomeroom);
  }

  /** A negative total is never reported alone: some row is then reported negative too. */
  lemma NegativeTotalHasNegativeRow(f: Form)
    requires TotalNegative in FormErrors(f)
    ensures exists n: nat :: RowNegative(n) in FormErrors(f)
  {
    FormErrorsTotal(f);
    if forall i :: 0 <= i < |f.rows| ==> f.rows[i].weeklyHours >= 0 {
      SumHoursNonNegative(f.rows);
      assert false;
    } else {
      var i :| 0 <= i < |f.rows| && f.rows[i].weeklyHours < 0;
      FormErrorsMember(f, RowNegative(i + 1));
      RowErrorsMember(f.rows, 0, RowNegative(i + 1));
    }
  }

  /** Saving happens exactly when the form is valid. */
  lemma SubmitOkIffValid(f: Form, initial: Option<Course>, freshId: string)
    ensures Submit(f, initial, freshId).Ok? <==> Valid(f)
  {
    RowErrorsEmpty(f.rows, 0);
    if forall i :: 0 <= i < |f.rows| ==> RowValid(f.rows[i]) {
      SumHoursNonNegative(f.rows);
    }
  }

  /** The saved course carries the form's fields and rows in order, under the kept or fresh id. */
  lemma SubmittedCourse(f: Form, initial: Option<Course>, freshId: string)
    requires Valid(f)
    ensures Submit(f, initial, freshId).Ok?
    ensures var c := Submit(f, initial, freshId).value;
      && c.id == (if initial.Some? && initial.value.id != "" then initial.value.id else freshId)
      && c.level == f.level && c.grade == f.grade && c.section == f.section
      && c.studentList == f.studentList
      && c.homeroomTeacherId == f.homeroomTeacherId.value && f.homeroomTeacherId.value != ""
      && c.courseSubjects == f.rows
      && 0 <= HourPool.SumHours(c.courseSubjects) <= MaxWeeklyHours
  {
    SubmitOkIffValid(f, initial, freshId);
    SumHoursNonNegative(f.rows);
  }

  /** Opening a valid course for editing and saving it unchanged gives the same course back. */
  lemma EditRoundTrip(c: Course, freshId: string)
    requires c.id != "" && c.homeroomTeacherId != ""
    requires HourPool.SumHours(c.courseSubjects) <= MaxWeeklyHours
    requires forall i :: 0 <= i < |c.courseSubjects| ==> RowValid(c.courseSubjects[i])
    ensures Submit(Initial(Some(c)), Some(c), freshId) == Ok(c)
  {
    SubmittedCourse(Initial(Some(c)), Some(c), freshId);
  }
}
