/**
 * `generateSchedules`: the hour pool is built once, then every course in
 * list order is filled against teacher grids shared by the whole run. The
 * result holds one schedule per course and one per teacher; units that found
 * no cell are dropped and the run reports success regardless.
 */
module Generation {
  import opened Wrappers
  import opened School
  import Seqs
  import opened HourPool
  import opened Restrictions
  import opened Placement

  datatype CourseSchedule = CourseSchedule(courseId: string, courseName: string, schedule: CourseGrid)

  datatype TeacherSchedule = TeacherSchedule(teacherId: string, teacherName: string, schedule: TeacherGrid)

  datatype GenerationResult = GenerationResult(
    courseSchedules: seq<CourseSchedule>,
    teacherSchedules: seq<TeacherSchedule>,
    success: bool)

  function TeacherIds(teachers: seq<Teacher>): set<string> {
    set t | t in teachers :: t.id
  }

  /** One empty grid per teacher id (`teachers.map(...)` with empty days). */
  function InitialGrids(teachers: seq<Teacher>): TeacherGrids {
    map x | x in TeacherIds(teachers) :: map[]
  }

  /** The routed units can all be placed without crashing on a missing subject. */
  predicate PoolReady(pool: seq<Unit>, subjects: seq<Subject>) {
    forall u :: u in pool ==> FindSubject(subjects, u.subjectId).Some? && u.teacherId != ""
  }

  /** `courseAssignments` for course `c`, with an empty grid. */
  function CourseStart(pool: seq<Unit>, tg: TeacherGrids, c: Course): (st: FillState)
    ensures st.grid == map[] && st.teacherGrids == tg
    ensures forall u :: u in st.remaining <==> u in pool && u.courseId == c.id
  {
    FillState(map[], tg, CourseAssignments(pool, c.id))
  }

  function RunCourse(ro: Roster, slots: seq<TimeSlot>, pool: seq<Unit>, tg: TeacherGrids, c: Course): FillState
    requires PoolReady(pool, ro.subjects)
  {
    Fill(ro, c, CourseName(ro.courses, c.id), CourseStart(pool, tg, c), Positions(slots))
  }

  /** The fill of one course against the teacher grids left by the courses before it. */
  type Filler = (TeacherGrids, Course) --> FillState

  function CourseFill(ro: Roster, slots: seq<TimeSlot>, pool: seq<Unit>): Filler {
    (tg: TeacherGrids, c: Course) requires PoolReady(pool, ro.subjects) => RunCourse(ro, slots, pool, tg, c)
  }

  ghost predicate Total(fill: Filler) {
    forall tg, c :: fill.requires(tg, c)
  }

  /** The display name of a course, by id. */
  type Label = string -> string

  /** `getCourseName`, as a function of the course id. */
  function Naming(courses: seq<Course>): Label {
    (id: string) => CourseName(courses, id)
  }

  /**
   * What the outer loop reads: the courses in order, the teachers, the
   * display name of a course id, and the fill of one course.
   */
  datatype Setup = Setup(courses: seq<Course>, teachers: seq<Teacher>, nameOf: Label, fill: Filler)

  /** The state after the first `n` courses: their schedules, their unplaced units, the teacher grids. */
  datatype Run = Run(schedules: seq<CourseSchedule>, leftovers: seq<seq<Unit>>, teacherGrids: TeacherGrids)

  /** The outer loop over the courses, with the fill of each course left as a parameter. */
  function RunCourses(su: Setup, n: nat): (r: Run)
    requires n <= |su.courses|
    requires Total(su.fill)
    ensures |r.schedules| == n && |r.leftovers| == n
  {
    if n == 0 then Run([], [], InitialGrids(su.teachers))
    else
      var prev := RunCourses(su, n - 1);
      var c := su.courses[n - 1];
      var st := su.fill(prev.teacherGrids, c);
      Run(prev.schedules + [CourseSchedule(c.id, su.nameOf(c.id), st.grid)],
          prev.leftovers + [st.remaining],
          st.teacherGrids)
  }

  /** Teacher `i` is the first with its id, so `find` by that id reaches its schedule. */
  predicate FirstWithId(teachers: seq<Teacher>, i: nat)
    requires i < |teachers|
  {
    forall j :: 0 <= j < i ==> teachers[j].id != teachers[i].id
  }

  /**
   * `newTeacherSchedules`: one per teacher in list order; a teacher sharing an
   * id with an earlier one is never reached by `find` and keeps an empty schedule.
   */
  function TeacherSchedules(teachers: seq<Teacher>, tg: TeacherGrids): seq<TeacherSchedule> {
    seq(|teachers|, i requires 0 <= i < |teachers| =>
      TeacherSchedule(teachers[i].id, teachers[i].fullName,
        if FirstWithId(teachers, i) && teachers[i].id in tg then tg[teachers[i].id] else map[]))
  }

  function Pool(courses: seq<Course>, teachers: seq<Teacher>): seq<Unit>
    requires AllHoursNatural(courses)
  {
    AssignmentPool(teachers, SubjectPool(courses))
  }

  /** What the generator needs of its inputs not to crash: natural hours, and known subjects for routed units. */
  predicate Runnable(courses: seq<Course>, teachers: seq<Teacher>, subjects: seq<Subject>) {
    && AllHoursNatural(courses)
    && forall u :: u in Pool(courses, teachers) ==> FindSubject(subjects, u.subjectId).Some?
  }

  lemma RunnablePool(courses: seq<Course>, teachers: seq<Teacher>, subjects: seq<Subject>)
    requires Runnable(courses, teachers, subjects)
    ensures PoolReady(Pool(courses, teachers), subjects)
  {
    var pool := Pool(courses, teachers);
    forall u | u in pool ensures u.teacherId != "" {
      var i :| 0 <= i < |pool| && pool[i] == u;
    }
  }

  /** The loop as the generator runs it, total once the inputs are runnable. */
  function Generator(courses: seq<Course>, teachers: seq<Teacher>, subjects: seq<Subject>, slots: seq<TimeSlot>): (su: Setup)
    requires Runnable(courses, teachers, subjects)
    ensures su.courses == courses && su.teachers == teachers && Total(su.fill)
  {
    RunnablePool(courses, teachers, subjects);
    Setup(courses, teachers, Naming(courses), CourseFill(Roster(courses, teachers, subjects), slots, Pool(courses, teachers)))
  }

  function Generated(courses: seq<Course>, teachers: seq<Teacher>, subjects: seq<Subject>, slots: seq<TimeSlot>): Run
    requires Runnable(courses, teachers, subjects)
  {
    RunCourses(Generator(courses, teachers, subjects, slots), |courses|)
  }

  /**
   * `generateSchedules`: one schedule per course and one per teacher, in
   * input order, and success reported whatever was left unplaced.
   */
  function GenerateSchedules(courses: seq<Course>, teachers: seq<Teacher>, subjects: seq<Subject>, slots: seq<TimeSlot>): (r: GenerationResult)
    requires Runnable(courses, teachers, subjects)
    ensures r.success
    ensures |r.courseSchedules| == |courses| && |r.teacherSchedules| == |teachers|
    ensures forall k :: 0 <= k < |courses| ==>
      r.courseSchedules[k].courseId == courses[k].id && r.courseSchedules[k].courseName == CourseName(courses, courses[k].id)
    ensures forall j :: 0 <= j < |teachers| ==>
      r.teacherSchedules[j].teacherId == teachers[j].id && r.teacherSchedules[j].teacherName == teachers[j].fullName
  {
    var run := Generated(courses, teachers, subjects, slots);
    RunNames(Generator(courses, teachers, subjects, slots), |courses|);
    GenerationResult(run.schedules, TeacherSchedules(teachers, run.teacherGrids), true)
  }

  /** The units of course `k` that the run left unplaced; the source discards them. */
  function Leftover(courses: seq<Course>, teachers: seq<Teacher>, subjects: seq<Subject>, slots: seq<TimeSlot>, k: nat): seq<Unit>
    requires Runnable(courses, teachers, subjects)
    requires k < |courses|
  {
    Generated(courses, teachers, subjects, slots).leftovers[k]
  }

  // ---------------------------------------------------------------------
  // The run, course by course, for any fill
  // ---------------------------------------------------------------------

  lemma {:induction false} RunNames(su: Setup, n: nat)
    requires n <= |su.courses|
    requires Total(su.fill)
    ensures forall k :: 0 <= k < n ==>
      RunCourses(su, n).schedules[k].courseId == su.courses[k].id
      && RunCourses(su, n).schedules[k].courseName == su.nameOf(su.courses[k].id)
  {
    if n > 0 {
      RunNames(su, n - 1);
      var prev := RunCourses(su, n - 1);
      var run := RunCourses(su, n);
      assert run.schedules[..n - 1] == prev.schedules;
    }
  }

  /** Course `k`'s schedule and leftovers are fixed once it has been run. */
  lemma {:induction false} RunCoursesAt(su: Setup, n: nat, k: nat)
    requires k < n <= |su.courses|
    requires Total(su.fill)
    ensures var st := su.fill(RunCourses(su, k).teacherGrids, su.courses[k]);
      && RunCourses(su, n).schedules[k].schedule == st.grid
      && RunCourses(su, n).leftovers[k] == st.remaining
  {
    var prev := RunCourses(su, n - 1);
    var run := RunCourses(su, n);
    if k < n - 1 {
      RunCoursesAt(su, n - 1, k);
      assert run.schedules[..n - 1] == prev.schedules;
      assert run.leftovers[..n - 1] == prev.leftovers;
      assert run.schedules[k] == prev.schedules[k];
      assert run.leftovers[k] == prev.leftovers[k];
    }
  }

  /** Each fill keeps every teacher grid and entry it meets, and books teachers only where they were free. */
  ghost predicate Books(su: Setup)
    requires Total(su.fill)
  {
    forall tg, c :: Extends(su.fill(tg, c).teacherGrids, tg) && AllBooked(su.fill(tg, c), tg, c.id, su.nameOf(c.id))
  }

  /** Each entry a fill adds to a teacher grid comes from a lesson of that course. */
  ghost predicate Traces(su: Setup)
    requires Total(su.fill)
  {
    forall tg, c :: Traced(su.fill(tg, c), tg, c.id, su.nameOf(c.id))
  }

  /** A lesson of some course in the run is recorded, mirrored, in its teacher's grid. */
  predicate Recorded(ss: seq<CourseSchedule>, tg: TeacherGrids) {
    forall k, key :: 0 <= k < |ss| && key in ss[k].schedule && IsLesson(ss[k].schedule[key]) ==>
      && ss[k].schedule[key].teacherId in tg
      && key in tg[ss[k].schedule[key].teacherId]
      && tg[ss[k].schedule[key].teacherId][key] == Mirror(ss[k].schedule[key], ss[k].courseId, ss[k].courseName)
  }

  /** Course schedule `s` has no teacher at a cell where one of `ss` has the same teacher. */
  predicate ClashFree(ss: seq<CourseSchedule>, s: CourseSchedule) {
    forall k, key ::
      (0 <= k < |ss| && key in ss[k].schedule && key in s.schedule
       && IsLesson(ss[k].schedule[key]) && IsLesson(s.schedule[key])) ==>
      ss[k].schedule[key].teacherId != s.schedule[key].teacherId
  }

  /** No course meets a teacher at a cell already taken by an earlier course. */
  predicate NoClash(ss: seq<CourseSchedule>) {
    |ss| == 0 || (NoClash(ss[..|ss| - 1]) && ClashFree(ss[..|ss| - 1], ss[|ss| - 1]))
  }

  /** Pairwise: no two courses have the same teacher at the same cell. */
  lemma {:induction false} NoClashPairs(ss: seq<CourseSchedule>)
    requires NoClash(ss)
    ensures forall k1, k2, key ::
      (0 <= k1 < k2 < |ss| && key in ss[k1].schedule && key in ss[k2].schedule
       && IsLesson(ss[k1].schedule[key]) && IsLesson(ss[k2].schedule[key])) ==>
      ss[k1].schedule[key].teacherId != ss[k2].schedule[key].teacherId
  {
    if |ss| > 0 {
      var init := ss[..|ss| - 1];
      NoClashPairs(init);
      forall k1, k2, key |
          0 <= k1 < k2 < |ss| && key in ss[k1].schedule && key in ss[k2].schedule
          && IsLesson(ss[k1].schedule[key]) && IsLesson(ss[k2].schedule[key])
        ensures ss[k1].schedule[key].teacherId != ss[k2].schedule[key].teacherId
      {
        assert ss[k1] == init[k1];
        if k2 < |ss| - 1 {
          assert ss[k2] == init[k2];
        }
      }
    }
  }

  /** Every teacher entry comes from a lesson of some course with that teacher, and mirrors it. */
  predicate TracedAll(ss: seq<CourseSchedule>, tg: TeacherGrids) {
    forall x, key :: x in tg && key in tg[x] ==>
      exists k :: 0 <= k < |ss| && key in ss[k].schedule && IsLesson(ss[k].schedule[key])
        && ss[k].schedule[key].teacherId == x
        && tg[x][key] == Mirror(ss[k].schedule[key], ss[k].courseId, ss[k].courseName)
  }

  lemma {:induction false} RunExtends(su: Setup, n: nat)
    requires n <= |su.courses|
    requires Total(su.fill) && Books(su)
    ensures RunCourses(su, n).teacherGrids.Keys == TeacherIds(su.teachers)
  {
    if n > 0 {
      var prev := RunCourses(su, n - 1);
      RunExtends(su, n - 1);
      assert Extends(su.fill(prev.teacherGrids, su.courses[n - 1]).teacherGrids, prev.teacherGrids);
    }
  }

  /** Across the whole run every lesson is recorded, mirrored, in its teacher's grid, and no teacher is double-booked. */
  lemma {:induction false} RunRecorded(su: Setup, n: nat)
    requires n <= |su.courses|
    requires Total(su.fill) && Books(su)
    ensures Recorded(RunCourses(su, n).schedules, RunCourses(su, n).teacherGrids)
  {
    if n > 0 {
      var prev := RunCourses(su, n - 1);
      var c := su.courses[n - 1];
      var st := su.fill(prev.teacherGrids, c);
      var s := CourseSchedule(c.id, su.nameOf(c.id), st.grid);
      RunRecorded(su, n - 1);
      RecordedStep(prev.schedules, prev.teacherGrids, s, st);
    }
  }

  /** Across the whole run no teacher is double-booked. */
  lemma {:induction false} RunNoClash(su: Setup, n: nat)
    requires n <= |su.courses|
    requires Total(su.fill) && Books(su)
    ensures NoClash(RunCourses(su, n).schedules)
  {
    if n > 0 {
      var prev := RunCourses(su, n - 1);
      var c := su.courses[n - 1];
      var st := su.fill(prev.teacherGrids, c);
      var s := CourseSchedule(c.id, su.nameOf(c.id), st.grid);
      var run := RunCourses(su, n);
      RunNoClash(su, n - 1);
      RunRecorded(su, n - 1);
      ClashFreeStep(prev.schedules, prev.teacherGrids, s, st);
      assert run.schedules[..n - 1] == prev.schedules;
    }
  }

  lemma RecordedStep(ss: seq<CourseSchedule>, tg: TeacherGrids, s: CourseSchedule, st: FillState)
    requires Recorded(ss, tg)
    requires Extends(st.teacherGrids, tg)
    requires s.schedule == st.grid
    requires AllBooked(st, tg, s.courseId, s.courseName)
    ensures Recorded(ss + [s], st.teacherGrids)
  {
    var ss' := ss + [s];
    forall k, key | 0 <= k < |ss'| && key in ss'[k].schedule && IsLesson(ss'[k].schedule[key])
      ensures ss'[k].schedule[key].teacherId in st.teacherGrids
      ensures key in st.teacherGrids[ss'[k].schedule[key].teacherId]
      ensures st.teacherGrids[ss'[k].schedule[key].teacherId][key]
           == Mirror(ss'[k].schedule[key], ss'[k].courseId, ss'[k].courseName)
    {
      if k < |ss| {
        assert ss'[k] == ss[k];
      } else {
        assert Booked(st, tg, key, s.courseId, s.courseName);
      }
    }
  }

  /** A course booked only free teachers, against grids recording the earlier courses, clashes with none of them. */
  lemma ClashFreeStep(ss: seq<CourseSchedule>, tg: TeacherGrids, s: CourseSchedule, st: FillState)
    requires Recorded(ss, tg)
    requires s.schedule == st.grid
    requires AllBooked(st, tg, s.courseId, s.courseName)
    ensures ClashFree(ss, s)
  {
    forall k, key | 0 <= k < |ss| && key in ss[k].schedule && key in s.schedule
        && IsLesson(ss[k].schedule[key]) && IsLesson(s.schedule[key])
      ensures ss[k].schedule[key].teacherId != s.schedule[key].teacherId
    {
      assert Booked(st, tg, key, s.courseId, s.courseName);
    }
  }

  /** Every teacher entry of the run traces back to a course lesson. */
  lemma {:induction false} RunTraced(su: Setup, n: nat)
    requires n <= |su.courses|
    requires Total(su.fill) && Books(su) && Traces(su)
    ensures TracedAll(RunCourses(su, n).schedules, RunCourses(su, n).teacherGrids)
  {
    if n > 0 {
      var prev := RunCourses(su, n - 1);
      var c := su.courses[n - 1];
      var st := su.fill(prev.teacherGrids, c);
      var s := CourseSchedule(c.id, su.nameOf(c.id), st.grid);
      RunTraced(su, n - 1);
      TracedAllStep(prev.schedules, prev.teacherGrids, s, st);
    }
  }

  lemma TracedAllStep(ss: seq<CourseSchedule>, tg: TeacherGrids, s: CourseSchedule, st: FillState)
    requires TracedAll(ss, tg)
    requires Extends(st.teacherGrids, tg)
    requires s.schedule == st.grid
    requires Traced(st, tg, s.courseId, s.courseName)
    ensures TracedAll(ss + [s], st.teacherGrids)
  {
    var ss' := ss + [s];
    forall x, key | x in st.teacherGrids && key in st.teacherGrids[x]
      ensures
        exists k :: 0 <= k < |ss'| && key in ss'[k].schedule && IsLesson(ss'[k].schedule[key])
          && ss'[k].schedule[key].teacherId == x
          && st.teacherGrids[x][key] == Mirror(ss'[k].schedule[key], ss'[k].courseId, ss'[k].courseName)
    {
      if x in tg && key in tg[x] {
        var k :| 0 <= k < |ss| && key in ss[k].schedule && IsLesson(ss[k].schedule[key])
          && ss[k].schedule[key].teacherId == x
          && tg[x][key] == Mirror(ss[k].schedule[key], ss[k].courseId, ss[k].courseName);
        assert ss'[k] == ss[k];
      } else {
        assert ss'[|ss|] == s;
      }
    }
  }

  // ---------------------------------------------------------------------
  // The fill of the generator
  // ---------------------------------------------------------------------

  /** The generator's fill keeps, books and (with distinct slot ids) traces as the run needs. */
  lemma GeneratorFacts(courses: seq<Course>, teachers: seq<Teacher>, subjects: seq<Subject>, slots: seq<TimeSlot>)
    requires Runnable(courses, teachers, subjects)
    ensures Books(Generator(courses, teachers, subjects, slots))
    ensures DistinctIds(slots) ==> Traces(Generator(courses, teachers, subjects, slots))
  {
    var su := Generator(courses, teachers, subjects, slots);
    var ro := Roster(courses, teachers, subjects);
    var pool := Pool(courses, teachers);
    RunnablePool(courses, teachers, subjects);
    forall tg, c
      ensures Extends(su.fill(tg, c).teacherGrids, tg)
      ensures AllBooked(su.fill(tg, c), tg, c.id, su.nameOf(c.id))
    {
      assert su.fill(tg, c) == RunCourse(ro, slots, pool, tg, c);
      FillExtends(ro, c, CourseName(courses, c.id), CourseStart(pool, tg, c), Positions(slots));
      FillBooked(ro, c, CourseName(courses, c.id), CourseStart(pool, tg, c), Positions(slots));
    }
    if DistinctIds(slots) {
      PositionsDistinct(slots);
      forall tg, c ensures Traced(su.fill(tg, c), tg, c.id, su.nameOf(c.id)) {
        assert su.fill(tg, c) == RunCourse(ro, slots, pool, tg, c);
        FillTraced(ro, c, CourseName(courses, c.id), CourseStart(pool, tg, c), Positions(slots));
      }
    }
  }

  // ---------------------------------------------------------------------
  // The promises of `generateSchedules`
  // ---------------------------------------------------------------------

  /** Course `k`'s schedule and leftovers are those of its fill against the grids the earlier courses left. */
  lemma ScheduleAt(courses: seq<Course>, teachers: seq<Teacher>, subjects: seq<Subject>, slots: seq<TimeSlot>, k: nat)
    requires Runnable(courses, teachers, subjects)
    requires k < |courses|
    ensures PoolReady(Pool(courses, teachers), subjects)
    ensures var tg := RunCourses(Generator(courses, teachers, subjects, slots), k).teacherGrids;
      var st := RunCourse(Roster(courses, teachers, subjects), slots, Pool(courses, teachers), tg, courses[k]);
      && GenerateSchedules(courses, teachers, subjects, slots).courseSchedules[k].schedule == st.grid
      && Leftover(courses, teachers, subjects, slots, k) == st.remaining
  {
    var su := Generator(courses, teachers, subjects, slots);
    var tg := RunCourses(su, k).teacherGrids;
    RunnablePool(courses, teachers, subjects);
    RunCoursesAt(su, |courses|, k);
    assert su.fill(tg, courses[k]) == RunCourse(Roster(courses, teachers, subjects), slots, Pool(courses, teachers), tg, courses[k]);
  }

  /**
   * Every course has a cell for every day and slot and no other cell; each
   * cell is a one-hour lesson or the "libre" marker with an empty teacher id.
   */
  lemma SchedulesComplete(courses: seq<Course>, teachers: seq<Teacher>, subjects: seq<Subject>, slots: seq<TimeSlot>)
    requires Runnable(courses, teachers, subjects)
    ensures var r := GenerateSchedules(courses, teachers, subjects, slots);
      forall k, d: Day, i :: 0 <= k < |courses| && 0 <= i < |slots| ==>
        Cell(d, slots[i].id) in r.courseSchedules[k].schedule
    ensures var r := GenerateSchedules(courses, teachers, subjects, slots);
      forall k, key :: 0 <= k < |courses| && key in r.courseSchedules[k].schedule ==>
        (exists i :: 0 <= i < |slots| && key.slotId == slots[i].id)
        && (r.courseSchedules[k].schedule[key] == Libre
            || (r.courseSchedules[k].schedule[key].teacherId != "" && r.courseSchedules[k].schedule[key].hours == 1))
  {
    var r := GenerateSchedules(courses, teachers, subjects, slots);
    var ro := Roster(courses, teachers, subjects);
    var pool := Pool(courses, teachers);
    var su := Generator(courses, teachers, subjects, slots);
    RunnablePool(courses, teachers, subjects);
    PositionsCover(slots);
    forall k | 0 <= k < |courses|
      ensures forall d: Day, i :: 0 <= i < |slots| ==> Cell(d, slots[i].id) in r.courseSchedules[k].schedule
      ensures forall key :: key in r.courseSchedules[k].schedule ==>
        (exists i :: 0 <= i < |slots| && key.slotId == slots[i].id) && WellFormed(r.courseSchedules[k].schedule[key])
    {
      var tg := RunCourses(su, k).teacherGrids;
      ScheduleAt(courses, teachers, subjects, slots, k);
      FillGrid(ro, courses[k], CourseName(courses, courses[k].id), CourseStart(pool, tg, courses[k]), Positions(slots));
      forall d: Day, i | 0 <= i < |slots| ensures Cell(d, slots[i].id) in r.courseSchedules[k].schedule {
        assert KeyOf(Position(d, slots[i])) in KeySet(Positions(slots));
      }
      forall key | key in r.courseSchedules[k].schedule ensures exists i :: 0 <= i < |slots| && key.slotId == slots[i].id {
        var p :| p in Positions(slots) && KeyOf(p) == key;
        var i :| 0 <= i < |slots| && slots[i] == p.slot;
      }
    }
  }

  /** No teacher is placed in two courses at the same day and slot. */
  lemma NoDoubleBooking(courses: seq<Course>, teachers: seq<Teacher>, subjects: seq<Subject>, slots: seq<TimeSlot>)
    requires Runnable(courses, teachers, subjects)
    ensures var r := GenerateSchedules(courses, teachers, subjects, slots);
      forall k1, k2, key ::
        (0 <= k1 < |courses| && 0 <= k2 < |courses| && k1 != k2
         && key in r.courseSchedules[k1].schedule && key in r.courseSchedules[k2].schedule
         && IsLesson(r.courseSchedules[k1].schedule[key]) && IsLesson(r.courseSchedules[k2].schedule[key])) ==>
        r.courseSchedules[k1].schedule[key].teacherId != r.courseSchedules[k2].schedule[key].teacherId
  {
    RunnablePool(courses, teachers, subjects);
    GeneratorFacts(courses, teachers, subjects, slots);
    var su := Generator(courses, teachers, subjects, slots);
    RunNoClash(su, |courses|);
    NoClashPairs(RunCourses(su, |courses|).schedules);
  }

  /** Every lesson of grid `g` has a known teacher whose restrictions leave its day and slot free. */
  predicate Permitted(teachers: seq<Teacher>, g: CourseGrid, slots: seq<TimeSlot>) {
    forall d: Day, i :: 0 <= i < |slots| && Cell(d, slots[i].id) in g && IsLesson(g[Cell(d, slots[i].id)]) ==>
      && FindTeacher(teachers, g[Cell(d, slots[i].id)].teacherId).Some?
      && CheckTeacherRestrictions(FindTeacher(teachers, g[Cell(d, slots[i].id)].teacherId).value, d, slots[i])
  }

  /** A fill over all the slot positions that kept the restrictions gives a permitted grid. */
  lemma KeptIsPermitted(ro: Roster, st: FillState, slots: seq<TimeSlot>)
    requires RestrictionsKept(ro, st, Positions(slots))
    ensures Permitted(ro.teachers, st.grid, slots)
  {
    var ps := Positions(slots);
    var g := st.grid;
    PositionsCover(slots);
    forall d: Day, i | 0 <= i < |slots| && Cell(d, slots[i].id) in g && IsLesson(g[Cell(d, slots[i].id)])
      ensures FindTeacher(ro.teachers, g[Cell(d, slots[i].id)].teacherId).Some?
      ensures CheckTeacherRestrictions(FindTeacher(ro.teachers, g[Cell(d, slots[i].id)].teacherId).value, d, slots[i])
    {
      var j :| 0 <= j < |ps| && ps[j] == Position(d, slots[i]);
      assert KeyOf(ps[j]) == Cell(d, slots[i].id);
    }
  }

  lemma CourseRestrictions(courses: seq<Course>, teachers: seq<Teacher>, subjects: seq<Subject>, slots: seq<TimeSlot>, k: nat)
    requires Runnable(courses, teachers, subjects)
    requires DistinctIds(slots)
    requires k < |courses|
    ensures Permitted(teachers, GenerateSchedules(courses, teachers, subjects, slots).courseSchedules[k].schedule, slots)
  {
    var ro := Roster(courses, teachers, subjects);
    var pool := Pool(courses, teachers);
    var tg := RunCourses(Generator(courses, teachers, subjects, slots), k).teacherGrids;
    var ps := Positions(slots);
    ScheduleAt(courses, teachers, subjects, slots, k);
    PositionsDistinct(slots);
    var st := RunCourse(ro, slots, pool, tg, courses[k]);
    FillRestrictions(ro, courses[k], CourseName(courses, courses[k].id), CourseStart(pool, tg, courses[k]), ps);
    KeptIsPermitted(ro, st, slots);
  }

  /** A lesson sits only where its teacher's restrictions allow that day and slot. */
  lemma RestrictionsRespected(courses: seq<Course>, teachers: seq<Teacher>, subjects: seq<Subject>, slots: seq<TimeSlot>)
    requires Runnable(courses, teachers, subjects)
    requires DistinctIds(slots)
    ensures var r := GenerateSchedules(courses, teachers, subjects, slots);
      forall k, d: Day, i ::
        (0 <= k < |courses| && 0 <= i < |slots|
         && Cell(d, slots[i].id) in r.courseSchedules[k].schedule
         && IsLesson(r.courseSchedules[k].schedule[Cell(d, slots[i].id)])) ==>
        && FindTeacher(teachers, r.courseSchedules[k].schedule[Cell(d, slots[i].id)].teacherId).Some?
        && CheckTeacherRestrictions(FindTeacher(teachers, r.courseSchedules[k].schedule[Cell(d, slots[i].id)].teacherId).value, d, slots[i])
  {
    var r := GenerateSchedules(courses, teachers, subjects, slots);
    forall k | 0 <= k < |courses| ensures Permitted(teachers, r.courseSchedules[k].schedule, slots) {
      CourseRestrictions(courses, teachers, subjects, slots, k);
    }
  }

  /** The teacher schedule list reaches, for each id in use, the grid kept under that id. */
  lemma TeacherSchedulesReach(teachers: seq<Teacher>, tg: TeacherGrids, x: string)
    requires x in TeacherIds(teachers)
    ensures
      exists j :: 0 <= j < |teachers| && TeacherSchedules(teachers, tg)[j].teacherId == x
        && (x in tg ==> TeacherSchedules(teachers, tg)[j].schedule == tg[x])
  {
    match Seqs.FindIndex(teachers, TeacherIdIs(x))
    case None =>
    case Some(j) =>
      assert teachers[j].id == x;
      forall i | 0 <= i < j ensures teachers[i].id != teachers[j].id {
        assert !TeacherIdIs(x)(teachers[i]);
      }
      assert FirstWithId(teachers, j);
      assert TeacherSchedules(teachers, tg)[j].teacherId == x;
  }

  /**
   * The course view and the teacher view agree: each lesson appears, mirrored,
   * in its teacher's schedule, and each teacher entry comes from such a lesson.
   */
  lemma ViewsAgree(courses: seq<Course>, teachers: seq<Teacher>, subjects: seq<Subject>, slots: seq<TimeSlot>)
    requires Runnable(courses, teachers, subjects)
    requires DistinctIds(slots)
    ensures var r := GenerateSchedules(courses, teachers, subjects, slots);
      forall k, key :: 0 <= k < |courses| && key in r.courseSchedules[k].schedule && IsLesson(r.courseSchedules[k].schedule[key]) ==>
        exists j :: 0 <= j < |teachers|
          && r.teacherSchedules[j].teacherId == r.courseSchedules[k].schedule[key].teacherId
          && key in r.teacherSchedules[j].schedule
          && r.teacherSchedules[j].schedule[key]
             == Mirror(r.courseSchedules[k].schedule[key], courses[k].id, CourseName(courses, courses[k].id))
    ensures var r := GenerateSchedules(courses, teachers, subjects, slots);
      forall j, key :: 0 <= j < |teachers| && key in r.teacherSchedules[j].schedule ==>
        exists k :: 0 <= k < |courses| && key in r.courseSchedules[k].schedule
          && IsLesson(r.courseSchedules[k].schedule[key])
          && r.courseSchedules[k].schedule[key].teacherId == r.teacherSchedules[j].teacherId
          && r.teacherSchedules[j].schedule[key]
             == Mirror(r.courseSchedules[k].schedule[key], courses[k].id, CourseName(courses, courses[k].id))
  {
    var r := GenerateSchedules(courses, teachers, subjects, slots);
    var su := Generator(courses, teachers, subjects, slots);
    RunnablePool(courses, teachers, subjects);
    GeneratorFacts(courses, teachers, subjects, slots);
    var run := RunCourses(su, |courses|);
    RunRecorded(su, |courses|);
    RunTraced(su, |courses|);
    RunExtends(su, |courses|);
    RunNames(su, |courses|);
    assert r.courseSchedules == run.schedules;
    assert r.teacherSchedules == TeacherSchedules(teachers, run.teacherGrids);
    forall k, key | 0 <= k < |courses| && key in r.courseSchedules[k].schedule && IsLesson(r.courseSchedules[k].schedule[key])
      ensures
        exists j :: 0 <= j < |teachers|
          && r.teacherSchedules[j].teacherId == r.courseSchedules[k].schedule[key].teacherId
          && key in r.teacherSchedules[j].schedule
          && r.teacherSchedules[j].schedule[key]
             == Mirror(r.courseSchedules[k].schedule[key], courses[k].id, CourseName(courses, courses[k].id))
    {
      var x := r.courseSchedules[k].schedule[key].teacherId;
      TeacherSchedulesReach(teachers, run.teacherGrids, x);
    }
    forall j, key | 0 <= j < |teachers| && key in r.teacherSchedules[j].schedule
      ensures
        exists k :: 0 <= k < |courses| && key in r.courseSchedules[k].schedule
          && IsLesson(r.courseSchedules[k].schedule[key])
          && r.courseSchedules[k].schedule[key].teacherId == r.teacherSchedules[j].teacherId
          && r.teacherSchedules[j].schedule[key]
             == Mirror(r.courseSchedules[k].schedule[key], courses[k].id, CourseName(courses, courses[k].id))
    {
      var x := teachers[j].id;
      assert x in run.teacherGrids && r.teacherSchedules[j].schedule == run.teacherGrids[x];
    }
  }

  /**
   * Conservation: the routed units of a course are, as a multiset, exactly
   * those its lesson cells consumed plus those left over (and discarded).
   */
  lemma UnitsConserved(courses: seq<Course>, teachers: seq<Teacher>, subjects: seq<Subject>, slots: seq<TimeSlot>, k: nat)
    requires Runnable(courses, teachers, subjects)
    requires DistinctIds(slots)
    requires k < |courses|
    ensures var r := GenerateSchedules(courses, teachers, subjects, slots);
      multiset(CourseAssignments(Pool(courses, teachers), courses[k].id))
        == PlacedUnits(courses[k].id, r.courseSchedules[k].schedule, Positions(slots))
           + multiset(Leftover(courses, teachers, subjects, slots, k))
  {
    var ro := Roster(courses, teachers, subjects);
    var pool := Pool(courses, teachers);
    var su := Generator(courses, teachers, subjects, slots);
    RunnablePool(courses, teachers, subjects);
    var tg := RunCourses(su, k).teacherGrids;
    ScheduleAt(courses, teachers, subjects, slots, k);
    PositionsDistinct(slots);
    FillConservation(ro, courses[k], CourseName(courses, courses[k].id), CourseStart(pool, tg, courses[k]), Positions(slots));
  }
}
