/**
 * The greedy fill of one course's grid in `generateSchedules`: the cells are
 * visited day by day, slot by slot; at each cell the first remaining unit
 * whose teacher is free there and not restricted is placed, mirrored into
 * that teacher's grid and spliced out; a cell that gets nothing is "libre".
 */
module Placement {
  import opened School
  import Seqs
  import opened HourPool
  import opened Restrictions

  /** `schedule[day][slot.id]`, flattened to one key. */
  datatype Cell = Cell(day: Day, slotId: string)

  /** A cell of a course's schedule. */
  datatype CourseEntry = CourseEntry(subjectId: string, subjectName: string, teacherId: string, teacherName: string, hours: int)

  /** A cell of a teacher's schedule. */
  datatype TeacherEntry = TeacherEntry(subjectId: string, subjectName: string, courseId: string, courseName: string)

  type CourseGrid = map<Cell, CourseEntry>
  type TeacherGrid = map<Cell, TeacherEntry>
  /** The teacher schedules, reached by teacher id (`newTeacherSchedules.find`). */
  type TeacherGrids = map<string, TeacherGrid>

  /** The marker of a cell that received no lesson. */
  const Libre: CourseEntry := CourseEntry("libre", "Hora Libre", "", "", 1)

  predicate IsLesson(e: CourseEntry) {
    e.teacherId != ""
  }

  /** What a course cell may hold: the marker, or a one-hour lesson. */
  predicate WellFormed(e: CourseEntry) {
    e == Libre || (IsLesson(e) && e.hours == 1)
  }

  /** The teacher-side record of a lesson placed in a course. */
  function Mirror(e: CourseEntry, courseId: string, courseName: string): TeacherEntry {
    TeacherEntry(e.subjectId, e.subjectName, courseId, courseName)
  }

  /** The unit a lesson cell of a course consumed. */
  function UnitOf(e: CourseEntry, courseId: string): Unit {
    Unit(courseId, e.subjectId, e.teacherId)
  }

  /** `getCourseName`: "<level> <grade>º <section>" of the first course with the id. */
  function CourseName(courses: seq<Course>, id: string): string {
    match FindCourse(courses, id)
    case None => "Desconocido"
    case Some(c) => LevelName(c.level) + " " + GradeName(c.grade) + "\U{BA} " + SectionName(c.section)
  }

  // ---------------------------------------------------------------------
  // The cells, in visiting order
  // ---------------------------------------------------------------------

  datatype Position = Position(day: Day, slot: TimeSlot)

  function KeyOf(p: Position): Cell {
    Cell(p.day, p.slot.id)
  }

  function Row(day: Day, slots: seq<TimeSlot>): seq<Position> {
    seq(|slots|, i requires 0 <= i < |slots| => Position(day, slots[i]))
  }

  function RowsFor(days: seq<Day>, slots: seq<TimeSlot>): seq<Position> {
    if |days| == 0 then [] else Row(days[0], slots) + RowsFor(days[1..], slots)
  }

  /** `for (const day of DAYS) for (const slot of timeSlots)`. */
  function Positions(slots: seq<TimeSlot>): seq<Position> {
    RowsFor(Days, slots)
  }

  function KeySet(ps: seq<Position>): set<Cell> {
    set p | p in ps :: KeyOf(p)
  }

  predicate DistinctIds(slots: seq<TimeSlot>) {
    forall i, j :: 0 <= i < j < |slots| ==> slots[i].id != slots[j].id
  }

  predicate DistinctKeys(ps: seq<Position>) {
    forall i, j :: 0 <= i < j < |ps| ==> KeyOf(ps[i]) != KeyOf(ps[j])
  }

  /** The visiting order is day-major: all of Monday's slots in order, then Tuesday's, and so on. */
  lemma PositionsOrder(slots: seq<TimeSlot>)
    ensures Positions(slots) == Row(Lunes, slots) + Row(Martes, slots) + Row(Miercoles, slots)
                                + Row(Jueves, slots) + Row(Viernes, slots)
    ensures |Positions(slots)| == 5 * |slots|
    ensures forall i :: 0 <= i < |slots| ==> Row(Lunes, slots)[i] == Position(Lunes, slots[i])
  {
    var d1 := Days[1..];
    var d2 := d1[1..];
    var d3 := d2[1..];
    var d4 := d3[1..];
    assert d4[1..] == [];
    assert RowsFor(d4, slots) == Row(Viernes, slots) + RowsFor(d4[1..], slots);
    assert RowsFor(d3, slots) == Row(Jueves, slots) + RowsFor(d4, slots);
    assert RowsFor(d2, slots) == Row(Miercoles, slots) + RowsFor(d3, slots);
    assert RowsFor(d1, slots) == Row(Martes, slots) + RowsFor(d2, slots);
    assert RowsFor(Days, slots) == Row(Lunes, slots) + RowsFor(d1, slots);
  }

  lemma {:induction false} RowsForCover(days: seq<Day>, slots: seq<TimeSlot>)
    ensures forall d, i :: d in days && 0 <= i < |slots| ==> Position(d, slots[i]) in RowsFor(days, slots)
    ensures forall p :: p in RowsFor(days, slots) ==> p.day in days && p.slot in slots
  {
    if |days| > 0 {
      RowsForCover(days[1..], slots);
      var row := Row(days[0], slots);
      forall d, i | d in days && 0 <= i < |slots| ensures Position(d, slots[i]) in RowsFor(days, slots) {
        if d == days[0] {
          assert row[i] == Position(d, slots[i]);
        } else {
          assert d in days[1..];
        }
      }
    }
  }

  /** Every day × slot cell is visited, and only those. */
  lemma PositionsCover(slots: seq<TimeSlot>)
    ensures forall d: Day, i :: 0 <= i < |slots| ==> Position(d, slots[i]) in Positions(slots)
    ensures forall p :: p in Positions(slots) ==> p.slot in slots
  {
    RowsForCover(Days, slots);
    forall d: Day, i | 0 <= i < |slots| ensures Position(d, slots[i]) in Positions(slots) {
      assert d in Days by {
        match d
        case Lunes => assert Days[0] == d;
        case Martes => assert Days[1] == d;
        case Miercoles => assert Days[2] == d;
        case Jueves => assert Days[3] == d;
        case Viernes => assert Days[4] == d;
      }
    }
  }

  lemma {:induction false} RowsForDistinct(days: seq<Day>, slots: seq<TimeSlot>)
    requires forall i, j :: 0 <= i < j < |days| ==> days[i] != days[j]
    requires DistinctIds(slots)
    ensures DistinctKeys(RowsFor(days, slots))
    ensures forall p :: p in RowsFor(days, slots) ==> p.day in days
  {
    if |days| > 0 {
      var a := Row(days[0], slots);
      var b := RowsFor(days[1..], slots);
      RowsForDistinct(days[1..], slots);
      var ps := a + b;
      forall i, j | 0 <= i < j < |ps| ensures KeyOf(ps[i]) != KeyOf(ps[j]) {
        if j < |a| {
          assert ps[i] == a[i] && ps[j] == a[j];
        } else if i >= |a| {
          assert ps[i] == b[i - |a|] && ps[j] == b[j - |a|];
        } else {
          assert ps[j] == b[j - |a|];
          assert ps[j] in b;
          assert ps[j].day in days[1..];
          assert ps[i].day == days[0];
        }
      }
    }
  }

  /** With distinct slot ids, no cell is visited twice. */
  lemma PositionsDistinct(slots: seq<TimeSlot>)
    requires DistinctIds(slots)
    ensures DistinctKeys(Positions(slots))
  {
    RowsForDistinct(Days, slots);
  }

  // ---------------------------------------------------------------------
  // One cell
  // ---------------------------------------------------------------------

  /** The lists the loop reads but never changes. */
  datatype Roster = Roster(courses: seq<Course>, teachers: seq<Teacher>, subjects: seq<Subject>)

  /** What the fill of one course threads from cell to cell. */
  datatype FillState = FillState(grid: CourseGrid, teacherGrids: TeacherGrids, remaining: seq<Unit>)

  /**
   * The units can be placed without crashing: their subjects exist
   * (`subject!`), and they are routed units of course `courseId`.
   */
  predicate UnitsReady(units: seq<Unit>, subjects: seq<Subject>, courseId: string) {
    forall u :: u in units ==>
      FindSubject(subjects, u.subjectId).Some? && u.teacherId != "" && u.courseId == courseId
  }

  /**
   * The test of the inner loop: the teacher and their schedule exist, the
   * teacher's cell is empty, and no restriction of theirs blocks the slot.
   */
  predicate Placeable(ro: Roster, tg: TeacherGrids, u: Unit, pos: Position) {
    && FindTeacher(ro.teachers, u.teacherId).Some?
    && u.teacherId in tg
    && KeyOf(pos) !in tg[u.teacherId]
    && CheckTeacherRestrictions(FindTeacher(ro.teachers, u.teacherId).value, pos.day, pos.slot)
  }

  function PlaceableAt(ro: Roster, tg: TeacherGrids, pos: Position): Unit -> bool {
    (u: Unit) => Placeable(ro, tg, u, pos)
  }

  /**
   * One cell of the fill. Only that cell changes. It becomes "libre", leaving
   * the teacher grids and the remaining units alone, or a one-hour lesson whose
   * teacher was free and unrestricted there; the teacher's grid then gains the
   * mirrored entry and exactly the placed unit leaves the remaining list.
   */
  function PlaceCell(ro: Roster, c: Course, name: string, st: FillState, pos: Position): (r: FillState)
    requires UnitsReady(st.remaining, ro.subjects, c.id)
    ensures KeyOf(pos) in r.grid
    ensures r.grid == st.grid[KeyOf(pos) := r.grid[KeyOf(pos)]]
    ensures WellFormed(r.grid[KeyOf(pos)])
    ensures r.grid[KeyOf(pos)] == Libre ==> r.teacherGrids == st.teacherGrids && r.remaining == st.remaining
    ensures IsLesson(r.grid[KeyOf(pos)]) ==>
      var e := r.grid[KeyOf(pos)];
      && e.teacherId in st.teacherGrids
      && KeyOf(pos) !in st.teacherGrids[e.teacherId]
      && r.teacherGrids == st.teacherGrids[e.teacherId :=
           st.teacherGrids[e.teacherId][KeyOf(pos) := Mirror(e, c.id, name)]]
      && FindTeacher(ro.teachers, e.teacherId).Some?
      && CheckTeacherRestrictions(FindTeacher(ro.teachers, e.teacherId).value, pos.day, pos.slot)
      && multiset(st.remaining) == multiset(r.remaining) + multiset{UnitOf(e, c.id)}
    ensures forall u :: u in r.remaining ==> u in st.remaining
  {
    var key := KeyOf(pos);
    match Seqs.FindIndex(st.remaining, PlaceableAt(ro, st.teacherGrids, pos))
    case None => FillState(st.grid[key := Libre], st.teacherGrids, st.remaining)
    case Some(i) =>
      var u := st.remaining[i];
      assert u in st.remaining;
      var t := FindTeacher(ro.teachers, u.teacherId).value;
      var s := FindSubject(ro.subjects, u.subjectId).value;
      var e := CourseEntry(s.id, s.name, t.id, t.fullName, 1);
      Seqs.RemoveIndexMultiset(st.remaining, i);
      assert UnitOf(e, c.id) == u;
      FillState(
        st.grid[key := e],
        st.teacherGrids[u.teacherId := st.teacherGrids[u.teacherId][key := Mirror(e, c.id, name)]],
        Seqs.RemoveIndex(st.remaining, i))
  }

  /**
   * The greedy choice: a lesson is placed iff some remaining unit is placeable,
   * and then it is the first such unit in list order, spliced out at its index.
   */
  lemma PlaceCellGreedy(ro: Roster, c: Course, name: string, st: FillState, pos: Position)
    requires UnitsReady(st.remaining, ro.subjects, c.id)
    ensures var r := PlaceCell(ro, c, name, st, pos);
      r.grid[KeyOf(pos)] == Libre <==>
        forall j :: 0 <= j < |st.remaining| ==> !Placeable(ro, st.teacherGrids, st.remaining[j], pos)
    ensures var r := PlaceCell(ro, c, name, st, pos);
      IsLesson(r.grid[KeyOf(pos)]) ==>
        exists i :: 0 <= i < |st.remaining|
          && Placeable(ro, st.teacherGrids, st.remaining[i], pos)
          && (forall j :: 0 <= j < i ==> !Placeable(ro, st.teacherGrids, st.remaining[j], pos))
          && UnitOf(r.grid[KeyOf(pos)], c.id) == st.remaining[i]
          && r.remaining == Seqs.RemoveIndex(st.remaining, i)
  {
    var p := PlaceableAt(ro, st.teacherGrids, pos);
    match Seqs.FindIndex(st.remaining, p)
    case None =>
    case Some(i) =>
      assert st.remaining[i] in st.remaining;
      assert p(st.remaining[i]);
  }

  // ---------------------------------------------------------------------
  // One course
  // ---------------------------------------------------------------------

  /** The fill loop over the visited cells `ps`, from state `st0`. */
  function Fill(ro: Roster, c: Course, name: string, st0: FillState, ps: seq<Position>): (r: FillState)
    requires UnitsReady(st0.remaining, ro.subjects, c.id)
    ensures forall u :: u in r.remaining ==> u in st0.remaining
  {
    if |ps| == 0 then st0
    else PlaceCell(ro, c, name, Fill(ro, c, name, st0, ps[..|ps| - 1]), ps[|ps| - 1])
  }

  /** The units consumed by the lesson cells among `ps`, one per visited cell. */
  function PlacedUnits(courseId: string, grid: CourseGrid, ps: seq<Position>): multiset<Unit> {
    if |ps| == 0 then multiset{}
    else
      var key := KeyOf(ps[|ps| - 1]);
      PlacedUnits(courseId, grid, ps[..|ps| - 1])
        + (if key in grid && IsLesson(grid[key]) then multiset{UnitOf(grid[key], courseId)} else multiset{})
  }

  /** `tg` keeps every teacher and every entry of `old0`, possibly adding entries. */
  predicate Extends(tg: TeacherGrids, old0: TeacherGrids) {
    && tg.Keys == old0.Keys
    && forall x :: x in old0 ==> forall key :: key in old0[x] ==> key in tg[x] && tg[x][key] == old0[x][key]
  }

  lemma ExtendsTrans(a: TeacherGrids, b: TeacherGrids, c: TeacherGrids)
    requires Extends(a, b) && Extends(b, c)
    ensures Extends(a, c)
  {
  }

  lemma PlaceCellExtends(ro: Roster, c: Course, name: string, st: FillState, pos: Position)
    requires UnitsReady(st.remaining, ro.subjects, c.id)
    ensures Extends(PlaceCell(ro, c, name, st, pos).teacherGrids, st.teacherGrids)
  {
    var r := PlaceCell(ro, c, name, st, pos);
    var e := r.grid[KeyOf(pos)];
    if IsLesson(e) {
      ExtendsByFreshEntry(st.teacherGrids, e.teacherId, KeyOf(pos), Mirror(e, c.id, name));
    }
  }

  /** Writing a teacher's free cell keeps every teacher and every earlier entry. */
  lemma ExtendsByFreshEntry(tg: TeacherGrids, x: string, key: Cell, v: TeacherEntry)
    requires x in tg && key !in tg[x]
    ensures Extends(tg[x := tg[x][key := v]], tg)
  {
  }

  /** The fill only ever adds teacher entries. */
  lemma {:induction false} FillExtends(ro: Roster, c: Course, name: string, st0: FillState, ps: seq<Position>)
    requires UnitsReady(st0.remaining, ro.subjects, c.id)
    ensures Extends(Fill(ro, c, name, st0, ps).teacherGrids, st0.teacherGrids)
  {
    if |ps| > 0 {
      var mid := Fill(ro, c, name, st0, ps[..|ps| - 1]);
      FillExtends(ro, c, name, st0, ps[..|ps| - 1]);
      PlaceCellExtends(ro, c, name, mid, ps[|ps| - 1]);
      ExtendsTrans(Fill(ro, c, name, st0, ps).teacherGrids, mid.teacherGrids, st0.teacherGrids);
    }
  }

  lemma KeySetSnoc(ps: seq<Position>)
    requires |ps| > 0
    ensures KeySet(ps) == KeySet(ps[..|ps| - 1]) + {KeyOf(ps[|ps| - 1])}
  {
    assert ps == ps[..|ps| - 1] + [ps[|ps| - 1]];
  }

  /** Starting from an empty grid, the fill writes exactly the visited cells, each well formed. */
  lemma {:induction false} FillGrid(ro: Roster, c: Course, name: string, st0: FillState, ps: seq<Position>)
    requires UnitsReady(st0.remaining, ro.subjects, c.id)
    requires st0.grid == map[]
    ensures Fill(ro, c, name, st0, ps).grid.Keys == KeySet(ps)
    ensures forall key :: key in Fill(ro, c, name, st0, ps).grid ==> WellFormed(Fill(ro, c, name, st0, ps).grid[key])
  {
    if |ps| > 0 {
      var init := ps[..|ps| - 1];
      var pos := ps[|ps| - 1];
      var mid := Fill(ro, c, name, st0, init);
      var r := Fill(ro, c, name, st0, ps);
      assert r == PlaceCell(ro, c, name, mid, pos);
      FillGrid(ro, c, name, st0, init);
      KeySetSnoc(ps);
      forall key | key in r.grid ensures WellFormed(r.grid[key]) {
        if key != KeyOf(pos) {
          assert r.grid[key] == mid.grid[key];
        }
      }
    }
  }

  /**
   * A teacher is booked at a cell of this course only where they were free
   * before the course, and their grid then names this course and subject there.
   */
  predicate AllBooked(r: FillState, tg0: TeacherGrids, courseId: string, courseName: string) {
    forall key :: key in r.grid && IsLesson(r.grid[key]) ==> Booked(r, tg0, key, courseId, courseName)
  }

  predicate Booked(r: FillState, tg0: TeacherGrids, key: Cell, courseId: string, courseName: string)
    requires key in r.grid
  {
    var x := r.grid[key].teacherId;
    && x in tg0
    && key !in tg0[x]
    && x in r.teacherGrids
    && key in r.teacherGrids[x]
    && r.teacherGrids[x][key] == Mirror(r.grid[key], courseId, courseName)
  }

  lemma {:induction false} FillBooked(ro: Roster, c: Course, name: string, st0: FillState, ps: seq<Position>)
    requires UnitsReady(st0.remaining, ro.subjects, c.id)
    requires st0.grid == map[]
    ensures AllBooked(Fill(ro, c, name, st0, ps), st0.teacherGrids, c.id, name)
  {
    if |ps| > 0 {
      var init := ps[..|ps| - 1];
      var pos := ps[|ps| - 1];
      var mid := Fill(ro, c, name, st0, init);
      var r := Fill(ro, c, name, st0, ps);
      FillBooked(ro, c, name, st0, init);
      FillExtends(ro, c, name, st0, init);
      PlaceCellExtends(ro, c, name, mid, pos);
      assert r == PlaceCell(ro, c, name, mid, pos);
      forall key | key in r.grid && IsLesson(r.grid[key]) ensures Booked(r, st0.teacherGrids, key, c.id, name) {
        var x := r.grid[key].teacherId;
        if key != KeyOf(pos) {
          assert key in mid.grid && r.grid[key] == mid.grid[key];
          assert IsLesson(mid.grid[key]);
          assert Booked(mid, st0.teacherGrids, key, c.id, name);
        } else {
          assert x in mid.teacherGrids && key !in mid.teacherGrids[x];
          assert x in st0.teacherGrids;
        }
      }
    }
  }

  /**
   * Every entry the fill added to a teacher grid comes from a lesson cell of
   * this course with that teacher, and mirrors it.
   */
  predicate Traced(r: FillState, tg0: TeacherGrids, courseId: string, courseName: string) {
    forall x, key :: x in r.teacherGrids && key in r.teacherGrids[x] && (x !in tg0 || key !in tg0[x]) ==>
      && key in r.grid
      && IsLesson(r.grid[key])
      && r.grid[key].teacherId == x
      && r.teacherGrids[x][key] == Mirror(r.grid[key], courseId, courseName)
  }

  lemma {:induction false} FillTraced(ro: Roster, c: Course, name: string, st0: FillState, ps: seq<Position>)
    requires UnitsReady(st0.remaining, ro.subjects, c.id)
    requires st0.grid == map[]
    requires DistinctKeys(ps)
    ensures Traced(Fill(ro, c, name, st0, ps), st0.teacherGrids, c.id, name)
  {
    if |ps| > 0 {
      var init := ps[..|ps| - 1];
      var pos := ps[|ps| - 1];
      var mid := Fill(ro, c, name, st0, init);
      var r := Fill(ro, c, name, st0, ps);
      assert r == PlaceCell(ro, c, name, mid, pos);
      assert DistinctKeys(init) by {
        forall i, j | 0 <= i < j < |init| ensures KeyOf(init[i]) != KeyOf(init[j]) {
          assert init[i] == ps[i] && init[j] == ps[j];
        }
      }
      FillTraced(ro, c, name, st0, init);
      FillGrid(ro, c, name, st0, init);
      LastKeyFresh(ps);
      TracedStep(ro, c, name, mid, pos, st0.teacherGrids);
    }
  }

  lemma TracedStep(ro: Roster, c: Course, name: string, mid: FillState, pos: Position, tg0: TeacherGrids)
    requires UnitsReady(mid.remaining, ro.subjects, c.id)
    requires Traced(mid, tg0, c.id, name)
    requires KeyOf(pos) !in mid.grid
    ensures Traced(PlaceCell(ro, c, name, mid, pos), tg0, c.id, name)
  {
    var r := PlaceCell(ro, c, name, mid, pos);
    var key0 := KeyOf(pos);
    TracedWrite(mid, tg0, c.id, name, key0, r.grid[key0], r.teacherGrids, r.remaining);
    assert r == FillState(mid.grid[key0 := r.grid[key0]], r.teacherGrids, r.remaining);
  }

  /**
   * Writing a fresh cell keeps the trace: either the teacher grids stay as
   * they were, or the one new teacher entry mirrors the new lesson cell.
   */
  lemma TracedWrite(mid: FillState, tg0: TeacherGrids, courseId: string, name: string,
                    key0: Cell, e: CourseEntry, tg: TeacherGrids, remaining: seq<Unit>)
    requires Traced(mid, tg0, courseId, name)
    requires key0 !in mid.grid
    requires tg == mid.teacherGrids || (
      && IsLesson(e)
      && e.teacherId in mid.teacherGrids
      && tg == mid.teacherGrids[e.teacherId := mid.teacherGrids[e.teacherId][key0 := Mirror(e, courseId, name)]])
    ensures Traced(FillState(mid.grid[key0 := e], tg, remaining), tg0, courseId, name)
  {
    var r := FillState(mid.grid[key0 := e], tg, remaining);
    forall x, key | x in r.teacherGrids && key in r.teacherGrids[x] && (x !in tg0 || key !in tg0[x])
      ensures key in r.grid && IsLesson(r.grid[key]) && r.grid[key].teacherId == x
      ensures r.teacherGrids[x][key] == Mirror(r.grid[key], courseId, name)
    {
      if tg == mid.teacherGrids || x != e.teacherId || key != key0 {
        assert x in mid.teacherGrids && key in mid.teacherGrids[x];
        assert key in mid.grid;
      }
    }
  }

  /** Every lesson passed the restriction check of its teacher at the cell's day and slot. */
  predicate RestrictionsKept(ro: Roster, r: FillState, ps: seq<Position>) {
    forall j :: 0 <= j < |ps| && KeyOf(ps[j]) in r.grid && IsLesson(r.grid[KeyOf(ps[j])]) ==>
      && FindTeacher(ro.teachers, r.grid[KeyOf(ps[j])].teacherId).Some?
      && CheckTeacherRestrictions(FindTeacher(ro.teachers, r.grid[KeyOf(ps[j])].teacherId).value, ps[j].day, ps[j].slot)
  }

  lemma {:induction false} FillRestrictions(ro: Roster, c: Course, name: string, st0: FillState, ps: seq<Position>)
    requires UnitsReady(st0.remaining, ro.subjects, c.id)
    requires DistinctKeys(ps)
    ensures RestrictionsKept(ro, Fill(ro, c, name, st0, ps), ps)
  {
    if |ps| > 0 {
      var init := ps[..|ps| - 1];
      var pos := ps[|ps| - 1];
      var mid := Fill(ro, c, name, st0, init);
      var r := Fill(ro, c, name, st0, ps);
      assert r == PlaceCell(ro, c, name, mid, pos);
      LastKeyFresh(ps);
      FillRestrictions(ro, c, name, st0, init);
      forall j | 0 <= j < |ps| && KeyOf(ps[j]) in r.grid && IsLesson(r.grid[KeyOf(ps[j])])
        ensures FindTeacher(ro.teachers, r.grid[KeyOf(ps[j])].teacherId).Some?
        ensures CheckTeacherRestrictions(FindTeacher(ro.teachers, r.grid[KeyOf(ps[j])].teacherId).value, ps[j].day, ps[j].slot)
      {
        if j < |ps| - 1 {
          assert ps[j] == init[j] && ps[j] in init;
          assert r.grid[KeyOf(ps[j])] == mid.grid[KeyOf(ps[j])];
        }
      }
    }
  }

  /** The last visited cell is not among the earlier ones. */
  lemma LastKeyFresh(ps: seq<Position>)
    requires |ps| > 0 && DistinctKeys(ps)
    ensures DistinctKeys(ps[..|ps| - 1])
    ensures forall p :: p in ps[..|ps| - 1] ==> KeyOf(p) != KeyOf(ps[|ps| - 1])
    ensures KeyOf(ps[|ps| - 1]) !in KeySet(ps[..|ps| - 1])
  {
    var init := ps[..|ps| - 1];
    forall i, j | 0 <= i < j < |init| ensures KeyOf(init[i]) != KeyOf(init[j]) {
      assert init[i] == ps[i] && init[j] == ps[j];
    }
    forall p | p in init ensures KeyOf(p) != KeyOf(ps[|ps| - 1]) {
      var j :| 0 <= j < |init| && init[j] == p;
      assert ps[j] == p;
    }
  }

  lemma {:induction false} PlacedUnitsFrame(courseId: string, g: CourseGrid, key: Cell, e: CourseEntry, ps: seq<Position>)
    requires forall p :: p in ps ==> KeyOf(p) != key
    ensures PlacedUnits(courseId, g[key := e], ps) == PlacedUnits(courseId, g, ps)
  {
    if |ps| > 0 {
      assert ps[|ps| - 1] in ps;
      PlacedUnitsFrame(courseId, g, key, e, ps[..|ps| - 1]);
    }
  }

  /**
   * Conservation: the units the course started with are, as a multiset,
   * exactly the units still remaining plus those its lesson cells consumed.
   */
  lemma {:induction false} FillConservation(ro: Roster, c: Course, name: string, st0: FillState, ps: seq<Position>)
    requires UnitsReady(st0.remaining, ro.subjects, c.id)
    requires st0.grid == map[]
    requires DistinctKeys(ps)
    ensures var r := Fill(ro, c, name, st0, ps);
      multiset(st0.remaining) == multiset(r.remaining) + PlacedUnits(c.id, r.grid, ps)
  {
    if |ps| > 0 {
      var init := ps[..|ps| - 1];
      var pos := ps[|ps| - 1];
      var mid := Fill(ro, c, name, st0, init);
      var r := Fill(ro, c, name, st0, ps);
      assert r == PlaceCell(ro, c, name, mid, pos);
      LastKeyFresh(ps);
      FillConservation(ro, c, name, st0, init);
      PlacedUnitsFrame(c.id, mid.grid, KeyOf(pos), r.grid[KeyOf(pos)], init);
      assert r.grid == mid.grid[KeyOf(pos) := r.grid[KeyOf(pos)]];
    }
  }
}
