/**
 * The hour pool of `generateSchedules`: every course-subject with weekly hours
 * `h` becomes `h` one-hour items, and each item is routed to the first teacher
 * who teaches that subject in that course; unrouted items are dropped.
 */
module HourPool {
  import opened Wrappers
  import opened School
  import Seqs

  /** An element of `subjectPool`. */
  datatype PoolItem = PoolItem(courseId: string, subjectId: string)

  /** An element of `assignmentPool`: an item with the teacher it was routed to. */
  datatype Unit = Unit(courseId: string, subjectId: string, teacherId: string)

  /** `Array(h)` throws unless `h` is a natural number. */
  predicate HoursNatural(c: Course) {
    forall j :: 0 <= j < |c.courseSubjects| ==> c.courseSubjects[j].weeklyHours >= 0
  }

  predicate AllHoursNatural(courses: seq<Course>) {
    forall i :: 0 <= i < |courses| ==> HoursNatural(courses[i])
  }

  function Repeat<T>(x: T, n: nat): (r: seq<T>)
    ensures |r| == n
    ensures forall i :: 0 <= i < n ==> r[i] == x
  {
    if n == 0 then [] else [x] + Repeat(x, n - 1)
  }

  /** The weekly hours of a list of course-subjects. */
  function SumHours(entries: seq<CourseSubject>): int {
    if |entries| == 0 then 0 else entries[0].weeklyHours + SumHours(entries[1..])
  }

  /** `cs.weeklyHours` copies of the item, for each course-subject in order. */
  function EntryItems(courseId: string, entries: seq<CourseSubject>): (r: seq<PoolItem>)
    requires forall j :: 0 <= j < |entries| ==> entries[j].weeklyHours >= 0
    ensures |r| == SumHours(entries)
    ensures forall i :: 0 <= i < |r| ==> r[i].courseId == courseId
  {
    if |entries| == 0 then []
    else Repeat(PoolItem(courseId, entries[0].subjectId), entries[0].weeklyHours) + EntryItems(courseId, entries[1..])
  }

  /** The items one course contributes. */
  function CourseItems(c: Course): seq<PoolItem>
    requires HoursNatural(c)
  {
    EntryItems(c.id, c.courseSubjects)
  }

  /** `subjectPool`: the items of every course, in course order. */
  function SubjectPool(courses: seq<Course>): seq<PoolItem>
    requires AllHoursNatural(courses)
  {
    if |courses| == 0 then [] else CourseItems(courses[0]) + SubjectPool(courses[1..])
  }

  /** Teacher `t` has the subject routed to the course in some assignment. */
  predicate Routes(t: Teacher, subjectId: string, courseId: string) {
    exists k :: 0 <= k < |t.subjectsTaught|
      && t.subjectsTaught[k].subjectId == subjectId && courseId in t.subjectsTaught[k].courseIds
  }

  function RoutesItem(item: PoolItem): Teacher -> bool {
    (t: Teacher) => Routes(t, item.subjectId, item.courseId)
  }

  /**
   * The routing step: the first teacher routing the item, kept only when that
   * teacher's id is non-empty (`.filter(item => item.teacherId)`).
   */
  function AssignItem(teachers: seq<Teacher>, item: PoolItem): (r: Option<Unit>)
    ensures r.Some? ==> r.value.courseId == item.courseId && r.value.subjectId == item.subjectId
    ensures r.Some? ==> r.value.teacherId != ""
  {
    match Seqs.FindIndex(teachers, RoutesItem(item))
    case None => None
    case Some(i) =>
      if teachers[i].id == "" then None else Some(Unit(item.courseId, item.subjectId, teachers[i].id))
  }

  /** `assignmentPool`: the routed items, in pool order. */
  function AssignmentPool(teachers: seq<Teacher>, items: seq<PoolItem>): (r: seq<Unit>)
    ensures forall i :: 0 <= i < |r| ==> r[i].teacherId != ""
  {
    if |items| == 0 then []
    else
      (match AssignItem(teachers, items[0]) case None => [] case Some(u) => [u])
      + AssignmentPool(teachers, items[1..])
  }

  function OfCourse(courseId: string): Unit -> bool {
    (u: Unit) => u.courseId == courseId
  }

  /** `courseAssignments`: the units of one course. */
  function CourseAssignments(pool: seq<Unit>, courseId: string): seq<Unit> {
    Seqs.Filter(pool, OfCourse(courseId))
  }

  // ---------------------------------------------------------------------
  // Properties
  // ---------------------------------------------------------------------

  /**
   * A unit goes to the first teacher in list order who routes the subject to
   * the course; the unit is dropped when no teacher does or that teacher's id is empty.
   */
  lemma AssignItemFirstTeacher(teachers: seq<Teacher>, item: PoolItem)
    ensures AssignItem(teachers, item).Some? <==>
      exists i :: 0 <= i < |teachers| && Routes(teachers[i], item.subjectId, item.courseId)
        && teachers[i].id != ""
        && forall j :: 0 <= j < i ==> !Routes(teachers[j], item.subjectId, item.courseId)
    ensures AssignItem(teachers, item).Some? ==>
      exists i :: 0 <= i < |teachers| && Routes(teachers[i], item.subjectId, item.courseId)
        && AssignItem(teachers, item).value.teacherId == teachers[i].id
        && forall j :: 0 <= j < i ==> !Routes(teachers[j], item.subjectId, item.courseId)
  {
    var p := RoutesItem(item);
    match Seqs.FindIndex(teachers, p)
    case None =>
    case Some(i) =>
      assert Routes(teachers[i], item.subjectId, item.courseId);
      forall i' | 0 <= i' < |teachers| && Routes(teachers[i'], item.subjectId, item.courseId)
          && forall j :: 0 <= j < i' ==> !Routes(teachers[j], item.subjectId, item.courseId)
        ensures i' == i
      {
      }
  }

  /** The items of a list of course-subjects, entry by entry. */
  lemma {:induction false} EntryItemsCount(courseId: string, entries: seq<CourseSubject>, subjectId: string)
    requires forall j :: 0 <= j < |entries| ==> entries[j].weeklyHours >= 0
    ensures multiset(EntryItems(courseId, entries))[PoolItem(courseId, subjectId)]
         == SumHours(Seqs.Filter(entries, (e: CourseSubject) => e.subjectId == subjectId))
  {
    if |entries| > 0 {
      EntryItemsCount(courseId, entries[1..], subjectId);
      var rep := Repeat(PoolItem(courseId, entries[0].subjectId), entries[0].weeklyHours);
      RepeatCount(PoolItem(courseId, entries[0].subjectId), entries[0].weeklyHours, PoolItem(courseId, subjectId));
      var f := Seqs.Filter(entries[1..], (e: CourseSubject) => e.subjectId == subjectId);
      if entries[0].subjectId == subjectId {
        assert Seqs.Filter(entries, (e: CourseSubject) => e.subjectId == subjectId) == [entries[0]] + f;
        assert ([entries[0]] + f)[1..] == f;
      } else {
        assert Seqs.Filter(entries, (e: CourseSubject) => e.subjectId == subjectId) == f;
      }
    }
  }

  lemma {:induction false} RepeatCount<T>(x: T, n: nat, y: T)
    ensures multiset(Repeat(x, n))[y] == if x == y then n else 0
  {
    if n > 0 {
      RepeatCount(x, n - 1, y);
    }
  }

  /**
   * Each course-subject with weekly hours `h` contributes `h` identical items:
   * the course's pool holds, for each subject, exactly the hours listed for it.
   */
  lemma CourseItemsCount(c: Course, subjectId: string)
    requires HoursNatural(c)
    ensures multiset(CourseItems(c))[PoolItem(c.id, subjectId)]
         == SumHours(Seqs.Filter(c.courseSubjects, (e: CourseSubject) => e.subjectId == subjectId))
    ensures |CourseItems(c)| == SumHours(c.courseSubjects)
  {
    EntryItemsCount(c.id, c.courseSubjects, subjectId);
  }

  lemma {:induction false} AssignmentPoolAppend(teachers: seq<Teacher>, a: seq<PoolItem>, b: seq<PoolItem>)
    ensures AssignmentPool(teachers, a + b) == AssignmentPool(teachers, a) + AssignmentPool(teachers, b)
  {
    if |a| > 0 {
      var head := match AssignItem(teachers, a[0]) case None => [] case Some(u) => [u];
      assert (a + b)[0] == a[0] && (a + b)[1..] == a[1..] + b;
      assert AssignmentPool(teachers, a + b) == head + AssignmentPool(teachers, a[1..] + b);
      AssignmentPoolAppend(teachers, a[1..], b);
      assert head + (AssignmentPool(teachers, a[1..]) + AssignmentPool(teachers, b))
          == (head + AssignmentPool(teachers, a[1..])) + AssignmentPool(teachers, b);
    } else {
      assert a + b == b;
    }
  }

  /** Routing keeps each item's course, so any property of all the items' courses holds of the units'. */
  lemma {:induction false} AssignmentPoolCourses(teachers: seq<Teacher>, items: seq<PoolItem>, p: string -> bool)
    requires forall j :: 0 <= j < |items| ==> p(items[j].courseId)
    ensures forall i :: 0 <= i < |AssignmentPool(teachers, items)| ==> p(AssignmentPool(teachers, items)[i].courseId)
  {
    if |items| > 0 {
      AssignmentPoolCourses(teachers, items[1..], p);
    }
  }

  /** The pool of a non-empty course list, split into its first course's part and the rest's. */
  lemma PoolCons(teachers: seq<Teacher>, courses: seq<Course>, courseId: string)
    requires AllHoursNatural(courses)
    requires |courses| > 0
    ensures AllHoursNatural(courses[1..])
    ensures CourseAssignments(AssignmentPool(teachers, SubjectPool(courses)), courseId)
         == CourseAssignments(AssignmentPool(teachers, CourseItems(courses[0])), courseId)
            + CourseAssignments(AssignmentPool(teachers, SubjectPool(courses[1..])), courseId)
  {
    var rest := courses[1..];
    assert AllHoursNatural(rest) by {
      forall i | 0 <= i < |rest| ensures HoursNatural(rest[i]) { assert rest[i] == courses[i + 1]; }
    }
    AssignmentPoolAppend(teachers, CourseItems(courses[0]), SubjectPool(rest));
    Seqs.FilterAppend(AssignmentPool(teachers, CourseItems(courses[0])), AssignmentPool(teachers, SubjectPool(rest)), OfCourse(courseId));
  }

  /** The routed units of one course belong to it, so filtering for it keeps them all and for another id none. */
  lemma CourseItemsOwn(teachers: seq<Teacher>, c: Course, courseId: string)
    requires HoursNatural(c)
    ensures CourseAssignments(AssignmentPool(teachers, CourseItems(c)), courseId)
         == if c.id == courseId then AssignmentPool(teachers, CourseItems(c)) else []
  {
    var units := AssignmentPool(teachers, CourseItems(c));
    if c.id == courseId {
      AssignmentPoolCourses(teachers, CourseItems(c), (x: string) => x == courseId);
      Seqs.FilterKeepsAll(units, OfCourse(courseId));
    } else {
      AssignmentPoolCourses(teachers, CourseItems(c), (x: string) => x != courseId);
      Seqs.FilterKeepsNone(units, OfCourse(courseId));
    }
  }

  /**
   * Filtering the pool by course (`courseAssignments`) recovers exactly the
   * routed units of that course, in its own order, when no other course shares its id.
   */
  lemma {:induction false} CourseAssignmentsOfPool(teachers: seq<Teacher>, courses: seq<Course>, k: nat)
    requires AllHoursNatural(courses)
    requires k < |courses|
    requires forall i :: 0 <= i < |courses| && i != k ==> courses[i].id != courses[k].id
    ensures CourseAssignments(AssignmentPool(teachers, SubjectPool(courses)), courses[k].id)
         == AssignmentPool(teachers, CourseItems(courses[k]))
  {
    var id := courses[k].id;
    var rest := courses[1..];
    var own := AssignmentPool(teachers, CourseItems(courses[0]));
    var others := CourseAssignments(AssignmentPool(teachers, SubjectPool(rest)), id);
    PoolCons(teachers, courses, id);
    CourseItemsOwn(teachers, courses[0], id);
    var whole := CourseAssignments(AssignmentPool(teachers, SubjectPool(courses)), id);
    assert whole == CourseAssignments(own, id) + others;
    OtherIdsShift(courses, k);
    if k == 0 {
      NoUnitsOfCourse(teachers, rest, id);
      assert whole == own + [];
    } else {
      CourseAssignmentsOfPool(teachers, rest, k - 1);
      assert others == AssignmentPool(teachers, CourseItems(courses[k]));
      assert whole == [] + others;
    }
  }

  /** Dropping the first course keeps the other ids apart from the one at `k`, shifted by one. */
  lemma OtherIdsShift(courses: seq<Course>, k: nat)
    requires k < |courses|
    requires forall i :: 0 <= i < |courses| && i != k ==> courses[i].id != courses[k].id
    ensures k > 0 ==> courses[1..][k - 1] == courses[k]
    ensures forall i :: 0 <= i < |courses| - 1 && i + 1 != k ==> courses[1..][i].id != courses[k].id
  {
    forall i | 0 <= i < |courses| - 1 && i + 1 != k ensures courses[1..][i].id != courses[k].id {
      assert courses[1..][i] == courses[i + 1];
    }
  }

  /** A pool built from courses none of which has the id yields no unit for it. */
  lemma {:induction false} NoUnitsOfCourse(teachers: seq<Teacher>, courses: seq<Course>, courseId: string)
    requires AllHoursNatural(courses)
    requires forall i :: 0 <= i < |courses| ==> courses[i].id != courseId
    ensures CourseAssignments(AssignmentPool(teachers, SubjectPool(courses)), courseId) == []
  {
    if |courses| > 0 {
      PoolCons(teachers, courses, courseId);
      CourseItemsOwn(teachers, courses[0], courseId);
      NoUnitsOfCourse(teachers, courses[1..], courseId);
    }
  }
}
