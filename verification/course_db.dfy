/**
 * The derivations `lib/db.ts` performs on stored records: the version-6
 * upgrade of subjects, `generateAllCourses` (one course per level, grade and
 * section) and `updateCoursesWithTeacherSubjects` (a saved teacher's subjects
 * are merged into the courses they teach). The database is replaced by the
 * in-memory lists it would return.
 */
module CourseDb {
  import opened Wrappers
  import opened School
  import Seqs
  import Text

  // ---------------------------------------------------------------------
  // Upgrade to version 6: default a missing hours table and short code
  // ---------------------------------------------------------------------

  const ZeroRow: map<Grade, int> :=
    map[Primero := 0, Segundo := 0, Tercero := 0, Cuarto := 0, Quinto := 0, Sexto := 0]

  /** Both levels, every grade, zero hours. */
  const ZeroTable: HoursTable := map[Primario := ZeroRow, Secundario := ZeroRow]

  /** A subject carrying the zero table has every cell configured, at zero hours. */
  lemma ZeroTableConfigured(s: Subject)
    requires s.hoursTable == Some(ZeroTable)
    ensures forall l: Level, g: Grade :: ConfiguredHours(s, l, g) == Some(0)
  {
    forall l: Level, g: Grade ensures ConfiguredHours(s, l, g) == Some(0) {
      assert ZeroTable[l] == ZeroRow by { match l case Primario => case Secundario => }
      match g
      case Primero => case Segundo => case Tercero => case Cuarto => case Quinto => case Sexto =>
    }
  }

  /** `!subject.shortCode`: absent or the empty string. */
  predicate MissingShortCode(s: Subject) {
    s.shortCode.None? || s.shortCode == Some("")
  }

  /** The short code a subject without one receives: its name's first two characters, upper-cased. */
  function DefaultShortCode(name: string): (code: string)
    ensures |code| == if |name| < 2 then |name| else 2
    ensures forall i :: 0 <= i < |code| ==> code[i] == Text.UpperChar(name[i])
  {
    Text.ToUpper(Text.Prefix(name, 2))
  }

  /** The cursor step of the version-6 upgrade, applied to one stored subject. */
  function UpgradeSubject(s: Subject): (r: Subject)
    ensures r.id == s.id && r.name == s.name && r.priority == s.priority
    ensures s.hoursTable.Some? ==> r.hoursTable == s.hoursTable
    ensures s.hoursTable.None? ==> forall l: Level, g: Grade :: ConfiguredHours(r, l, g) == Some(0)
    ensures !MissingShortCode(s) ==> r.shortCode == s.shortCode
    ensures MissingShortCode(s) ==> r.shortCode == Some(DefaultShortCode(s.name))
    ensures |s.name| > 0 ==> !MissingShortCode(r)
  {
    var withTable := if s.hoursTable.None? then s.(hoursTable := Some(ZeroTable)) else s;
    var r := if MissingShortCode(withTable) then withTable.(shortCode := Some(DefaultShortCode(s.name))) else withTable;
    if s.hoursTable.None? then ZeroTableConfigured(r); r else r
  }

  /** Running the upgrade on an upgraded subject changes nothing. */
  lemma UpgradeIdempotent(s: Subject)
    ensures UpgradeSubject(UpgradeSubject(s)) == UpgradeSubject(s)
  {
  }

  // ---------------------------------------------------------------------
  // generateAllCourses
  // ---------------------------------------------------------------------

  type Triple = (Level, Grade, Section)

  /** The innermost loop: one triple per section, for a fixed level and grade. */
  function SectionTriples(l: Level, g: Grade, sections: seq<Section>): (r: seq<Triple>)
    ensures |r| == |sections|
    ensures forall k :: 0 <= k < |r| ==> r[k] == (l, g, sections[k])
  {
    if |sections| == 0 then [] else [(l, g, sections[0])] + SectionTriples(l, g, sections[1..])
  }

  /** The middle loop over grades. */
  function GradeTriples(l: Level, grades: seq<Grade>): seq<Triple> {
    if |grades| == 0 then [] else SectionTriples(l, grades[0], Sections) + GradeTriples(l, grades[1..])
  }

  /** The outer loop over levels. */
  function LevelTriples(levels: seq<Level>): seq<Triple> {
    if |levels| == 0 then [] else GradeTriples(levels[0], Grades) + LevelTriples(levels[1..])
  }

  /** Every (level, grade, section) in the order the three nested loops visit them. */
  function AllTriples(): seq<Triple> {
    LevelTriples(Levels)
  }

  function Rank(t: Triple): int {
    TripleRank(t.0, t.1, t.2)
  }

  /** The position of each value in its list is its sort order minus one. */
  lemma EnumerationOrders()
    ensures forall i :: 0 <= i < |Levels| ==> LevelOrder(Levels[i]) == i + 1
    ensures forall j :: 0 <= j < |Grades| ==> GradeOrder(Grades[j]) == j + 1
    ensures forall m :: 0 <= m < |Sections| ==> SectionOrder(Sections[m]) == m + 1
  {
    forall j | 0 <= j < |Grades| ensures GradeOrder(Grades[j]) == j + 1 {
      if j == 0 {} else if j == 1 {} else if j == 2 {} else if j == 3 {} else if j == 4 {} else {}
    }
    forall m | 0 <= m < |Sections| ensures SectionOrder(Sections[m]) == m + 1 {
      if m == 0 {} else if m == 1 {} else if m == 2 {} else if m == 3 {} else {}
    }
  }

  /** The triples of `ts` have consecutive ranks starting at `base`. */
  predicate RanksFrom(ts: seq<Triple>, base: int) {
    forall k :: 0 <= k < |ts| ==> Rank(ts[k]) == base + k
  }

  lemma RanksFromAppend(a: seq<Triple>, b: seq<Triple>, base: int)
    requires RanksFrom(a, base) && RanksFrom(b, base + |a|)
    ensures RanksFrom(a + b, base)
  {
    forall k | 0 <= k < |a + b| ensures Rank((a + b)[k]) == base + k {
      if k >= |a| { assert (a + b)[k] == b[k - |a|]; }
    }
  }

  /** The sections of one grade: five consecutive ranks. */
  lemma SectionTriplesRanked(l: Level, g: Grade)
    ensures |SectionTriples(l, g, Sections)| == 5
    ensures RanksFrom(SectionTriples(l, g, Sections), (LevelOrder(l) - 1) * 30 + (GradeOrder(g) - 1) * 5)
  {
    EnumerationOrders();
  }

  /** The grades from the `d`-th on contribute consecutive ranks after the earlier grades of the level. */
  lemma {:induction false} GradeTriplesRanked(l: Level, d: nat)
    requires d <= |Grades|
    ensures |GradeTriples(l, Grades[d..])| == 5 * (6 - d)
    ensures RanksFrom(GradeTriples(l, Grades[d..]), (LevelOrder(l) - 1) * 30 + 5 * d)
    decreases |Grades| - d
  {
    if d < |Grades| {
      GradeTriplesRanked(l, d + 1);
      EnumerationOrders();
      SectionTriplesRanked(l, Grades[d]);
      assert Grades[d..][1..] == Grades[d + 1..];
      RanksFromAppend(SectionTriples(l, Grades[d], Sections), GradeTriples(l, Grades[d + 1..]),
                      (LevelOrder(l) - 1) * 30 + 5 * d);
    } else {
      assert Grades[d..] == [];
    }
  }

  /** Levels whose sort orders run on from `e + 1` contribute consecutive blocks of 30 ranks. */
  lemma {:induction false} LevelTriplesRanked(levels: seq<Level>, e: nat)
    requires forall i :: 0 <= i < |levels| ==> LevelOrder(levels[i]) == e + i + 1
    ensures |LevelTriples(levels)| == 30 * |levels|
    ensures RanksFrom(LevelTriples(levels), 30 * e)
  {
    if |levels| > 0 {
      LevelTriplesRanked(levels[1..], e + 1);
      GradeTriplesRanked(levels[0], 0);
      assert Grades[0..] == Grades;
      RanksFromAppend(GradeTriples(levels[0], Grades), LevelTriples(levels[1..]), 30 * e);
    }
  }

  /**
   * The loops visit 2 x 6 x 5 = 60 triples, the k-th being the one of rank k:
   * each triple exactly once, in level, grade, section order.
   */
  lemma AllTriplesRanked()
    ensures |AllTriples()| == 60
    ensures forall k :: 0 <= k < 60 ==> Rank(AllTriples()[k]) == k
  {
    EnumerationOrders();
    LevelTriplesRanked(Levels, 0);
  }

  function TripleOf(c: Course): Triple {
    (c.level, c.grade, c.section)
  }

  function TripleIs(t: Triple): Course -> bool {
    (c: Course) => TripleOf(c) == t
  }

  /** The course built for a triple nobody has stored yet. */
  function NewCourse(id: string, t: Triple, subjects: seq<Subject>, teachers: seq<Teacher>): Course {
    var homeroom := if |teachers| > 0 then teachers[0].id else "";
    Course(id, t.0, t.1, t.2, "", homeroom, AutoSubjects(subjects, t.0, t.1))
  }

  /**
   * The course returned for a triple, against a given store: the first
   * stored course of that triple, else a new one with the given id.
   */
  function Reuse(store: seq<Course>, subjects: seq<Subject>, teachers: seq<Teacher>, id: string, t: Triple): (c: Course)
    ensures TripleOf(c) == t
  {
    match Seqs.Find(store, TripleIs(t))
    case Some(existing) => existing
    case None => NewCourse(id, t, subjects, teachers)
  }

  /** The courses in the store (growing as new ones are put) and those returned so far. */
  datatype Batch = Batch(store: seq<Course>, generated: seq<Course>)

  /** One iteration of the innermost loop body; `uuidv4` is the `freshId` oracle. */
  function GenerateStep(b: Batch, k: nat, t: Triple, subjects: seq<Subject>, teachers: seq<Teacher>,
                        freshId: nat -> string): Batch
  {
    var c := Reuse(b.store, subjects, teachers, freshId(k), t);
    if Seqs.Find(b.store, TripleIs(t)).Some? then Batch(b.store, b.generated + [c])
    else Batch(b.store + [c], b.generated + [c])
  }

  /** The first `n` iterations of the loops, visiting `triples` in order. */
  function GenerateUpTo(stored: seq<Course>, subjects: seq<Subject>, teachers: seq<Teacher>,
                        freshId: nat -> string, triples: seq<Triple>, n: nat): Batch
    requires n <= |triples|
  {
    if n == 0 then Batch(stored, [])
    else GenerateStep(GenerateUpTo(stored, subjects, teachers, freshId, triples, n - 1), n - 1, triples[n - 1],
                      subjects, teachers, freshId)
  }

  /** The k-th triple has rank k, for each of the 60. */
  predicate Ranked(triples: seq<Triple>) {
    |triples| == 60 && forall k :: 0 <= k < 60 ==> Rank(triples[k]) == k
  }

  /**
   * After `n` steps the store is the old store plus new courses of ranks
   * below `n`, and each returned course is the one the OLD store gives.
   */
  predicate BatchAfter(stored: seq<Course>, subjects: seq<Subject>, teachers: seq<Teacher>,
                       freshId: nat -> string, triples: seq<Triple>, n: nat, b: Batch)
    requires n <= |triples|
  {
    && |b.generated| == n
    && |stored| <= |b.store| && b.store[..|stored|] == stored
    && (forall i :: |stored| <= i < |b.store| ==> CourseRank(b.store[i]) < n)
    && (forall k :: 0 <= k < n ==> b.generated[k] == Reuse(stored, subjects, teachers, freshId(k), triples[k]))
  }

  /** Courses put earlier in the run never answer a later lookup, so one more step keeps the invariant. */
  lemma GenerateStepSpec(stored: seq<Course>, subjects: seq<Subject>, teachers: seq<Teacher>,
                         freshId: nat -> string, triples: seq<Triple>, n: nat, prev: Batch)
    requires Ranked(triples) && 0 < n <= 60
    requires BatchAfter(stored, subjects, teachers, freshId, triples, n - 1, prev)
    ensures BatchAfter(stored, subjects, teachers, freshId, triples, n,
                       GenerateStep(prev, n - 1, triples[n - 1], subjects, teachers, freshId))
  {
    var t := triples[n - 1];
    assert Rank(t) == n - 1;
    var news := prev.store[|stored|..];
    assert prev.store == stored + news;
    assert forall i :: 0 <= i < |news| ==> !TripleIs(t)(news[i]) by {
      forall i | 0 <= i < |news| ensures !TripleIs(t)(news[i]) {
        assert news[i] == prev.store[|stored| + i];
      }
    }
    Seqs.FindAppend(stored, news, TripleIs(t));
    assert Seqs.Find(news, TripleIs(t)).None?;
    assert Seqs.Find(prev.store, TripleIs(t)) == Seqs.Find(stored, TripleIs(t));
    var b := GenerateStep(prev, n - 1, t, subjects, teachers, freshId);
    var e := Reuse(stored, subjects, teachers, freshId(n - 1), t);
    assert b.generated == prev.generated + [e];
    forall k | 0 <= k < n ensures b.generated[k] == Reuse(stored, subjects, teachers, freshId(k), triples[k]) {
      if k < n - 1 { assert b.generated[k] == prev.generated[k]; }
    }
    if Seqs.Find(stored, TripleIs(t)).None? {
      assert b.store == prev.store + [e];
      assert CourseRank(e) == n - 1;
      assert b.store[..|stored|] == stored by { assert b.store[..|stored|] == prev.store[..|stored|]; }
      forall i | |stored| <= i < |b.store| ensures CourseRank(b.store[i]) < n {
        if i < |prev.store| { assert b.store[i] == prev.store[i]; }
      }
    } else {
      assert b.store == prev.store;
    }
  }

  lemma {:induction false} GenerateUpToSpec(stored: seq<Course>, subjects: seq<Subject>, teachers: seq<Teacher>,
                                            freshId: nat -> string, triples: seq<Triple>, n: nat)
    requires Ranked(triples) && n <= 60
    ensures BatchAfter(stored, subjects, teachers, freshId, triples, n,
                       GenerateUpTo(stored, subjects, teachers, freshId, triples, n))
  {
    if n > 0 {
      GenerateUpToSpec(stored, subjects, teachers, freshId, triples, n - 1);
      GenerateStepSpec(stored, subjects, teachers, freshId, triples, n,
                       GenerateUpTo(stored, subjects, teachers, freshId, triples, n - 1));
    } else {
      assert stored[..|stored|] == stored;
    }
  }

  /**
   * `generateAllCourses`: one course per triple in display order; each is the
   * first stored course of its triple, unchanged, or else a new course for it.
   */
  function GenerateAllCourses(stored: seq<Course>, subjects: seq<Subject>, teachers: seq<Teacher>,
                              freshId: nat -> string): (r: seq<Course>)
    ensures |r| == 60
    ensures forall k :: 0 <= k < 60 ==> CourseRank(r[k]) == k
    ensures forall k :: 0 <= k < 60 ==> r[k] == Reuse(stored, subjects, teachers, freshId(k), TripleOf(r[k]))
  {
    var triples := AllTriples();
    AllTriplesRanked();
    GenerateUpToSpec(stored, subjects, teachers, freshId, triples, 60);
    GenerateUpTo(stored, subjects, teachers, freshId, triples, 60).generated
  }

  /** What the per-triple facts rest on: one course per rank, each the reuse of its own triple. */
  predicate OnePerRank(stored: seq<Course>, subjects: seq<Subject>, teachers: seq<Teacher>,
                       freshId: nat -> string, r: seq<Course>)
  {
    && |r| == 60
    && (forall k :: 0 <= k < 60 ==> CourseRank(r[k]) == k)
    && (forall k :: 0 <= k < 60 ==> r[k] == Reuse(stored, subjects, teachers, freshId(k), TripleOf(r[k])))
  }

  lemma OnePerRankPerTriple(stored: seq<Course>, subjects: seq<Subject>, teachers: seq<Teacher>,
                            freshId: nat -> string, r: seq<Course>, l: Level, g: Grade, s: Section)
    requires OnePerRank(stored, subjects, teachers, freshId, r)
    ensures var c := r[TripleRank(l, g, s)];
      && TripleOf(c) == (l, g, s)
      && (forall k :: 0 <= k < 60 && TripleOf(r[k]) == (l, g, s) ==> k == TripleRank(l, g, s))
      && (Seqs.Find(stored, TripleIs((l, g, s))).Some? ==> c == Seqs.Find(stored, TripleIs((l, g, s))).value)
      && (Seqs.Find(stored, TripleIs((l, g, s))).None? ==>
            && c.studentList == ""
            && c.homeroomTeacherId == (if |teachers| > 0 then teachers[0].id else "")
            && c.courseSubjects == AutoSubjects(subjects, l, g))
  {
    var k := TripleRank(l, g, s);
    var c := r[k];
    assert CourseRank(c) == k;
    RankMatchesComparator(l, g, s, c.level, c.grade, c.section);
    forall j | 0 <= j < 60 && TripleOf(r[j]) == (l, g, s) ensures j == k {
      assert CourseRank(r[j]) == j;
    }
  }

  /**
   * For each triple, the course at its rank is the only one of that triple;
   * it is the first stored course of the triple when there is one, and
   * otherwise new, with an empty student list, the first teacher (or none) as
   * homeroom and every subject configured for the level and grade.
   */
  lemma GenerateAllCoursesPerTriple(stored: seq<Course>, subjects: seq<Subject>, teachers: seq<Teacher>,
                                    freshId: nat -> string, l: Level, g: Grade, s: Section)
    ensures var r := GenerateAllCourses(stored, subjects, teachers, freshId);
      var c := r[TripleRank(l, g, s)];
      && TripleOf(c) == (l, g, s)
      && (forall k :: 0 <= k < 60 && TripleOf(r[k]) == (l, g, s) ==> k == TripleRank(l, g, s))
      && (Seqs.Find(stored, TripleIs((l, g, s))).Some? ==> c == Seqs.Find(stored, TripleIs((l, g, s))).value)
      && (Seqs.Find(stored, TripleIs((l, g, s))).None? ==>
            && c.studentList == ""
            && c.homeroomTeacherId == (if |teachers| > 0 then teachers[0].id else "")
            && c.courseSubjects == AutoSubjects(subjects, l, g))
  {
    OnePerRankPerTriple(stored, subjects, teachers, freshId, GenerateAllCourses(stored, subjects, teachers, freshId), l, g, s);
  }

  // ---------------------------------------------------------------------
  // updateCoursesWithTeacherSubjects
  // ---------------------------------------------------------------------

  function SubjectIs(id: string): CourseSubject -> bool {
    (cs: CourseSubject) => cs.subjectId == id
  }

  /** `course.courseSubjects.find((cs) => cs.subjectId === id)` finds an entry. */
  predicate Lists(c: Course, subjectId: string) {
    Seqs.Find(c.courseSubjects, SubjectIs(subjectId)).Some?
  }

  /** One iteration of the inner loop: the course with this id, if any, may gain the subject. */
  function AddToCourse(courses: seq<Course>, subject: Subject, subjectId: string, courseId: string): (r: seq<Course>)
    ensures |r| == |courses|
  {
    match Seqs.FindIndex(courses, CourseIdIs(courseId))
    case None => courses
    case Some(i) =>
      var course := courses[i];
      if Lists(course, subjectId) then courses
      else
        var configuredHours := HoursOrZero(subject, course.level, course.grade);
        if configuredHours > 0 then
          courses[i := course.(courseSubjects := course.courseSubjects + [CourseSubject(subjectId, configuredHours)])]
        else courses
  }

  /** The inner loop over one assignment's `courseIds`. */
  function AddToCourses(courses: seq<Course>, subject: Subject, subjectId: string, courseIds: seq<string>): (r: seq<Course>)
    ensures |r| == |courses|
    decreases |courseIds|
  {
    if |courseIds| == 0 then courses
    else AddToCourses(AddToCourse(courses, subject, subjectId, courseIds[0]), subject, subjectId, courseIds[1..])
  }

  /** The outer loop body: assignments without courses or with an unknown subject are skipped. */
  function ApplyTaught(courses: seq<Course>, subjects: seq<Subject>, st: SubjectTaught): (r: seq<Course>)
    ensures |r| == |courses|
  {
    if |st.courseIds| == 0 then courses
    else match FindSubject(subjects, st.subjectId)
      case None => courses
      case Some(subject) => AddToCourses(courses, subject, st.subjectId, st.courseIds)
  }

  /** The outer loop over the teacher's assignments. */
  function ApplyAll(courses: seq<Course>, subjects: seq<Subject>, taught: seq<SubjectTaught>): (r: seq<Course>)
    ensures |r| == |courses|
    decreases |taught|
  {
    if |taught| == 0 then courses else ApplyAll(ApplyTaught(courses, subjects, taught[0]), subjects, taught[1..])
  }

  /** `updateCoursesWithTeacherSubjects`: the stored courses after the teacher's subjects are merged in. */
  function UpdateCoursesWithTeacherSubjects(courses: seq<Course>, subjects: seq<Subject>, teacher: Teacher): (r: seq<Course>)
    ensures |r| == |courses|
  {
    ApplyAllEvolves(courses, subjects, teacher.subjectsTaught, teacher.subjectsTaught);
    ApplyAll(courses, subjects, teacher.subjectsTaught)
  }

  /** The course at `i` is the first one with its id: the one `find` returns. */
  predicate FirstWithId(courses: seq<Course>, i: int) {
    0 <= i < |courses| && forall j :: 0 <= j < i ==> courses[j].id != courses[i].id
  }

  /**
   * An appended entry is backed by an assignment that names the subject and
   * the course, the subject exists, and its hours are the subject's
   * configured, positive hours for the course's level and grade.
   */
  predicate Justified(subjects: seq<Subject>, taught: seq<SubjectTaught>, c: Course, e: CourseSubject) {
    && (exists st :: st in taught && st.subjectId == e.subjectId && c.id in st.courseIds)
    && FindSubject(subjects, e.subjectId).Some?
    && ConfiguredHours(FindSubject(subjects, e.subjectId).value, c.level, c.grade) == Some(e.weeklyHours)
    && e.weeklyHours > 0
  }

  /** The entries at positions `from` onwards repeat no subject listed before them. */
  predicate FreshFrom(entries: seq<CourseSubject>, from: int) {
    forall p, q :: 0 <= q < p < |entries| && from <= p ==> entries[q].subjectId != entries[p].subjectId
  }

  /** `after` is `before` with justified, non-repeating entries appended, and only if it is the first of its id. */
  predicate CourseEvolves(subjects: seq<Subject>, taught: seq<SubjectTaught>, before: seq<Course>, i: int, after: Course)
    requires 0 <= i < |before|
  {
    var c := before[i];
    && after == c.(courseSubjects := after.courseSubjects)
    && c.courseSubjects <= after.courseSubjects
    && (after != c ==> FirstWithId(before, i))
    && FreshFrom(after.courseSubjects, |c.courseSubjects|)
    && forall p :: |c.courseSubjects| <= p < |after.courseSubjects| ==>
         Justified(subjects, taught, c, after.courseSubjects[p])
  }

  predicate Evolves(subjects: seq<Subject>, taught: seq<SubjectTaught>, before: seq<Course>, after: seq<Course>) {
    && |after| == |before|
    && forall i :: 0 <= i < |before| ==> CourseEvolves(subjects, taught, before, i, after[i])
  }

  lemma EvolvesRefl(subjects: seq<Subject>, taught: seq<SubjectTaught>, courses: seq<Course>)
    ensures Evolves(subjects, taught, courses, courses)
  {
  }

  lemma EvolvesTrans(subjects: seq<Subject>, taught: seq<SubjectTaught>, a: seq<Course>, b: seq<Course>, c: seq<Course>)
    requires Evolves(subjects, taught, a, b) && Evolves(subjects, taught, b, c)
    ensures Evolves(subjects, taught, a, c)
  {
    forall i | 0 <= i < |a| ensures CourseEvolves(subjects, taught, a, i, c[i]) {
      assert CourseEvolves(subjects, taught, a, i, b[i]);
      assert CourseEvolves(subjects, taught, b, i, c[i]);
      var x, y, z := a[i].courseSubjects, b[i].courseSubjects, c[i].courseSubjects;
      assert forall p :: |x| <= p < |y| ==> z[p] == y[p];
      if c[i] != a[i] {
        if b[i] == a[i] {
          assert forall j :: 0 <= j < i ==> b[j].id == a[j].id;
        }
      }
    }
  }

  /** Appending one entry for a listed assignment is a justified step. */
  lemma AddToCourseEvolves(subjects: seq<Subject>, taught: seq<SubjectTaught>, st: SubjectTaught,
                           subject: Subject, courses: seq<Course>, courseId: string)
    requires st in taught && courseId in st.courseIds
    requires FindSubject(subjects, st.subjectId) == Some(subject)
    ensures Evolves(subjects, taught, courses, AddToCourse(courses, subject, st.subjectId, courseId))
  {
    var r := AddToCourse(courses, subject, st.subjectId, courseId);
    match Seqs.FindIndex(courses, CourseIdIs(courseId))
    case None =>
    case Some(k) =>
      var c := courses[k];
      if !Lists(c, st.subjectId) && HoursOrZero(subject, c.level, c.grade) > 0 {
        var e := CourseSubject(st.subjectId, HoursOrZero(subject, c.level, c.grade));
        var cs := c.courseSubjects + [e];
        assert r[k].courseSubjects == cs;
        assert Justified(subjects, taught, c, e);
        assert forall q :: 0 <= q < |c.courseSubjects| ==> cs[q].subjectId != e.subjectId;
        assert CourseEvolves(subjects, taught, courses, k, r[k]);
      }
  }

  lemma {:induction false} AddToCoursesEvolves(subjects: seq<Subject>, taught: seq<SubjectTaught>, st: SubjectTaught,
                                               subject: Subject, courses: seq<Course>, courseIds: seq<string>)
    requires st in taught && forall x :: x in courseIds ==> x in st.courseIds
    requires FindSubject(subjects, st.subjectId) == Some(subject)
    ensures Evolves(subjects, taught, courses, AddToCourses(courses, subject, st.subjectId, courseIds))
    decreases |courseIds|
  {
    if |courseIds| == 0 {
      EvolvesRefl(subjects, taught, courses);
    } else {
      var next := AddToCourse(courses, subject, st.subjectId, courseIds[0]);
      AddToCourseEvolves(subjects, taught, st, subject, courses, courseIds[0]);
      AddToCoursesEvolves(subjects, taught, st, subject, next, courseIds[1..]);
      EvolvesTrans(subjects, taught, courses, next, AddToCourses(next, subject, st.subjectId, courseIds[1..]));
    }
  }

  lemma {:induction false} ApplyAllEvolves(courses: seq<Course>, subjects: seq<Subject>,
                                           taught: seq<SubjectTaught>, rest: seq<SubjectTaught>)
    requires forall st :: st in rest ==> st in taught
    ensures Evolves(subjects, taught, courses, ApplyAll(courses, subjects, rest))
    decreases |rest|
  {
    if |rest| == 0 {
      EvolvesRefl(subjects, taught, courses);
    } else {
      var st := rest[0];
      var next := ApplyTaught(courses, subjects, st);
      if |st.courseIds| > 0 && FindSubject(subjects, st.subjectId).Some? {
        AddToCoursesEvolves(subjects, taught, st, FindSubject(subjects, st.subjectId).value, courses, st.courseIds);
      } else {
        EvolvesRefl(subjects, taught, courses);
      }
      ApplyAllEvolves(next, subjects, taught, rest[1..]);
      EvolvesTrans(subjects, taught, courses, next, ApplyAll(next, subjects, rest[1..]));
    }
  }

  /** A listed subject stays listed: entries are only ever appended. */
  lemma EvolvesKeepsLists(subjects: seq<Subject>, taught: seq<SubjectTaught>, before: seq<Course>, after: seq<Course>,
                          i: int, subjectId: string)
    requires Evolves(subjects, taught, before, after) && 0 <= i < |before|
    requires Lists(before[i], subjectId)
    ensures Lists(after[i], subjectId)
  {
    assert CourseEvolves(subjects, taught, before, i, after[i]);
    var k :| 0 <= k < |before[i].courseSubjects| && SubjectIs(subjectId)(before[i].courseSubjects[k]);
    assert after[i].courseSubjects[k] == before[i].courseSubjects[k];
  }

  /** Visiting the id of the first course with that id lists the subject there, given positive hours. */
  lemma {:induction false} AddToCoursesLists(subjects: seq<Subject>, taught: seq<SubjectTaught>, st: SubjectTaught,
                                             subject: Subject, courses: seq<Course>, courseIds: seq<string>, i: int)
    requires st in taught && forall x :: x in courseIds ==> x in st.courseIds
    requires FindSubject(subjects, st.subjectId) == Some(subject)
    requires FirstWithId(courses, i) && courses[i].id in courseIds
    requires HoursOrZero(subject, courses[i].level, courses[i].grade) > 0
    ensures Lists(AddToCourses(courses, subject, st.subjectId, courseIds)[i], st.subjectId)
    decreases |courseIds|
  {
    var next := AddToCourse(courses, subject, st.subjectId, courseIds[0]);
    var final := AddToCourses(next, subject, st.subjectId, courseIds[1..]);
    AddToCourseEvolves(subjects, taught, st, subject, courses, courseIds[0]);
    assert CourseEvolves(subjects, taught, courses, i, next[i]);
    assert FirstWithId(next, i) && next[i].level == courses[i].level && next[i].grade == courses[i].grade;
    if courseIds[0] == courses[i].id {
      var k := Seqs.FindIndex(courses, CourseIdIs(courseIds[0])).value;
      assert k == i;
      if !Lists(courses[i], st.subjectId) {
        var cs := next[i].courseSubjects;
        assert cs[|cs| - 1].subjectId == st.subjectId;
      }
      AddToCoursesEvolves(subjects, taught, st, subject, next, courseIds[1..]);
      EvolvesKeepsLists(subjects, taught, next, final, i, st.subjectId);
    } else {
      AddToCoursesLists(subjects, taught, st, subject, next, courseIds[1..], i);
    }
  }

  /** An assignment naming the first course of an id, for a known subject with positive hours, lists it. */
  lemma {:induction false} ApplyAllLists(courses: seq<Course>, subjects: seq<Subject>,
                                         taught: seq<SubjectTaught>, rest: seq<SubjectTaught>,
                                         st: SubjectTaught, i: int)
    requires forall x :: x in rest ==> x in taught
    requires st in rest && FirstWithId(courses, i) && courses[i].id in st.courseIds
    requires FindSubject(subjects, st.subjectId).Some?
    requires HoursOrZero(FindSubject(subjects, st.subjectId).value, courses[i].level, courses[i].grade) > 0
    ensures Lists(ApplyAll(courses, subjects, rest)[i], st.subjectId)
    decreases |rest|
  {
    var next := ApplyTaught(courses, subjects, rest[0]);
    var final := ApplyAll(next, subjects, rest[1..]);
    if rest[0] == st {
      AddToCoursesLists(subjects, taught, st, FindSubject(subjects, st.subjectId).value, courses, st.courseIds, i);
      ApplyAllEvolves(next, subjects, taught, rest[1..]);
      EvolvesKeepsLists(subjects, taught, next, final, i, st.subjectId);
    } else {
      if |rest[0].courseIds| > 0 && FindSubject(subjects, rest[0].subjectId).Some? {
        AddToCoursesEvolves(subjects, taught, rest[0], FindSubject(subjects, rest[0].subjectId).value,
                            courses, rest[0].courseIds);
      } else {
        EvolvesRefl(subjects, taught, courses);
      }
      assert CourseEvolves(subjects, taught, courses, i, next[i]);
      assert FirstWithId(next, i);
      ApplyAllLists(next, subjects, taught, rest[1..], st, i);
    }
  }

  /** Some assignment of the teacher names this course id. */
  predicate Named(teacher: Teacher, courseId: string) {
    exists st :: st in teacher.subjectsTaught && courseId in st.courseIds
  }

  /** The subject ids of a course are pairwise distinct. */
  predicate DistinctSubjects(c: Course) {
    forall p, q :: 0 <= q < p < |c.courseSubjects| ==> c.courseSubjects[q].subjectId != c.courseSubjects[p].subjectId
  }

  /**
   * The merge only appends: every course keeps its fields and its existing
   * entries; a course no assignment names, or one hidden behind an earlier
   * course with the same id, is untouched; every appended entry comes from an
   * assignment naming the course, carries the subject's configured positive
   * hours, and repeats no subject already listed.
   */
  lemma UpdateOnlyAppends(courses: seq<Course>, subjects: seq<Subject>, teacher: Teacher, i: int)
    requires 0 <= i < |courses|
    ensures var r := UpdateCoursesWithTeacherSubjects(courses, subjects, teacher);
      && r[i] == courses[i].(courseSubjects := r[i].courseSubjects)
      && courses[i].courseSubjects <= r[i].courseSubjects
      && (!Named(teacher, courses[i].id) || !FirstWithId(courses, i) ==> r[i] == courses[i])
      && (forall p :: |courses[i].courseSubjects| <= p < |r[i].courseSubjects| ==>
            Justified(subjects, teacher.subjectsTaught, courses[i], r[i].courseSubjects[p]))
      && (DistinctSubjects(courses[i]) ==> DistinctSubjects(r[i]))
  {
    var r := UpdateCoursesWithTeacherSubjects(courses, subjects, teacher);
    ApplyAllEvolves(courses, subjects, teacher.subjectsTaught, teacher.subjectsTaught);
    assert CourseEvolves(subjects, teacher.subjectsTaught, courses, i, r[i]);
    var n := |courses[i].courseSubjects|;
    if r[i] != courses[i] {
      assert |r[i].courseSubjects| > n;
      assert Justified(subjects, teacher.subjectsTaught, courses[i], r[i].courseSubjects[n]);
    }
    if DistinctSubjects(courses[i]) {
      forall p, q | 0 <= q < p < |r[i].courseSubjects|
        ensures r[i].courseSubjects[q].subjectId != r[i].courseSubjects[p].subjectId
      {
        if p < n {
          assert r[i].courseSubjects[q] == courses[i].courseSubjects[q];
          assert r[i].courseSubjects[p] == courses[i].courseSubjects[p];
        }
      }
    }
  }

  /**
   * The converse: when an assignment names the first course of an id, the
   * subject exists and its configured hours there are positive, the course
   * lists the subject afterwards (newly or already).
   */
  lemma UpdateListsEveryQualifyingSubject(courses: seq<Course>, subjects: seq<Subject>, teacher: Teacher,
                                          st: SubjectTaught, i: int)
    requires st in teacher.subjectsTaught && FirstWithId(courses, i) && courses[i].id in st.courseIds
    requires FindSubject(subjects, st.subjectId).Some?
    requires HoursOrZero(FindSubject(subjects, st.subjectId).value, courses[i].level, courses[i].grade) > 0
    ensures Lists(UpdateCoursesWithTeacherSubjects(courses, subjects, teacher)[i], st.subjectId)
  {
    ApplyAllLists(courses, subjects, teacher.subjectsTaught, teacher.subjectsTaught, st, i);
  }
}
