/**
 * The records of the school (the shared type file `types/index.ts`) and the
 * derived notions several screens use: the configured weekly hours of a
 * subject, the subjects a new course starts with, and the display order of
 * courses.
 */
module School {
  import opened Wrappers
  import Seqs

  datatype Level = Primario | Secundario
  datatype Grade = Primero | Segundo | Tercero | Cuarto | Quinto | Sexto
  datatype Section = A | B | C | D | E
  datatype Day = Lunes | Martes | Miercoles | Jueves | Viernes

  const Levels: seq<Level> := [Primario, Secundario]
  const Grades: seq<Grade> := [Primero, Segundo, Tercero, Cuarto, Quinto, Sexto]
  const Sections: seq<Section> := [A, B, C, D, E]
  /** The generator's `DAYS`, Monday to Friday. */
  const Days: seq<Day> := [Lunes, Martes, Miercoles, Jueves, Viernes]

  datatype Priority = Alta | Media | Baja

  /** `weeklyHoursByLevelAndGrade`: level, then grade, to hours; both layers partial. */
  type HoursTable = map<Level, map<Grade, int>>

  datatype Subject = Subject(
    id: string,
    name: string,
    shortCode: Option<string>,
    priority: Priority,
    hoursTable: Option<HoursTable>)

  datatype CourseSubject = CourseSubject(subjectId: string, weeklyHours: int)

  datatype Course = Course(
    id: string,
    level: Level,
    grade: Grade,
    section: Section,
    studentList: string,
    homeroomTeacherId: string,
    courseSubjects: seq<CourseSubject>)

  /** A block of the daily grid; times are minutes since midnight. */
  datatype TimeSlot = TimeSlot(id: string, name: string, startTime: nat, endTime: nat)

  /** A window in which a teacher cannot teach. */
  datatype Restriction = Restriction(id: string, day: Day, startTime: nat, endTime: nat, reason: string)

  /** The teacher kinds of `types/index.ts`. */
  datatype TeacherType = Titular | Rotacion | Mixto

  datatype SubjectTaught = SubjectTaught(subjectId: string, weeklyHoursAssigned: int, courseIds: seq<string>)

  datatype Teacher = Teacher(
    id: string,
    fullName: string,
    subjectsTaught: seq<SubjectTaught>,
    weeklyLoad: int,
    restrictions: seq<Restriction>,
    teacherType: TeacherType,
    homeroomCourseId: Option<string>)

  // ---------------------------------------------------------------------
  // Configured weekly hours
  // ---------------------------------------------------------------------

  /** `subject.weeklyHoursByLevelAndGrade?.[level]?.[grade]`. */
  function ConfiguredHours(s: Subject, level: Level, grade: Grade): Option<int> {
    match s.hoursTable
    case None => None
    case Some(t) =>
      if level in t && grade in t[level] then Some(t[level][grade]) else None
  }

  /** The same lookup followed by `|| 0`: a missing entry counts as zero. */
  function HoursOrZero(s: Subject, level: Level, grade: Grade): int {
    match ConfiguredHours(s, level, grade)
    case None => 0
    case Some(h) => h
  }

  /** The entry a new course receives for a subject configured at its level and grade. */
  function AutoEntry(s: Subject, level: Level, grade: Grade): CourseSubject {
    CourseSubject(s.id, HoursOrZero(s, level, grade))
  }

  /**
   * The subjects a new course starts with: every subject with a defined entry
   * (zero included) for the level and grade, in subject order, with its hours.
   */
  function AutoSubjects(subjects: seq<Subject>, level: Level, grade: Grade): seq<CourseSubject> {
    if |subjects| == 0 then []
    else
      (if ConfiguredHours(subjects[0], level, grade).Some? then [AutoEntry(subjects[0], level, grade)] else [])
      + AutoSubjects(subjects[1..], level, grade)
  }

  /**
   * `AutoSubjects` is a homomorphism of lists; with the one-subject case below
   * this fixes it completely: order is subject order.
   */
  lemma {:induction false} AutoSubjectsAppend(a: seq<Subject>, b: seq<Subject>, level: Level, grade: Grade)
    ensures AutoSubjects(a + b, level, grade) == AutoSubjects(a, level, grade) + AutoSubjects(b, level, grade)
  {
    if |a| > 0 {
      assert (a + b)[1..] == a[1..] + b;
      AutoSubjectsAppend(a[1..], b, level, grade);
    } else {
      assert a + b == b;
    }
  }

  /** A single subject contributes its entry exactly when it is configured. */
  lemma AutoSubjectsSingle(s: Subject, level: Level, grade: Grade)
    ensures AutoSubjects([s], level, grade)
         == if ConfiguredHours(s, level, grade).Some? then [CourseSubject(s.id, HoursOrZero(s, level, grade))] else []
  {
    assert [s][1..] == [];
  }

  /** Every entry comes from a configured subject, and every configured subject has its entry. */
  lemma {:induction false} AutoSubjectsMembers(subjects: seq<Subject>, level: Level, grade: Grade)
    ensures forall e :: e in AutoSubjects(subjects, level, grade) ==>
      exists i :: 0 <= i < |subjects| && ConfiguredHours(subjects[i], level, grade).Some?
                  && e == AutoEntry(subjects[i], level, grade)
    ensures forall i :: 0 <= i < |subjects| && ConfiguredHours(subjects[i], level, grade).Some? ==>
      AutoEntry(subjects[i], level, grade) in AutoSubjects(subjects, level, grade)
  {
    if |subjects| > 0 {
      var rest := subjects[1..];
      AutoSubjectsMembers(rest, level, grade);
      forall e | e in AutoSubjects(subjects, level, grade)
        ensures exists i :: 0 <= i < |subjects| && ConfiguredHours(subjects[i], level, grade).Some?
                  && e == AutoEntry(subjects[i], level, grade)
      {
        if e !in AutoSubjects(rest, level, grade) {
          assert ConfiguredHours(subjects[0], level, grade).Some? && e == AutoEntry(subjects[0], level, grade);
        } else {
          var i :| 0 <= i < |rest| && ConfiguredHours(rest[i], level, grade).Some? && e == AutoEntry(rest[i], level, grade);
          assert subjects[i + 1] == rest[i];
        }
      }
      forall i | 0 <= i < |subjects| && ConfiguredHours(subjects[i], level, grade).Some?
        ensures AutoEntry(subjects[i], level, grade) in AutoSubjects(subjects, level, grade)
      {
        if i > 0 {
          assert subjects[i] == rest[i - 1];
        }
      }
    }
  }

  // ---------------------------------------------------------------------
  // Lookups by id: `list.find((x) => x.id === id)`
  // ---------------------------------------------------------------------

  function SubjectIdIs(id: string): Subject -> bool { (s: Subject) => s.id == id }
  function CourseIdIs(id: string): Course -> bool { (c: Course) => c.id == id }
  function TeacherIdIs(id: string): Teacher -> bool { (t: Teacher) => t.id == id }

  function FindSubject(subjects: seq<Subject>, id: string): (r: Option<Subject>)
    ensures r.Some? ==> r.value.id == id && r.value in subjects
    ensures r.None? <==> forall i :: 0 <= i < |subjects| ==> subjects[i].id != id
  {
    Seqs.Find(subjects, SubjectIdIs(id))
  }

  function FindCourse(courses: seq<Course>, id: string): (r: Option<Course>)
    ensures r.Some? ==> r.value.id == id && r.value in courses
    ensures r.None? <==> forall i :: 0 <= i < |courses| ==> courses[i].id != id
  {
    Seqs.Find(courses, CourseIdIs(id))
  }

  function FindTeacher(teachers: seq<Teacher>, id: string): (r: Option<Teacher>)
    ensures r.Some? ==> r.value.id == id && r.value in teachers
    ensures r.None? <==> forall i :: 0 <= i < |teachers| ==> teachers[i].id != id
  {
    Seqs.Find(teachers, TeacherIdIs(id))
  }

  // ---------------------------------------------------------------------
  // Display order of courses: level, then grade, then section
  // ---------------------------------------------------------------------

  /** The string values of the enumerations, as stored and displayed. */
  function LevelName(l: Level): string {
    match l
    case Primario => "Primario"
    case Secundario => "Secundario"
  }

  function GradeName(g: Grade): string {
    match g
    case Primero => "Primero"
    case Segundo => "Segundo"
    case Tercero => "Tercero"
    case Cuarto => "Cuarto"
    case Quinto => "Quinto"
    case Sexto => "Sexto"
  }

  function SectionName(s: Section): string {
    match s
    case A => "A"
    case B => "B"
    case C => "C"
    case D => "D"
    case E => "E"
  }

  /** `getLevelOrder` / `levelOrderMap`. */
  function LevelOrder(l: Level): int {
    if l == Primario then 1 else 2
  }

  /** `getGradeOrder` / `gradeMap`. */
  function GradeOrder(g: Grade): int {
    match g
    case Primero => 1
    case Segundo => 2
    case Tercero => 3
    case Cuarto => 4
    case Quinto => 5
    case Sexto => 6
  }

  /** `localeCompare` on the one-letter section names "A" to "E". */
  function SectionOrder(s: Section): int {
    match s
    case A => 1
    case B => 2
    case C => 3
    case D => 4
    case E => 5
  }

  /**
   * The comparator both course lists pass to `sort`: negative when the first
   * triple comes first.
   */
  function CompareTriples(l1: Level, g1: Grade, s1: Section, l2: Level, g2: Grade, s2: Section): int {
    var levelComparison := LevelOrder(l1) - LevelOrder(l2);
    if levelComparison != 0 then levelComparison
    else
      var gradeComparison := GradeOrder(g1) - GradeOrder(g2);
      if gradeComparison != 0 then gradeComparison
      else SectionOrder(s1) - SectionOrder(s2)
  }

  /** One integer per (level, grade, section), 0 to 59, in comparator order. */
  function TripleRank(l: Level, g: Grade, s: Section): int {
    (LevelOrder(l) - 1) * 30 + (GradeOrder(g) - 1) * 5 + (SectionOrder(s) - 1)
  }

  /**
   * Sorting by the rank sorts by the comparator: the rank order and the
   * comparator agree in sign, and equal ranks mean equal triples.
   */
  lemma RankMatchesComparator(l1: Level, g1: Grade, s1: Section, l2: Level, g2: Grade, s2: Section)
    ensures CompareTriples(l1, g1, s1, l2, g2, s2) < 0 <==> TripleRank(l1, g1, s1) < TripleRank(l2, g2, s2)
    ensures CompareTriples(l1, g1, s1, l2, g2, s2) > 0 <==> TripleRank(l1, g1, s1) > TripleRank(l2, g2, s2)
    ensures TripleRank(l1, g1, s1) == TripleRank(l2, g2, s2) <==> (l1, g1, s1) == (l2, g2, s2)
  {
  }

  function CourseRank(c: Course): int {
    TripleRank(c.level, c.grade, c.section)
  }
}
