/**
 * The records of `lib/types.ts`, the type file the teacher form uses. It
 * differs from `types/index.ts` in the teacher kinds (four, with "fijo"
 * and "dos_niveles"), in making the qualification lists optional and in an
 * optional teacher on each course subject. The enumerations, subjects and
 * restrictions coincide with the shared ones and are reused.
 */
module LibTypes {
  import opened Wrappers
  import School
  import Seqs

  datatype TeacherType = Fijo | Rotacion | DosNiveles | Mixto

  datatype CourseSubject = CourseSubject(subjectId: string, weeklyHours: int, teacherId: Option<string>)

  datatype Course = Course(
    id: string,
    level: School.Level,
    grade: School.Grade,
    section: School.Section,
    studentList: string,
    homeroomTeacherId: string,
    courseSubjects: seq<CourseSubject>)

  datatype SubjectTaught = SubjectTaught(subjectId: string, weeklyHoursAssigned: int, courseIds: seq<string>)

  datatype Teacher = Teacher(
    id: string,
    fullName: string,
    email: Option<string>,
    phone: Option<string>,
    specialty: Option<string>,
    subjectsTaught: seq<SubjectTaught>,
    weeklyLoad: int,
    restrictions: seq<School.Restriction>,
    teacherType: TeacherType,
    qualifiedLevels: Option<seq<School.Level>>,
    qualifiedGrades: Option<seq<School.Grade>>,
    qualifiedSections: Option<seq<School.Section>>,
    homeroomCourseId: Option<string>)

  function CourseIdIs(id: string): Course -> bool {
    (c: Course) => c.id == id
  }

  /** `courses.find((c) => c.id === id)`. */
  function FindCourse(courses: seq<Course>, id: string): (r: Option<Course>)
    ensures r.Some? ==> r.value.id == id && r.value in courses
    ensures r.None? <==> forall i :: 0 <= i < |courses| ==> courses[i].id != id
  {
    Seqs.Find(courses, CourseIdIs(id))
  }

  /** The display rank of a course: level, then grade, then section. */
  function CourseRank(c: Course): int {
    School.TripleRank(c.level, c.grade, c.section)
  }
}
