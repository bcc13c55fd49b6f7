/**
 * The logic of the course list (`components/course-list.tsx`): the summary
 * counts, the "complete" and "problem" marks of a course card, and the order
 * in which the cards are shown.
 */
module CourseList {
  import opened School
  import Wrappers
  import Seqs
  import HourPool
  import CourseForm

  /** The total of a course's weekly hours. */
  function TotalHours(c: Course): int {
    HourPool.SumHours(c.courseSubjects)
  }

  /** A card is marked as a problem when the total is not exactly 40 or no homeroom teacher is set. */
  predicate HasProblem(c: Course) {
    TotalHours(c) != CourseForm.MaxWeeklyHours || c.homeroomTeacherId == ""
  }

  /** A card is marked complete when the total is exactly 40 and a homeroom teacher is set. */
  predicate IsComplete(c: Course) {
    TotalHours(c) == CourseForm.MaxWeeklyHours && c.homeroomTeacherId != ""
  }

  /** Every card carries exactly one of the two marks. */
  lemma CompleteIffNoProblem(c: Course)
    ensures IsComplete(c) <==> !HasProblem(c)
  {
  }

  /**
   * A course saved by the course form passes its 40-hour ceiling, so its
   * card shows a problem exactly when its hours fall short of 40.
   */
  lemma SavedCourseProblem(f: CourseForm.Form, initial: Wrappers.Option<Course>, freshId: string)
    requires CourseForm.Valid(f)
    ensures CourseForm.Submit(f, initial, freshId).Ok?
    ensures HasProblem(CourseForm.Submit(f, initial, freshId).value)
        <==> HourPool.SumHours(f.rows) < CourseForm.MaxWeeklyHours
  {
    CourseForm.SubmittedCourse(f, initial, freshId);
  }

  function IsPrimario(c: Course): bool { c.level == Primario }
  function IsSecundario(c: Course): bool { c.level == Secundario }

  /** The four figures of the summary bar. */
  datatype Summary = Summary(totalCourses: nat, primariaCount: nat, secundariaCount: nat, coursesWithProblems: nat)

  function Summarize(courses: seq<Course>): (r: Summary)
    ensures r.totalCourses == |courses|
  {
    Summary(
      |courses|,
      |Seqs.Filter(courses, IsPrimario)|,
      |Seqs.Filter(courses, IsSecundario)|,
      |Seqs.Filter(courses, (c: Course) => HasProblem(c))|)
  }

  /**
   * The level counts split the total, and the problem count plus the
   * complete cards make up the total.
   */
  lemma SummarySpec(courses: seq<Course>)
    ensures var r := Summarize(courses);
      && r.primariaCount + r.secundariaCount == r.totalCourses
      && r.coursesWithProblems + |Seqs.Filter(courses, (c: Course) => IsComplete(c))| == r.totalCourses
      && r.coursesWithProblems <= r.totalCourses
  {
    Seqs.FilterComplement(courses, IsPrimario, IsSecundario);
    Seqs.FilterComplement(courses, (c: Course) => HasProblem(c), (c: Course) => IsComplete(c));
  }

  /** A course list with no problem cards is exactly a list whose every course is complete. */
  lemma NoProblemsIffAllComplete(courses: seq<Course>)
    ensures Summarize(courses).coursesWithProblems == 0 <==> forall i :: 0 <= i < |courses| ==> IsComplete(courses[i])
  {
    Seqs.FilterEmpty(courses, (c: Course) => HasProblem(c));
  }

  /** The cards in display order: `sort` with the level, grade, section comparator. */
  function DisplayOrder(courses: seq<Course>): (r: seq<Course>)
    ensures |r| == |courses|
  {
    Seqs.SortBy(courses, CourseRank)
  }

  /**
   * The display order is a permutation of the list ordered by the
   * comparator, and courses with the same level, grade and section keep their
   * relative order.
   */
  lemma DisplayOrderSpec(courses: seq<Course>, l: Level, g: Grade, s: Section)
    ensures var r := DisplayOrder(courses);
      && multiset(r) == multiset(courses)
      && (forall i, j :: 0 <= i < j < |r| ==>
            CompareTriples(r[i].level, r[i].grade, r[i].section, r[j].level, r[j].grade, r[j].section) <= 0)
      && Seqs.Filter(r, Seqs.KeyIs(CourseRank, TripleRank(l, g, s)))
         == Seqs.Filter(courses, Seqs.KeyIs(CourseRank, TripleRank(l, g, s)))
  {
    var r := DisplayOrder(courses);
    Seqs.SortBySpec(courses, CourseRank);
    Seqs.SortByStable(courses, CourseRank, TripleRank(l, g, s));
    forall i, j | 0 <= i < j < |r|
      ensures CompareTriples(r[i].level, r[i].grade, r[i].section, r[j].level, r[j].grade, r[j].section) <= 0
    {
      RankMatchesComparator(r[i].level, r[i].grade, r[i].section, r[j].level, r[j].grade, r[j].section);
    }
  }
}
