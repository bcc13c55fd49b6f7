/**
 * The reports page (`app/reports/page.tsx`): the course filter by level,
 * grade and section, and the list of students shown on a course card.
 */
module Reports {
  import opened Wrappers
  import opened School
  import Seqs
  import Text

  /** A filter choice: "all", or one value. */
  datatype Choice<T> = All | Only(value: T)

  predicate Matches<T(==)>(choice: Choice<T>, x: T) {
    choice.All? || choice.value == x
  }

  predicate Selected(level: Choice<Level>, grade: Choice<Grade>, section: Choice<Section>, c: Course) {
    Matches(level, c.level) && Matches(grade, c.grade) && Matches(section, c.section)
  }

  /** `filteredCourses`. */
  function FilterCourses(courses: seq<Course>, level: Choice<Level>, grade: Choice<Grade>, section: Choice<Section>)
    : seq<Course>
  {
    Seqs.Filter(courses, (c: Course) => Selected(level, grade, section, c))
  }

  /**
   * The filter keeps exactly the courses that match every choice, in their
   * stored order; choosing "all" three times keeps the whole list.
   */
  lemma FilterCoursesSpec(courses: seq<Course>, level: Choice<Level>, grade: Choice<Grade>, section: Choice<Section>)
    ensures var r := FilterCourses(courses, level, grade, section);
      && (forall c :: c in r <==> c in courses && Selected(level, grade, section, c))
      && Seqs.IsSubsequence(r, courses)
      && (level.All? && grade.All? && section.All? ==> r == courses)
  {
    var p := (c: Course) => Selected(level, grade, section, c);
    Seqs.FilterIsSubsequence(courses, p);
    if level.All? && grade.All? && section.All? {
      Seqs.FilterKeepsAll(courses, p);
    }
  }

  /** Narrowing a choice from "all" to one value only drops the courses of other values. */
  lemma FilterNarrowing(courses: seq<Course>, l: Level, grade: Choice<Grade>, section: Choice<Section>)
    ensures var wide := FilterCourses(courses, All, grade, section);
      FilterCourses(courses, Only(l), grade, section) == Seqs.Filter(wide, (c: Course) => c.level == l)
  {
    var wide := (c: Course) => Selected(All, grade, section, c);
    var level := (c: Course) => c.level == l;
    Seqs.FilterFilter(courses, wide, level, (c: Course) => Selected(Only(l), grade, section, c));
  }

  /**
   * The students shown on a card: nothing (the "no students" note) for an
   * empty list, otherwise one trimmed entry per line.
   */
  function StudentLines(studentList: string): (r: Option<seq<string>>)
    ensures r.None? <==> studentList == ""
  {
    if studentList == "" then None
    else
      var segments := Text.Split(studentList, '\n');
      Some(seq(|segments|, i requires 0 <= i < |segments| => Text.Trim(segments[i])))
  }

  /**
   * A non-empty list shows one entry per line — one more than its line
   * breaks — and each entry is the trim of a segment; the segments, joined
   * with line breaks, are the stored text.
   */
  lemma StudentLinesSpec(studentList: string)
    requires studentList != ""
    ensures var segments := Text.Split(studentList, '\n');
      var lines := StudentLines(studentList).value;
      && |lines| == multiset(studentList)['\n'] + 1
      && Text.Join(segments, '\n') == studentList
      && (forall i :: 0 <= i < |segments| ==> '\n' !in segments[i] && lines[i] == Text.Trim(segments[i]))
  {
    Text.JoinSplit(studentList, '\n');
    Text.SplitSegments(studentList, '\n');
  }
}
