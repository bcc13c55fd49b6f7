/**
 * The weekly-hours table editor (`components/subject-weekly-hours-config-list.tsx`):
 * changing one cell of a subject's level-by-grade table, and the table's total.
 */
module WeeklyHours {
  import opened Wrappers
  import opened School
  import Seqs

  /** The table after setting one cell; a missing table or level row starts empty. */
  function SetCell(t: Option<HoursTable>, level: Level, grade: Grade, hours: int): HoursTable {
    var table := if t.None? then map[] else t.value;
    var row := if level in table then table[level] else map[];
    table[level := row[grade := hours]]
  }

  /** `handleHoursChange`: every subject with the id gets the cell set; the others are untouched. */
  function HandleHoursChange(subjects: seq<Subject>, subjectId: string, level: Level, grade: Grade, hours: int)
    : (r: seq<Subject>)
    ensures |r| == |subjects|
  {
    seq(|subjects|, i requires 0 <= i < |subjects| =>
      if subjects[i].id == subjectId
      then subjects[i].(hoursTable := Some(SetCell(subjects[i].hoursTable, level, grade, hours)))
      else subjects[i])
  }

  /**
   * After the change the subject reads `hours` at the edited cell and the
   * same as before at every other cell; nothing else about any subject changes.
   */
  lemma HandleHoursChangeSpec(subjects: seq<Subject>, subjectId: string, level: Level, grade: Grade, hours: int)
    ensures var r := HandleHoursChange(subjects, subjectId, level, grade, hours);
      forall i :: 0 <= i < |subjects| ==>
        && r[i].(hoursTable := subjects[i].hoursTable) == subjects[i]
        && (subjects[i].id != subjectId ==> r[i] == subjects[i])
        && (subjects[i].id == subjectId ==>
              && ConfiguredHours(r[i], level, grade) == Some(hours)
              && forall l, g :: (l, g) != (level, grade) ==> ConfiguredHours(r[i], l, g) == ConfiguredHours(subjects[i], l, g))
  {
  }

  /** The sum of a level's grades, each missing entry counted as 0. */
  function GradeTotal(s: Subject, level: Level): int {
    Seqs.SumOver(Grades, (g: Grade) => HoursOrZero(s, level, g))
  }

  /** `calculateTotalHours`: the grades of each level the table has, summed. */
  function CalculateTotalHours(s: Subject): int {
    match s.hoursTable
    case None => 0
    case Some(t) => Seqs.SumOver(Levels, (l: Level) => if l in t then GradeTotal(s, l) else 0)
  }

  /** The cell sum of the whole table: every level and grade, missing entries as 0. */
  function CellSum(s: Subject): int {
    Seqs.SumOver(Levels, (l: Level) => GradeTotal(s, l))
  }

  lemma {:induction false} ZeroSum<K>(ks: seq<K>, f: K -> int)
    requires forall i :: 0 <= i < |ks| ==> f(ks[i]) == 0
    ensures Seqs.SumOver(ks, f) == 0
  {
    if |ks| > 0 {
      ZeroSum(ks[1..], f);
    }
  }

  /** Skipping the levels the table lacks changes nothing: the total is the sum of all cells. */
  lemma TotalIsCellSum(s: Subject)
    ensures CalculateTotalHours(s) == CellSum(s)
  {
    forall l: Level ensures GradeTotal(s, l) == 0 || (s.hoursTable.Some? && l in s.hoursTable.value) {
      if s.hoursTable.None? || l !in s.hoursTable.value {
        ZeroSum(Grades, (g: Grade) => HoursOrZero(s, l, g));
      }
    }
    match s.hoursTable
    case None =>
      ZeroSum(Levels, (l: Level) => GradeTotal(s, l));
    case Some(t) =>
      Seqs.SumOverFrame(Levels, (l: Level) => if l in t then GradeTotal(s, l) else 0, (l: Level) => GradeTotal(s, l));
  }

  lemma Enumerations()
    ensures Seqs.NoDuplicates(Grades) && Seqs.NoDuplicates(Levels)
    ensures forall g: Grade :: g in Grades
    ensures forall l: Level :: l in Levels
  {
    forall g: Grade ensures g in Grades {
      match g
      case Primero => assert Grades[0] == g;
      case Segundo => assert Grades[1] == g;
      case Tercero => assert Grades[2] == g;
      case Cuarto => assert Grades[3] == g;
      case Quinto => assert Grades[4] == g;
      case Sexto => assert Grades[5] == g;
    }
    forall l: Level ensures l in Levels {
      match l
      case Primario => assert Levels[0] == l;
      case Secundario => assert Levels[1] == l;
    }
  }

  /** The subject with one cell set reads the new value there and the old value elsewhere. */
  lemma SetCellReads(s: Subject, level: Level, grade: Grade, hours: int, l: Level, g: Grade)
    ensures var s2 := s.(hoursTable := Some(SetCell(s.hoursTable, level, grade, hours)));
      HoursOrZero(s2, l, g) == if (l, g) == (level, grade) then hours else HoursOrZero(s, l, g)
  {
  }

  /** A level other than the edited one keeps its grade total. */
  lemma OtherLevelTotal(s: Subject, level: Level, grade: Grade, hours: int, l: Level)
    requires l != level
    ensures GradeTotal(s.(hoursTable := Some(SetCell(s.hoursTable, level, grade, hours))), l) == GradeTotal(s, l)
  {
    var s2 := s.(hoursTable := Some(SetCell(s.hoursTable, level, grade, hours)));
    forall i | 0 <= i < |Grades| ensures HoursOrZero(s, l, Grades[i]) == HoursOrZero(s2, l, Grades[i]) {
      SetCellReads(s, level, grade, hours, l, Grades[i]);
    }
    Seqs.SumOverFrame(Grades, (g: Grade) => HoursOrZero(s, l, g), (g: Grade) => HoursOrZero(s2, l, g));
  }

  /** The edited level's grade total moves by the change of the edited cell. */
  lemma EditedLevelTotal(s: Subject, level: Level, grade: Grade, hours: int)
    ensures GradeTotal(s.(hoursTable := Some(SetCell(s.hoursTable, level, grade, hours))), level)
         == GradeTotal(s, level) - HoursOrZero(s, level, grade) + hours
  {
    var s2 := s.(hoursTable := Some(SetCell(s.hoursTable, level, grade, hours)));
    Enumerations();
    forall g: Grade ensures g != grade ==> HoursOrZero(s, level, g) == HoursOrZero(s2, level, g) {
      SetCellReads(s, level, grade, hours, level, g);
    }
    SetCellReads(s, level, grade, hours, level, grade);
    Seqs.SumOverOneChange(Grades, (g: Grade) => HoursOrZero(s, level, g), (g: Grade) => HoursOrZero(s2, level, g), grade);
  }

  /** Changing one cell moves the subject's total by exactly the change of that cell. */
  lemma TotalAfterChange(s: Subject, level: Level, grade: Grade, hours: int)
    ensures var s2 := s.(hoursTable := Some(SetCell(s.hoursTable, level, grade, hours)));
      CalculateTotalHours(s2) == CalculateTotalHours(s) - HoursOrZero(s, level, grade) + hours
  {
    var s2 := s.(hoursTable := Some(SetCell(s.hoursTable, level, grade, hours)));
    TotalIsCellSum(s);
    TotalIsCellSum(s2);
    Enumerations();
    forall l: Level | l != level ensures GradeTotal(s, l) == GradeTotal(s2, l) {
      OtherLevelTotal(s, level, grade, hours, l);
    }
    EditedLevelTotal(s, level, grade, hours);
    Seqs.SumOverOneChange(Levels, (l: Level) => GradeTotal(s, l), (l: Level) => GradeTotal(s2, l), level);
  }

  /** For the edited subject, the list's total moves by the edited cell's change. */
  lemma HandleHoursChangeTotal(subjects: seq<Subject>, subjectId: string, level: Level, grade: Grade, hours: int, i: nat)
    requires i < |subjects|
    ensures var r := HandleHoursChange(subjects, subjectId, level, grade, hours);
      && (subjects[i].id == subjectId ==>
            CalculateTotalHours(r[i]) == CalculateTotalHours(subjects[i]) - HoursOrZero(subjects[i], level, grade) + hours)
      && (subjects[i].id != subjectId ==> CalculateTotalHours(r[i]) == CalculateTotalHours(subjects[i]))
  {
    TotalAfterChange(subjects[i], level, grade, hours);
  }
}
