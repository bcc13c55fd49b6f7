# Horario escolar — a Dafny model of the timetable core

This project models the logic of a school timetabling application. Its
users record:

- teachers, with the subjects and courses they teach and the times they are
  unavailable;
- courses, one per level, grade and section, each with the weekly hours of
  each subject;
- subjects, with the weekly hours each level and grade should receive;
- the daily time slots.

The centre of the model is the timetable generator of
`app/schedule-generation/page.tsx`. It turns each course's weekly hours into
one-hour units and gives every unit the first teacher who teaches that
subject in that course. It then walks each course's Monday–Friday × slot
grid and puts into each cell the first remaining unit whose teacher is free
and not restricted there. Cells that get no unit are marked "libre". Teacher
grids are shared by all courses, so a teacher is never placed twice at the
same time.

Around the generator sit the routines that feed it:

- In `lib/db.ts`: the version-6 upgrade of stored subjects, the derivation
  of the 60 courses, and the merge of a teacher's subjects into the courses.
- The validators and row editors of the teacher, course, time-slot and
  teacher-name forms.
- The course summary and ordering, the weekly-hours table, the multi-select
  toggle, and the report filter.

Everything is a pure function over immutable datatypes. Times are minutes
since midnight (`Clock`). `Clock.FormatOrder` proves that the zero-padded
`"HH:MM"` strings the source compares order exactly like the minutes. The
model follows the code. The generator is one deterministic greedy pass: it
has no priorities, no randomness or retries, no per-day or per-slot limit
and no pre-flight check.

Modules, one concept each:

| module | file | models |
|---|---|---|
| `Wrappers` | wrappers.dfy | `Option` / `Result` |
| `Seqs` | seqs.dfy | `find`, `filter`, `filter((_, i) => i !== index)`, stable sort |
| `Text` | text.dfy | `trim`, case mapping, `split` / `join` |
| `Clock` | clock.dfy | `"HH:MM"` text and its order |
| `School` | school.dfy | the types of `types/index.ts`, lookups, configured hours, display order |
| `LibTypes` | lib_types.dfy | the types of `lib/types.ts` used by the teacher form |
| `Restrictions` | restrictions.dfy | `checkTeacherRestrictions` |
| `HourPool` | hourpool.dfy | `subjectPool`, `assignmentPool`, `courseAssignments` |
| `Placement` | placement.dfy | the day × slot fill of one course |
| `Generation` | generation.dfy | `generateSchedules` |
| `SlotOrder` | slot_order.dfy | the slot sort on load |
| `CourseDb` | course_db.dfy | the three derivations of `lib/db.ts` |
| `TeacherForm` | teacher_form.dfy | `components/teacher-form.tsx` |
| `CourseForm` | course_form.dfy | `components/course-form.tsx` |
| `CourseList` | course_list.dfy | `components/course-list.tsx` |
| `WeeklyHours` | weekly_hours.dfy | `components/subject-weekly-hours-config-list.tsx` |
| `TeacherNames` | teacher_names.dfy | `components/predefined-teacher-names-form.tsx` |
| `TimeSlots` | time_slots.dfy | `components/subject-time-slots-form.tsx` |
| `MultiSelect` | multi_select.dfy | `components/multi-select.tsx` |
| `Reports` | reports.dfy | `app/reports/page.tsx` |

## Model

| member | source | states |
|---|---|---|
| Restrictions.CheckTeacherRestrictions | app/schedule-generation/page.tsx:73-91 | an empty list allows every slot; the check fails exactly when some restriction on the list strictly overlaps the slot on the same day |
| Restrictions.OtherDaysIgnored | app/schedule-generation/page.tsx:76-77 | restrictions on other days never matter: the answer equals the answer for that day's restrictions alone |
| Restrictions.TouchingNeverBlocks | app/schedule-generation/page.tsx:85 | an interval that only touches the slot (one ends where the other starts) never blocks |
| Restrictions.OverlapAgreesWithText | app/schedule-generation/page.tsx:79-85 | on well-formed times, the overlap test on "HH:MM" strings agrees with the test on minutes |
| Clock.FormatOrder | app/schedule-generation/page.tsx:85 | string order of zero-padded "HH:MM" equals numeric order of the minutes |
| Clock.FormatInjective | app/schedule-generation/page.tsx:85 | distinct times of day have distinct "HH:MM" texts |
| HourPool.CourseItemsCount | app/schedule-generation/page.tsx:113-120 | a course contributes, for each subject, exactly as many items as its entries list hours for it, and as many items in all as its total hours |
| HourPool.AssignItemFirstTeacher | app/schedule-generation/page.tsx:123-126 | an item is kept iff some teacher teaches its subject in its course and the first such teacher has a non-empty id; it then carries that first teacher's id |
| HourPool.AssignmentPoolAppend | app/schedule-generation/page.tsx:123-126 | routing the items of two lists is routing each list in turn, so the pool keeps course order and then entry order |
| HourPool.CourseAssignmentsOfPool | app/schedule-generation/page.tsx:136 | filtering the pool by a course id recovers exactly that course's routed units, in order, when no other course has its id |
| Placement.PositionsOrder | app/schedule-generation/page.tsx:138-139 | cells are visited day-major: Monday's slots in order, then Tuesday's, and so on, 5 × the slot count in all |
| Placement.PositionsCover | app/schedule-generation/page.tsx:138-139 | every day × slot cell is visited, and only those |
| Placement.PositionsDistinct | app/schedule-generation/page.tsx:138-139 | with distinct slot ids no cell is visited twice |
| Placement.PlaceCell | app/schedule-generation/page.tsx:140-175 | only the visited cell changes; it becomes "libre" with teacher grids and remaining units untouched, or a one-hour lesson whose teacher was free and unrestricted there, mirrored in that teacher's grid, with exactly that unit spliced out |
| Placement.PlaceCellGreedy | app/schedule-generation/page.tsx:140-169 | the cell gets a lesson iff some remaining unit is placeable there, and then it is the first such unit in list order, removed at its index |
| Placement.FillExtends | app/schedule-generation/page.tsx:158-163 | a course's fill only adds teacher entries and never overwrites one |
| Placement.FillGrid | app/schedule-generation/page.tsx:134-175 | from an empty grid, the fill writes exactly the visited cells, each a one-hour lesson or "libre" with an empty teacher id |
| Placement.FillRestrictions | app/schedule-generation/page.tsx:147 | every lesson cell the fill writes has a known teacher whose restriction check passes for that day and slot |
| Placement.FillConservation | app/schedule-generation/page.tsx:136-168 | as multisets, the course's starting units equal the units still remaining plus those its lesson cells consumed |
| Generation.GenerateSchedules | app/schedule-generation/page.tsx:106-185 | one course schedule per course and one teacher schedule per teacher, in input order, with their ids and names; success is reported whatever was left unplaced |
| Generation.SchedulesComplete | app/schedule-generation/page.tsx:134-177 | every course has a cell for every day and slot and no other cell; each cell is a one-hour lesson or "libre" with an empty teacher id |
| Generation.NoDoubleBooking | app/schedule-generation/page.tsx:106-163 | no teacher has lessons in two different courses at the same day and slot |
| Generation.RestrictionsRespected | app/schedule-generation/page.tsx:144-147 | each lesson's teacher is a known teacher whose restriction check passes at that day and slot |
| Generation.ViewsAgree | app/schedule-generation/page.tsx:150-163 | every lesson appears, mirrored with course and subject, in the schedule of its teacher; every teacher entry comes from such a lesson |
| Generation.UnitsConserved | app/schedule-generation/page.tsx:136-185 | a course's routed units are, as a multiset, the lessons placed for it plus the leftover units, which are discarded silently |
| SlotOrder.SortSlotsSpec | app/schedule-generation/page.tsx:60 | sorting keeps the same slots, no slot's start text sorts before an earlier slot's, and slots with the same start keep their loaded order |
| School.AutoSubjectsMembers | lib/db.ts:244-249 | a new course's entries are exactly the subjects with a defined hours entry for its level and grade, zero included, with those hours |
| School.AutoSubjectsAppend | lib/db.ts:244-249 | auto-population works subject by subject, so the entries follow subject order |
| School.RankMatchesComparator | components/teacher-form.tsx:115-128 | the level/grade/section rank agrees in sign with the form's comparator and is injective on triples |
| CourseDb.UpgradeSubject | lib/db.ts:54-70 | a subject without a table gets the all-zero 2 × 6 table; one without a short code gets its first two characters with ASCII letters upper-cased; fields already present are kept |
| CourseDb.UpgradeIdempotent | lib/db.ts:54-70 | upgrading an upgraded subject changes nothing |
| CourseDb.AllTriplesRanked | lib/db.ts:225-233 | the loops visit 2 × 6 × 5 = 60 triples, the k-th being the one of rank k |
| CourseDb.GenerateAllCourses | lib/db.ts:229-267 | 60 courses in level, grade, section order, each the first stored course of its triple or a new course for it |
| CourseDb.GenerateAllCoursesPerTriple | lib/db.ts:234-263 | for each triple, the course at its rank is the only one of that triple; a stored triple is returned unchanged; otherwise the course is new with no students, the first teacher (or "") as homeroom and the auto-populated subjects |
| CourseDb.UpdateOnlyAppends | lib/db.ts:357-394 | the merge only appends: course fields and existing entries are kept; a course no assignment names is untouched; each new entry is a known subject not yet listed, with positive configured hours and those hours |
| CourseDb.UpdateListsEveryQualifyingSubject | lib/db.ts:363-386 | when an assignment names a course, the subject exists and its configured hours there are positive, the course lists the subject afterwards |
| TeacherForm.SortedCoursesSpec | components/teacher-form.tsx:115-128 | the sorted courses are a permutation of the stored ones, ordered by level, grade and section |
| TeacherForm.SortedCoursesStable | components/teacher-form.tsx:115-128 | courses with the same level, grade and section keep their stored order |
| TeacherForm.AvailableCoursesSpec | components/teacher-form.tsx:131-145 | a "fijo" teacher is offered exactly the homeroom course if it exists; any other teacher is offered exactly the courses whose level, grade and section each pass their list (empty or containing it), sorted |
| TeacherForm.CalculateHoursForCourses | components/teacher-form.tsx:148-162 | zero for an unknown or unconfigured subject |
| TeacherForm.CalculateHoursAppend | components/teacher-form.tsx:154-161 | the suggested hours of two course lists add up |
| TeacherForm.CalculateHoursSingle | components/teacher-form.tsx:154-161 | a single course contributes the configured hours of its level and grade, zero when missing or unknown |
| TeacherForm.UnknownCoursesIgnored | components/teacher-form.tsx:156-157 | course ids that name no course contribute nothing |
| TeacherForm.WeeklyLoadUpdate | components/teacher-form.tsx:165-167 | replacing a row changes the load by exactly the difference in that row's hours |
| TeacherForm.AddAssignmentLoad | components/teacher-form.tsx:169-171 | a new row has no hours, so the load is unchanged, and removing it restores the rows |
| TeacherForm.RemoveAssignmentLoad | components/teacher-form.tsx:173-175 | removing a row takes exactly its hours out of the load |
| TeacherForm.ChangeAssignment | components/teacher-form.tsx:177-205 | only the edited row changes: a new subject clears courses and hours, new courses set the suggested hours, new hours are taken as typed (empty as 0) |
| TeacherForm.ChangeAssignmentLoad | components/teacher-form.tsx:165-205 | after any row edit the load moves by exactly that row's change in hours |
| TeacherForm.RowErrorsSound | components/teacher-form.tsx:218-228 | every row message names a row that fails that check |
| TeacherForm.RowErrorsComplete | components/teacher-form.tsx:218-228 | every failing check of every row is reported with its row number |
| TeacherForm.FormErrorsGeneral | components/teacher-form.tsx:211-216 | a blank name and an empty row list are each reported iff they occur |
| TeacherForm.FormErrorsKind | components/teacher-form.tsx:230-246 | a rotating type with an empty qualification list, and a "fijo" or "mixto" teacher without a homeroom, are each reported iff they occur |
| TeacherForm.SubmitOkIffValid | components/teacher-form.tsx:207-252 | the teacher is saved iff there are no messages iff the form is valid |
| TeacherForm.SubmittedTeacher | components/teacher-form.tsx:254-272 | the saved teacher keeps the id or takes the fresh one, has the name, type, restrictions, email, phone and specialty as entered and the rows, a positive load, empty qualifications for "fijo", and a homeroom only for "fijo" and "mixto" |
| CourseForm.AutoPopulateSpec | components/course-form.tsx:59-71 | a new course with no rows gets the auto-populated subjects; otherwise nothing changes; applying it twice is applying it once |
| CourseForm.RemoveAddedRow | components/course-form.tsx:73-79 | removing the row just added restores the form |
| CourseForm.RemoveRowTotal | components/course-form.tsx:77-79 | removing a row takes exactly its hours out of the total |
| CourseForm.ChangeSubjectSpec | components/course-form.tsx:81-100 | choosing a subject sets that row's hours to the configured hours for the form's level and grade, 0 if missing |
| CourseForm.ChangeRowTotal | components/course-form.tsx:81-100 | only the edited row changes, and the total moves by exactly its change in hours |
| CourseForm.FormErrorsTotal | components/course-form.tsx:106-115 | a total above 40 and a negative total are each reported iff they occur; exactly 40 passes |
| CourseForm.FormErrorsNegativeRows | components/course-form.tsx:118-121 | each negative row is reported with its number, and only those |
| CourseForm.FormErrorsRowsWithoutSubject | components/course-form.tsx:122-125 | each row without a subject is reported with its number, and only those |
| CourseForm.FormErrorsHomeroom | components/course-form.tsx:127-129 | a missing homeroom teacher is reported iff it is missing |
| CourseForm.SubmitOkIffValid | components/course-form.tsx:102-150 | the course is saved iff there are no messages iff the form is valid |
| CourseForm.SubmittedCourse | components/course-form.tsx:131-149 | the saved course keeps its level, grade, section, students, homeroom and rows in order, under the old or the fresh id |
| CourseForm.EditRoundTrip | components/course-form.tsx:28-149 | opening a valid stored course and saving it unchanged gives back the same course |
| CourseList.CompleteIffNoProblem | components/course-list.tsx:188-190 | a card is complete exactly when it has no problem |
| CourseList.SavedCourseProblem | components/course-list.tsx:56-60 | for a course the form accepted, a problem means fewer than 40 hours |
| CourseList.SummarySpec | components/course-list.tsx:52-68 | the total is the list length, primary plus secondary counts make the total, and the problem count and the number of complete courses add up to the total |
| CourseList.NoProblemsIffAllComplete | components/course-list.tsx:52-68 | the problem count is zero iff every course is complete |
| CourseList.DisplayOrderSpec | components/course-list.tsx:150-186 | the display order is a permutation sorted by level, grade and section, stable among equal triples |
| WeeklyHours.HandleHoursChangeSpec | components/subject-weekly-hours-config-list.tsx:33-47 | only the subject with the id changes, and in it only the edited cell, created with its level map when missing |
| WeeklyHours.TotalIsCellSum | components/subject-weekly-hours-config-list.tsx:55-67 | the total is the sum over both levels and six grades, missing entries as 0, and 0 without a table |
| WeeklyHours.HandleHoursChangeTotal | components/subject-weekly-hours-config-list.tsx:33-67 | after an edit the subject's total changes by exactly the new value minus the old value of that cell |
| TeacherNames.AddNameSpec | components/predefined-teacher-names-form.tsx:31-43 | a name is added iff it is not blank and no name has its lower-case trimmed form; it then goes last, trimmed, and distinct names stay distinct |
| TeacherNames.RemoveNameSpec | components/predefined-teacher-names-form.tsx:45-47 | removing keeps the other entries, in order |
| TeacherNames.RemoveNameDistinct | components/predefined-teacher-names-form.tsx:45-47 | removing cannot create a repeated name or id |
| TeacherNames.SaveEditSpec | components/predefined-teacher-names-form.tsx:54-68 | an edit is accepted iff the value is not blank and no other entry has its key; only that entry changes, to the trimmed value; with unique ids distinct names stay distinct |
| TeacherNames.SubmitSpec | components/predefined-teacher-names-form.tsx:70-85 | the list is saved, unchanged, iff it is non-empty and has no case-insensitive repeat |
| TimeSlots.DurationSpec | components/subject-time-slots-form.tsx:45-59 | the duration is under a day, zero exactly for equal times, and walking it from the start on a 24-hour clock reaches the end |
| TimeSlots.DurationIsShortestWalk | components/subject-time-slots-form.tsx:45-59 | no shorter walk on the clock leads from start to end |
| TimeSlots.CheckSlotSpec | components/subject-time-slots-form.tsx:65-76 | a slot passes iff it is complete with a duration of 1 to 45 minutes; "end after start" fires exactly for equal times |
| TimeSlots.IncompleteRows | components/subject-time-slots-form.tsx:65-68 | a row number is reported as incomplete iff that row lacks its name or a time |
| TimeSlots.SubmitOkIffAcceptable | components/subject-time-slots-form.tsx:61-85 | the list is saved, unchanged, iff every slot is acceptable |
| TimeSlots.AddedSlotBlocksSubmit | components/subject-time-slots-form.tsx:32-34 | a slot just added is reported incomplete and blocks saving |
| TimeSlots.RemoveSlotSpec | components/subject-time-slots-form.tsx:36-38 | removing keeps the other slots in order, so a savable list stays savable |
| TimeSlots.ChangeSlotSpec | components/subject-time-slots-form.tsx:40-43 | only slots with the id change, and only in the edited field |
| TimeSlots.ChangeSlotUndo | components/subject-time-slots-form.tsx:40-43 | writing back the old value undoes an edit |
| MultiSelect.ToggleSpec | components/multi-select.tsx:37-40 | toggling flips the membership of the value and leaves the other values as the same list in the same order |
| MultiSelect.ToggleTwiceUnselected | components/multi-select.tsx:37-40 | selecting an absent value twice gives back the original selection |
| MultiSelect.ToggleNoDuplicates | components/multi-select.tsx:37-40 | a selection without repeats keeps having none |
| MultiSelect.ClearAll | components/multi-select.tsx:42-44 | clearing leaves nothing selected |
| Reports.FilterCoursesSpec | app/reports/page.tsx:40-47 | a course is kept iff each choice is "all" or its value; the result is a subsequence; "all" three times keeps the whole list |
| Reports.FilterNarrowing | app/reports/page.tsx:40-47 | narrowing the level from "all" to one value only drops courses of other levels |
| Reports.StudentLinesSpec | app/reports/page.tsx:183-190 | a non-empty list shows one trimmed entry per line, one more than its line breaks, and the segments joined back are the text |

## Left out

- IndexedDB plumbing of `lib/db.ts`: the stores, cursors, get/put wrappers and JSON export/import. The derivations are pure functions over in-memory lists.
- The `async` parts of `generateSchedules`: the 500 ms delay, the progress and status setters, React state and `saveGeneratedSchedules`. `saveGeneratedSchedules` is not part of this model.
- Rendering, navigation and the pages and components that only display data.
- `uuidv4`: fresh ids are parameters (`freshId`, or `freshId: nat -> string` for `generateAllCourses`).
- Fractional weekly hours (the inputs allow steps of 0.5), `NaN` and `Number` parsing of malformed text: hours are integers and the generator's hours are natural numbers, since `Array(h)` rejects anything else.
- `Date` arithmetic in `calculateDurationInMinutes`: times are minutes of well-formed `"HH:MM"` texts.
- CourseDb.UpgradeSubject: the default short code upper-cases only the ASCII letters a-z and takes the first two code points, where `substring(0, 2).toUpperCase()` takes two UTF-16 units and maps every letter (the source turns "ética" into "ÉT", the model into "éT"), because Unicode case mapping is outside the model.
- `localeCompare`, `toLowerCase`, `toUpperCase`, `trim` and `substring` are modelled as code-unit order, ASCII case mapping, ASCII whitespace and character positions (a `char` is one code point, where JavaScript counts UTF-16 units). `Clock.FormatOrder` shows that code-unit order of zero-padded times is their numeric order.
- In-place mutation and aliasing: the sort in `components/course-list.tsx`, and the shallow copies in `handleHoursChange`. Only the logical update is modelled.
- The free-text restrictions field of the teacher form is carried through unchanged.
- The `keyof` field of `handleSlotChange` also admits `id`; only the three edited fields (name, start, end) are modelled.
- Generation.GenerateSchedules: requires `Runnable` — natural hours, and every routed unit's subject known. The source only fails when such a unit is actually placed, through `subject!`. Distinct teacher ids are not required: the first teacher with an id receives the grid, as `find` does.
- Generation.ViewsAgree, Generation.RestrictionsRespected, Generation.UnitsConserved: require distinct slot ids, because a repeated slot id makes the source overwrite a cell.
- TeacherForm.ChangeAssignment: requires a valid row index; the form only calls it for rows it shows.
- CourseForm.ChangeRow: requires a valid row index; the form only calls it for rows it shows.
- Percentages and progress bars (floating point).
