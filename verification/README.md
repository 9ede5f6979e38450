# gantt-generator: date resolution, verified

This project models, in Dafny, how gantt-generator turns a CSV task list into
a timeline. It covers the task record, the workday calendar, the CSV reader's
rules for columns, rows and fields, the dependency scheduler, and the layout
the HTML renderer draws. Each part follows the form of the Go code it models.
Loops become methods with loop invariants, and pure logic becomes functions.
Each method is proved against a specification function, and lemmas state what
the code promises about that function.

Modules:

- `Model` (`task.dfy`): the `Task` record and its `Has…` predicates.
- `Calendar` (`calendar.dfy`): weekdays, workdays, `NextWorkday`,
  `NextWorkdayAfter` and `AddWorkdays`. A date is a day number counted from
  1970-01-01.
- `Scheduler` (`scheduler.dfy`): `computeSchedule`, modelled as `Resolve` and
  the method `ComputeSchedule`, and `Schedule`. `Schedule` is Kahn's
  algorithm with a FIFO queue. The proofs show that a successful run places
  every task exactly once, after all of its dependencies, on workdays, with
  the dependency-free tasks first in name order. They also say when a run
  succeeds. A set of tasks is blocked when it is non-empty and each of its
  tasks waits for a task of the set or for a name that is not a task. For a
  list with unique names, a cycle error implies a blocked set, and a blocked
  set implies a failure (not necessarily the cycle error: a task resolved
  earlier may fail first). Any other failure is the error of a task resolved
  against the tasks placed before it, once all its dependencies are placed.
  So unique names, no blocked set and no task failing once it is ready
  (`ResolvesWhenReady`) always schedule; tasks that all meet the simpler
  `ResolvesOnceReady` are a special case.
- `Text`, `Lex` and `Seqs` (`text.dfy`, `lex.dfy`, `seqs.dfy`): the parts of
  Go's `strings` and `strconv` that the reader uses, Go's string order, and
  generic sequence facts.
- `CsvFields` (`fields.dfy`): `parseDuration`, `parseDepends` and
  `recordAllEmpty`.
- `CsvColumns` (`columns.dfy`): `mapColumns`, `makeCustomValues` and
  `customColumnNames`.
- `CsvInput` (`reader.dfy`): `parseRecord`, `parseActual`,
  `validateDependencies` and the record loop of `Read`, including blank-row
  skipping and the duplicate-name check. Date parsing is a parameter
  (`DateParser`).
- `Renderer` (`renderer.dfy`): the layout part of `BuildHTML`, with
  `daysRange` and `daysBetween`. The clock reading is a parameter (`now`).
  Sorting works in place on an `array`, by insertion through adjacent swaps.

## Model

| member | source | states |
|---|---|---|
| Model.Task.HasStart | internal/model/task.go:24-26 | true exactly when a start date was given |
| Model.Task.HasEnd | internal/model/task.go:29-31 | true exactly when an end date was given |
| Model.Task.HasDuration | internal/model/task.go:34-36 | true exactly when the duration is at least one day; zero or less reads as unset |
| Model.Task.HasActual | internal/model/task.go:39-41 | needs both computed actual dates; one alone gives false |
| Model.NamedTask | internal/model/task.go:6-21 | the zero-valued task with only a name: no dates, no duration, no dependencies, not a heading |
| Calendar.Weekday | internal/calendar/calendar.go:6-13 | the weekday lies in 0..6, with Sunday = 0 as Go numbers it |
| Calendar.WeekdayNext | internal/calendar/calendar.go:6-13 | the weekday advances by one each day and wraps from Saturday to Sunday |
| Calendar.IsWorkday | internal/calendar/calendar.go:6-13 | a day is a workday exactly when it falls on Monday to Friday |
| Calendar.WorkdayWeekly | internal/calendar/calendar.go:6-13 | whether a day is a workday repeats every seven days |
| Calendar.DateOnly | internal/calendar/calendar.go:16-18 | keeps the calendar day and drops the time of day |
| Calendar.DateOnlyIdempotent | internal/calendar/calendar.go:16-18 | truncating twice is truncating once |
| Calendar.FirstWorkdayFrom | internal/calendar/calendar.go:21-27 | the result is a workday on or after the given day |
| Calendar.FirstWorkdayFromIsFirst | internal/calendar/calendar.go:21-27 | no workday is skipped; the scan passes at most two days: Saturday moves to Monday, Sunday to Monday |
| Calendar.NextWorkday | internal/calendar/calendar.go:21-27 | the day-by-day loop stops at the first workday on or after `t` |
| Calendar.FirstWorkdayFromFixes | internal/calendar/calendar.go:20-27 | a workday is its own next workday, and snapping twice is snapping once |
| Calendar.NextWorkdayAfter | internal/calendar/calendar.go:30-32 | the result is a workday strictly after `t` |
| Calendar.NextWorkdayAfterIsFirst | internal/calendar/calendar.go:29-32 | no workday lies strictly between `t` and the result |
| Calendar.WorkdaysAfter | internal/calendar/calendar.go:35-41 | the result is a workday, not before the snapped start |
| Calendar.AddWorkdays | internal/calendar/calendar.go:35-41 | the loop lands on the workday reached by stepping `days` workdays past the snapped start |
| Calendar.AddZeroWorkdays | internal/calendar/calendar.go:34-36 | zero workdays only snaps to the next workday, so a one-day task ends where it starts |
| Calendar.WorkdaysAfterIncreasing | internal/calendar/calendar.go:37-39 | more workdays always land strictly later |
| Calendar.WorkdaysAfterCount | internal/calendar/calendar.go:35-41 | exactly `n` workdays lie after the snapped start, up to the result |
| Calendar.FiveWorkdaysPerWeek | internal/calendar/calendar.go:6-13 | any seven consecutive days hold exactly five workdays |
| Calendar.CalendarExamples | internal/calendar/calendar.go:6-27 | Monday 2024-06-03 is a workday, Sunday 2024-06-02 is not, and Saturday 2024-06-01 snaps to that Monday |
| Lex.Less | internal/scheduler/scheduler.go:40 | a string never sorts before an equal one, and a proper prefix sorts before the longer string |
| Lex.LessIrreflexive | internal/scheduler/scheduler.go:40 | no string sorts before itself |
| Lex.LessTransitive | internal/scheduler/scheduler.go:40 | Go's string order is transitive |
| Lex.LessTotal | internal/scheduler/scheduler.go:40 | any two strings are equal or ordered one way |
| Lex.LessAsymmetric | internal/renderer/builder.go:24 | two strings are never each before the other |
| Lex.LessEqTransitive | internal/renderer/builder.go:22-27 | the non-strict order is transitive |
| Lex.InsertMultiset | internal/scheduler/scheduler.go:40 | inserting keeps every element and adds the new one |
| Lex.InsertSorted | internal/scheduler/scheduler.go:40 | inserting into a sorted sequence keeps it sorted |
| Lex.SortStrings | internal/scheduler/scheduler.go:40 | `sort.Strings` leaves a sorted rearrangement of the same strings |
| Lex.SortedDistinctIsStrict | internal/scheduler/scheduler.go:34-40 | sorted names without repetition are strictly increasing |
| Text.TrimLeft | internal/csvinput/reader.go:161 | removes exactly the leading spaces: the result is a suffix, what is cut is all spaces, and the result starts with a non-space |
| Text.TrimRight | internal/csvinput/reader.go:161 | removes exactly the trailing spaces: the result is a prefix, what is cut is all spaces, and the result ends with a non-space |
| Text.TrimSpace | internal/csvinput/reader.go:161 | the result neither starts nor ends with a space, and is no longer than the input |
| Text.TrimSpaceKeepsInfix | internal/csvinput/reader.go:161 | the result is the infix of the input after its leading spaces |
| Text.TrimSpaceCutsSpaces | internal/csvinput/reader.go:161 | everything cut off on either side is a space |
| Text.TrimSpaceOfTrimmed | internal/csvinput/reader.go:161 | a string that is already trimmed is unchanged |
| Text.TrimSpaceIdempotent | internal/csvinput/reader.go:161 | trimming twice is trimming once |
| Text.TrimSpaceEmpty | internal/csvinput/reader.go:394-401 | a field trims to nothing exactly when it is all spaces |
| Text.LowerChar | internal/csvinput/reader.go:135 | maps an ASCII capital to its small letter and keeps every other character |
| Text.ToLower | internal/csvinput/reader.go:135 | lower-cases character by character and keeps the length |
| Text.ToLowerIdempotent | internal/csvinput/reader.go:135 | lower-casing twice is lower-casing once, and no ASCII capital survives |
| Text.Utf8Width | internal/csvinput/reader.go:302 | a character takes 1 to 4 bytes, and exactly 1 when it is ASCII |
| Text.Utf8Length | internal/csvinput/reader.go:302 | the byte length lies between one and four times the character count |
| Text.Utf8LengthShort | internal/csvinput/reader.go:302 | a string is under two bytes exactly when it is empty or one ASCII character |
| Text.Atoi | internal/csvinput/reader.go:309 | a result fits in 64 bits and starts with a sign or a digit; any plain digit string that fits gives its value |
| Text.Decimal | internal/csvinput/reader.go:309 | the decimal form of a number is non-empty and all digits |
| Text.DecimalValue | internal/csvinput/reader.go:309 | reading back the decimal form gives the number |
| Text.AtoiDecimal | internal/csvinput/reader.go:309 | `strconv.Atoi` inverts decimal formatting for every non-negative 64-bit value |
| CsvFields.ParseDuration | internal/csvinput/reader.go:301-314 | under two bytes is TooShort; a last character other than `d`/`D` is BadSuffix; success means the number before the unit reads as a positive integer, and that integer is the result |
| CsvFields.ParseDurationDecimal | internal/csvinput/reader.go:301-314 | every positive 64-bit count written in decimal with a day unit reads back as itself |
| CsvFields.ParseDurationExamples | internal/csvinput/reader.go:301-314 | "5d", "12D" and "+3d" are accepted; "d" and "5" are too short; "5x" lacks the unit; "0d" and "-3d" are not positive |
| CsvFields.Pieces | internal/csvinput/reader.go:279-281 | there is at least one piece, and no piece holds a separator |
| CsvFields.Fields | internal/csvinput/reader.go:279-281 | `strings.FieldsFunc` gives non-empty runs without `,` or `;` |
| CsvFields.PiecesOfPlain | internal/csvinput/reader.go:279-281 | a string without separators is a single piece |
| CsvFields.PiecesSnoc | internal/csvinput/reader.go:279-281 | one more character opens a new piece if it is `,` or `;`, and otherwise extends the last piece |
| CsvFields.PiecesConcat | internal/csvinput/reader.go:279-281 | text split at `,` or `;` gives the pieces on the left followed by the pieces on the right |
| CsvFields.PiecesAfterSeparator | internal/csvinput/reader.go:279-281 | a `,` or `;` followed by plain text adds that text as one more piece |
| CsvFields.NonEmptyAppend | internal/csvinput/reader.go:279-281 | dropping empty pieces from two lists joined is dropping them from each |
| CsvFields.FieldsOfPlain | internal/csvinput/reader.go:279-281 | a non-empty run without separators is a single field |
| CsvFields.FieldsConcat | internal/csvinput/reader.go:279-281 | the fields of text split at `,` or `;` are the fields on the left followed by those on the right; with FieldsOfPlain this fixes `strings.FieldsFunc` on every input |
| CsvFields.PiecesOfJoin | internal/csvinput/reader.go:279-281 | splitting plain names joined with `,` or with `;` gives the names back |
| CsvFields.KeptClean | internal/csvinput/reader.go:284-288 | non-blank, trimmed names are all kept, unchanged |
| CsvFields.DependsAreClean | internal/csvinput/reader.go:284-289 | every dependency name is non-blank and trimmed, and holds no separator |
| CsvFields.ParseDepends | internal/csvinput/reader.go:275-290 | an empty field gives no names; the loop keeps the trimmed non-empty pieces in order; each is clean |
| CsvFields.DependsRoundTrip | internal/csvinput/reader.go:275-290 | listing clean names in a `depends_on` field, separated by `,` or by `;`, and parsing it gives the same names back |
| CsvFields.BlankFields | internal/csvinput/reader.go:394-401 | a field trims to nothing exactly when it is all spaces |
| CsvFields.RecordAllEmpty | internal/csvinput/reader.go:394-401 | a record is empty exactly when every field is all spaces |
| CsvColumns.ReadHeading | internal/csvinput/reader.go:134-138 | the key is the trimmed, lower-cased heading, or its canonical key when that is an alias |
| CsvColumns.Headings | internal/csvinput/reader.go:134-138 | reads every heading of the header, in order |
| CsvColumns.KeyIndex | internal/csvinput/reader.go:134-139 | each key maps to a heading that stands for it, and every heading's key is mapped, at its position or later |
| CsvColumns.HeaderIndexIsLast | internal/csvinput/reader.go:134-139 | each key maps to the last heading that stands for it, as assignment into a Go map leaves it |
| CsvColumns.CustomOf | internal/csvinput/reader.go:140-148 | each custom column is a non-blank, unknown heading named by its trimmed text; the columns keep header order |
| CsvColumns.CustomOfComplete | internal/csvinput/reader.go:140-148 | every custom heading is listed, and each at its first occurrence |
| CsvColumns.CustomColumnsMeaning | internal/csvinput/reader.go:130-149 | the custom columns are exactly the custom headings, without repeated names, in header order |
| CsvColumns.ScanHeader | internal/csvinput/reader.go:134-149 | the header loop builds the key index and the custom column list |
| CsvColumns.MapColumns | internal/csvinput/reader.go:130-156 | succeeds exactly when every required column is present, and then returns the index and the custom columns; otherwise it names the first required column missing |
| CsvColumns.FirstMissing | internal/csvinput/reader.go:150-154 | finds nothing exactly when every required column is mapped; otherwise gives the first one that is not |
| CsvColumns.ColumnNames | internal/csvinput/reader.go:268-271 | one name per column, in order |
| CsvColumns.CustomValuesOf | internal/csvinput/reader.go:251-262 | one trimmed value per custom column, empty where the record is too short |
| CsvColumns.MakeCustomValues | internal/csvinput/reader.go:251-262 | the loop gives each column the trimmed field at its position, or the empty string past the record's end |
| CsvColumns.CustomColumnNames | internal/csvinput/reader.go:264-273 | the headings of the custom columns, in order |
| CsvColumns.LookupFirst | internal/csvinput/reader.go:136-138 | an alias lookup finds the entry for its key |
| CsvColumns.LookupAbsent | internal/csvinput/reader.go:136-138 | a heading that is no alias is kept as it is |
| CsvColumns.AliasExample | internal/csvinput/reader.go:24-36 | the Japanese heading for "start" stands for `start` |
| CsvInput.Field | internal/csvinput/reader.go:159-164 | a field is trimmed, and empty when the column is missing or the record is too short |
| CsvInput.ParseActual | internal/csvinput/reader.go:332-390 | the step-by-step updates give the outcome of the actual-field rules |
| CsvInput.ActualRules | internal/csvinput/reader.go:337-384 | end with duration, end alone and duration alone are refused; start and end give that span unless the end is earlier; start and duration count workdays from the start; start alone is a one-day span |
| CsvInput.ActualOutcomeSpan | internal/csvinput/reader.go:332-390 | the "cannot be determined" branch is never taken; a success gives workday actual dates in order, or no change when all three fields are empty |
| CsvInput.SchedulingErrorMeaning | internal/csvinput/reader.go:228-242 | the rules accept exactly the tasks the scheduler can place; the "lacks scheduling information" rule never fires |
| CsvInput.RowFields | internal/csvinput/reader.go:159-185 | the name read from a record is trimmed |
| CsvInput.ParsePlanned | internal/csvinput/reader.go:204-226 | parses the non-empty planned fields and reports the first one that fails |
| CsvInput.ParseTask | internal/csvinput/reader.go:196-248 | builds a regular row's task, applies the scheduling rules, then reads the actual fields |
| CsvInput.ParseRecord | internal/csvinput/reader.go:158-249 | parses one record, checking its fields in the order `parseRecord` does |
| CsvInput.RowClassification | internal/csvinput/reader.go:166-194 | a `#` name gives a heading named by the rest, trimmed; a name alone gives a display-only row without its status; an empty name is refused |
| CsvInput.RowRegular | internal/csvinput/reader.go:196-248 | an accepted regular row keeps its name, parsed dates, duration and dependencies; it is schedulable; it has both actual dates or neither |
| CsvInput.RowSchedulingRules | internal/csvinput/reader.go:228-239 | end with duration, end without start, neither duration nor end, and an unanchored duration are each refused with their own error |
| CsvInput.SchedulableResolves | internal/csvinput/reader.go:228-242 | once its dependencies are scheduled, an accepted task gets dates or ends before it can start; no other scheduling error arises |
| CsvInput.ValidateDependencies | internal/csvinput/reader.go:316-330 | reports nothing exactly when every dependency names a task; otherwise it reports the first unknown one, in task order and then list order, with the task naming it |
| CsvInput.AcceptedTasks | internal/csvinput/reader.go:88-121 | the collected tasks are no more than the records |
| CsvInput.AcceptedTasksCount | internal/csvinput/reader.go:100-104 | blank records give no task, and every other record gives one |
| CsvInput.TaskNames | internal/csvinput/reader.go:115-118 | the name set holds exactly the names of the non-heading tasks |
| CsvInput.TaskNamesStep | internal/csvinput/reader.go:110-119 | a heading never collides; another task collides exactly when its name was seen |
| CsvInput.AddTask | internal/csvinput/reader.go:110-119 | appends the task exactly when no earlier non-heading task has its name; otherwise reports a duplicate at this row |
| CsvInput.UniquePrefix | internal/csvinput/reader.go:115-117 | a name repeated among the first records stays repeated in the whole file |
| CsvInput.ParseRows | internal/csvinput/reader.go:88-121 | succeeds exactly when every non-blank record is accepted and the non-heading names are unique; then it returns those records' tasks in file order; a failure is the first refused record's error: `parseRecord`'s own error, or `DuplicateName` at the record number of the first repeated name |
| CsvInput.Read | internal/csvinput/reader.go:63-128 | succeeds exactly when the header has the required columns, every non-blank record parses, names are unique and dependencies are known; then it returns the tasks and the custom headings; a missing column is reported as such; a refused record gives that record's error; otherwise the first unknown dependency is reported |
| Scheduler.FirstUnscheduled | internal/scheduler/scheduler.go:90-94 | no result exactly when every dependency is scheduled; otherwise an unscheduled dependency |
| Scheduler.FirstUnscheduledAt | internal/scheduler/scheduler.go:90-94 | the reported dependency is the first unscheduled one in list order |
| Scheduler.LatestEndIsMaximum | internal/scheduler/scheduler.go:86-99 | the latest end is at or after every dependency's end and is one of them |
| Scheduler.ResolveStart | internal/scheduler/scheduler.go:80-109 | a computed start is a workday not before the declared start; the only errors are a dependency not yet scheduled and no resolvable start, both naming the task |
| Scheduler.ResolveEnd | internal/scheduler/scheduler.go:111-121 | a computed end is a workday not before the start; the only errors are ending before the start and no duration or end, both naming the task |
| Scheduler.Resolve | internal/scheduler/scheduler.go:74-126 | a resolved task keeps its name and ends no earlier than it starts; an error names the task and is never "no tasks" or a cycle |
| Scheduler.ComputeSchedule | internal/scheduler/scheduler.go:74-126 | the method computes the resolved task or its first error |
| Scheduler.ResolveStartMeetsConstraints | internal/scheduler/scheduler.go:80-109 | a missing dependency or no start and no dependency is an error; otherwise the start is a workday, not before the snapped start, after every dependency's end, and equal to one of the two floors |
| Scheduler.ResolveStartIsEarliest | internal/scheduler/scheduler.go:80-105 | no earlier workday meets every constraint |
| Scheduler.ResolveEndMeetsConstraints | internal/scheduler/scheduler.go:111-121 | a snapped end wins, and ending before the start is an error; otherwise the task covers exactly its duration in workdays; with neither it is an error |
| Scheduler.ResolveSetsOnlyComputedDates | internal/scheduler/scheduler.go:123-125 | resolving succeeds exactly when both dates resolve, and changes nothing but the two computed dates |
| Scheduler.ResolvedDates | internal/scheduler/scheduler.go:74-126 | a resolved task starts and ends on workdays, in order, after all its dependencies |
| Scheduler.ResolveMissingDependency | internal/scheduler/scheduler.go:90-94 | a missing dependency is reported exactly when one is unscheduled |
| Scheduler.PlanningBuildExample | internal/scheduler/scheduler.go:74-126 | Planning (Fri 2024-06-07, 2 days) ends Monday; Build (3 days after Planning) runs Tuesday to Thursday |
| Scheduler.NameIndex | internal/scheduler/scheduler.go:19-23 | holds exactly the task names, each filed under a task of that name |
| Scheduler.NameIndexHoldsTasks | internal/scheduler/scheduler.go:19-23 | every indexed task is one of the tasks |
| Scheduler.NameIndexFinds | internal/scheduler/scheduler.go:19-23 | with unique names, each task is found under its own name |
| Scheduler.IndexByName | internal/scheduler/scheduler.go:19-23 | the loop builds the name index |
| Scheduler.OccurrencesCount | internal/scheduler/scheduler.go:29-31 | one task adds its name to `graph[d]` once per occurrence of `d` in its list |
| Scheduler.DependentsAreNames | internal/scheduler/scheduler.go:27-31 | every listed dependent is a task |
| Scheduler.DependentsCount | internal/scheduler/scheduler.go:27-31 | with unique names, each task is listed as often as its list names `d` |
| Scheduler.PendingNothingDone | internal/scheduler/scheduler.go:28 | before anything is done, every dependency is pending |
| Scheduler.PendingZero | internal/scheduler/scheduler.go:62 | nothing pending means every dependency is done |
| Scheduler.PendingPositive | internal/scheduler/scheduler.go:60-63 | a positive in-degree means some dependency is not done |
| Scheduler.PendingAfter | internal/scheduler/scheduler.go:60-62 | completing a task settles exactly its occurrences |
| Scheduler.AddEdges | internal/scheduler/scheduler.go:29-31 | appends the name once per occurrence of each dependency, and nothing else |
| Scheduler.BuildGraph | internal/scheduler/scheduler.go:25-32 | each in-degree is the length of the task's dependency list, and each adjacency list lists the dependents |
| Scheduler.ZeroInDegreeNames | internal/scheduler/scheduler.go:34-40 | the queue is exactly the names with no dependency, sorted and without repetition |
| Scheduler.ReleasedNames | internal/scheduler/scheduler.go:60-65 | the names released are distinct, and a name is released exactly when its in-degree is positive and at most its number of occurrences |
| Scheduler.LoweredCounts | internal/scheduler/scheduler.go:61 | lowering keeps the names and takes from each in-degree its number of occurrences |
| Scheduler.ReleasedExtendsLog | internal/scheduler/scheduler.go:60-65 | the released names extend the log of queued names without repetition, and afterwards a name is logged exactly when its in-degree is no longer positive |
| Scheduler.ReleaseSuccessors | internal/scheduler/scheduler.go:60-65 | each occurrence lowers an in-degree by one; the queue grows by exactly `Released`, the names whose in-degree reaches zero, in the order of their occurrences, and none is queued twice |
| Scheduler.GraphOfTasks | internal/scheduler/scheduler.go:25-32 | the adjacency map lists tasks only; with unique names, each as often as its list names the dependency |
| Scheduler.ReleaseKeepsPending | internal/scheduler/scheduler.go:60-65 | after a release each in-degree still counts the dependencies not yet done |
| Scheduler.QueueFront | internal/scheduler/scheduler.go:45-47 | the queue's front is an unscheduled task whose in-degree is spent; the tasks placed so far have distinct names, none of them the front's |
| Scheduler.FrontIsReady | internal/scheduler/scheduler.go:45-53 | the task at the front has all its dependencies scheduled |
| Scheduler.DrainedLeavesUnready | internal/scheduler/scheduler.go:45-66 | once the queue is empty, every task left out waits for a dependency that was not placed |
| Scheduler.Advance | internal/scheduler/scheduler.go:57-65 | records the task, grows the order by one, and replaces the queue by its tail followed by the task's released dependents |
| Scheduler.DrainQueue | internal/scheduler/scheduler.go:45-66 | each placed task is resolved against the ones placed before it, and no name is placed twice; the queued dependency-free names come first; an error is never a cycle; with unique names, no dependency is found unscheduled, an error is what resolving a task gives against a partial schedule (distinct tasks, each resolved against those before it) that places all its dependencies and not the task itself, and every task left out when the queue empties waits for a dependency that was not placed |
| Scheduler.Schedule | internal/scheduler/scheduler.go:14-72 | no tasks is an error; a success is a schedule in which dependency-free tasks come first by name; if every task has a dependency the result is a cycle; some blocked set of tasks forces a failure, and with unique names a cycle error means such a set exists; with unique names, any other failure is the error of a task ready after a partial schedule of the tasks, resolved against that schedule, and comes from a task that does not meet ResolvesOnceReady; so unique names, no blocked set and ResolvesWhenReady give a success, and so do unique names, no blocked set and only ResolvesOnceReady tasks |
| Scheduler.CompleteRunIsSchedule | internal/scheduler/scheduler.go:68-71 | a run that placed as many tasks as were given has placed every task |
| Scheduler.RootsComeFirst | internal/scheduler/scheduler.go:34-40 | the dependency-free tasks open the schedule in name order |
| Scheduler.ScheduleHasUniqueNames | internal/scheduler/scheduler.go:14-72 | a schedule exists only for tasks with unique names |
| Scheduler.TaskIsScheduled | internal/scheduler/scheduler.go:14-72 | every task appears, changed only in its two computed dates |
| Scheduler.EntryIsTask | internal/scheduler/scheduler.go:14-72 | every entry is one of the tasks, changed only in its two computed dates |
| Scheduler.ScheduleIsPermutation | internal/scheduler/scheduler.go:14-72 | up to the computed dates, the schedule is a rearrangement of the tasks |
| Scheduler.ResolvedTaskDates | internal/scheduler/scheduler.go:74-126 | a resolved task starts and ends on workdays, in order, after all its dependencies |
| Scheduler.EntryRespectsDependencies | internal/scheduler/scheduler.go:45-66 | each entry starts after the end of every dependency, and that dependency is an earlier entry |
| Scheduler.ScheduleRespectsDependencies | internal/scheduler/scheduler.go:45-66 | every entry is on workdays, in order, and after all its dependencies |
| Scheduler.DependencyComesEarlier | internal/scheduler/scheduler.go:45-66 | a dependency precedes its dependent in the schedule |
| Scheduler.DependencyChainsDescend | internal/scheduler/scheduler.go:68-71 | a dependency chain moves strictly backwards, so no scheduled task depends on itself through a cycle |
| Scheduler.ReadyResolves | internal/scheduler/scheduler.go:74-126 | a task meeting ResolvesOnceReady gets its dates once its dependencies are scheduled, whatever their dates |
| Scheduler.IndexSize | internal/scheduler/scheduler.go:19-23 | with unique names the index has one entry per task |
| Scheduler.ShortRunIsStalled | internal/scheduler/scheduler.go:45-69 | when fewer names are placed than there are tasks and each task left out waits for an unplaced dependency, the tasks left out are a non-empty stalled set |
| Scheduler.ShortRunIsBlocked | internal/scheduler/scheduler.go:68-69 | with unique names, a run that places fewer tasks than were given leaves a blocked set |
| Scheduler.ReadyTasksResolveWhenReady | internal/scheduler/scheduler.go:74-126 | tasks that all meet ResolvesOnceReady never fail once ready after a partial schedule |
| Scheduler.FailureNamesUnreadyTask | internal/scheduler/scheduler.go:53-55 | an error from resolving a task ready after a partial schedule points at a task that does not meet ResolvesOnceReady |
| Scheduler.NotStalledAt | internal/scheduler/scheduler.go:45-66 | no entry of a schedule belongs to a stalled set |
| Scheduler.ScheduleLeavesNoBlock | internal/scheduler/scheduler.go:14-72 | tasks that have a schedule contain no blocked set |
| Scheduler.OrderedNotStalled | internal/scheduler/scheduler.go:45-66 | with unique names and each dependency listed before its dependent, no task is in a stalled set |
| Scheduler.OrderedNotBlocked | internal/scheduler/scheduler.go:45-66 | tasks with unique names, each listed after its dependencies, contain no blocked set |
| Scheduler.PlanningBuildSchedules | internal/scheduler/scheduler_test.go:14-31 | the Planning/Build tasks have unique names, no blocked set, and meet ResolvesOnceReady, so Schedule succeeds on them |
| Scheduler.ShipAfterPlanning | internal/scheduler/scheduler.go:74-126 | Planning (Friday 2024-06-07, 2 workdays), resolved against any map, ends Monday 2024-06-10, after which Ship (declared 2024-06-03 to 2024-06-28, depending on Planning) resolves |
| Scheduler.PlanningShipSchedules | internal/scheduler/scheduler.go:14-72 | Ship has an end and a dependency, so it is not ResolvesOnceReady, yet Planning and Ship have unique names, no blocked set and meet ResolvesWhenReady, so Schedule succeeds on them |
| Scheduler.MutualDependencyBlocks | internal/scheduler/scheduler_test.go:54-62 | tasks A and B that depend on each other are blocked, so Schedule fails on them |
| Renderer.DrawnOrderTotal | internal/renderer/builder.go:22-27 | not drawn before is the same as drawn no earlier |
| Renderer.DrawnNoLaterTransitive | internal/renderer/builder.go:22-27 | the display order is transitive |
| Renderer.SortForDrawing | internal/renderer/builder.go:20-27 | the sorted copy holds the same tasks, by computed start and then by name |
| Renderer.InsertLast | internal/renderer/builder.go:22-27 | sinking one task into the sorted prefix leaves the prefix through that task sorted and a rearrangement of what it held, and everything after it unchanged |
| Renderer.SwapWithin | internal/renderer/builder.go:22-27 | a swap inside the prefix keeps the prefix's tasks and leaves the rest alone |
| Renderer.Bounds | internal/renderer/builder.go:29-55 | the first day is on or before today and every planned and actual start, and is one of them; the last day likewise for the ends |
| Renderer.SameTasksSameRange | internal/renderer/builder.go:29-55 | the day range does not depend on the order of the tasks |
| Renderer.DaysRange | internal/renderer/builder.go:97-103 | every day from start through end, consecutive; none when end is before start |
| Renderer.DaysBetween | internal/renderer/builder.go:105-111 | counts the days forward from start to end, and none when end is not later |
| Renderer.RendersOf | internal/renderer/builder.go:62-84 | one row per task, in order, each placed against the first day |
| Renderer.RenderTasks | internal/renderer/builder.go:60-84 | builds each row, and notes some actual dates exactly when some task has them |
| Renderer.RowsFit | internal/renderer/builder.go:57-84 | on a timeline covering every date, every bar lies inside the day columns and is at least one column wide |
| Renderer.BuildLayout | internal/renderer/builder.go:14-93 | no tasks is an error; otherwise the days run consecutively from the earliest start to the latest end, today included and indexed; the rows are the tasks' rows, ordered by start and name; each bar fits; the actual flag is set exactly when some task has actual dates |

## Left out

- File reading, the encoding detection and Shift_JIS decoding (`decodeCSVBytes`,
  `detectEncoding`) and CSV tokenising are left out. `Read` takes the header
  and the records already split into fields, so the "inconsistent field
  count" and other `csv.Reader` errors (reader.go:94-99) are not modelled.
- `parseDate` and `time.Parse` are not part of this model. A date field is
  read by the function parameter `DateParser`.
- `time.Now()` is the parameter `now` of `Renderer.BuildLayout`.
- Time zones and daylight-saving time are left out. A date is a whole day
  number, so `DateOnly` of a date is that date.
- Holidays (`SetHolidays`, `LoadHolidaysYAML` in holidays.go) are not part of
  this model. `IsWorkday` as written in calendar.go:6-13 looks only at the
  weekday.
- `renderHTML`, `baseCSS`, html.go and the command line in main.go are not
  part of this model. `BuildLayout` returns the data handed to the template.
- Text.ToLower: lower-cases ASCII letters only. Go's `strings.ToLower` folds
  all of Unicode, and a few non-ASCII capitals fold to ASCII letters: U+0130
  (capital I with dot above) gives `i`, and U+212A (Kelvin sign) gives `k`.
  A heading such as "DURAT" + U+0130 + "ON" therefore maps to `duration` in
  Go but is a custom column in the model. Headings without those characters
  are read the same way.
- Go's `len` counts UTF-8 bytes. The model counts characters everywhere
  except in `ParseDuration`'s length check, which uses `Utf8Length`.
  Characters are whole Unicode scalar values, so invalid UTF-8 is not
  represented.
- Renderer.SortForDrawing: leaves the order of tasks with equal start and
  name open, because `sort.Slice` is not stable and Go does not fix that
  order.
- `parseActual` updates `*task` through a pointer. The model returns the
  updated task instead.
- Three branches cannot be reached, and lemmas show why:
  - scheduler.go:49-52: every queued name is a task (`QueueFront`).
  - reader.go:240-242: covered by the check at 234 (`SchedulingErrorMeaning`).
  - reader.go:385-386: the default case of `parseActual`'s switch
    (`ActualOutcomeSpan`).
  The model keeps the last two as written.
- `makeCustomValues`, `customColumnNames` and `parseDepends` return `nil`
  for no entries; the model returns the empty sequence, which Go treats
  the same way.
- The `Task` record also carries `Status`, `DisplayOnly` and `CustomValues`.
  reader.go fills these in, but task.go as shown does not declare them.
- The text of error messages is modelled as error constructors; only their
  kind, row and names are kept.
