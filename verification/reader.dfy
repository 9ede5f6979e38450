/** Task records (internal/csvinput/reader.go): turning one tokenised CSV row
    into a task, the rules on its scheduling and actual fields, and the checks
    over the whole file (blank rows, duplicate names, unknown dependencies). */
module CsvInput {
  import opened Wrappers
  import opened Model
  import opened Calendar
  import opened Text
  import opened CsvFields
  import opened CsvColumns
  import Scheduler

  /** Reads a date field; `None` when no accepted layout matches. */
  type DateParser = string -> Option<Date>

  /** The errors the reader reports; `row` is the 1-based record number,
      the header being record 1. */
  datatype ReadError =
    | MissingColumn(column: string)            // "missing required column"
    | NameRequired(row: int)                   // "name is required"
    | InvalidStart(row: int)
    | InvalidEnd(row: int)
    | InvalidDuration(row: int, cause: DurationError)
    | EndWithDuration(row: int)                // "end and duration cannot both be set"
    | EndWithoutStart(row: int)                // "end cannot be set without start or duration"
    | NoDurationOrEnd(row: int)                // "either duration or end must be provided"
    | DurationOnlyUnanchored(row: int)         // "duration-only task must depend on another task or define a start"
    | LacksScheduling(row: int)                // "task lacks scheduling information"
    | InvalidActualStart(row: int)
    | InvalidActualEnd(row: int)
    | InvalidActualDuration(row: int, cause: DurationError)
    | ActualEndWithDuration(row: int)          // "actual_end and actual_duration cannot both be set"
    | ActualEndWithoutStart(row: int)          // "actual_end cannot be set without actual_start or actual_duration"
    | ActualDurationWithoutStart(row: int)     // "actual_duration requires actual_start"
    | ActualEndBeforeStart(row: int)           // "actual_end is before actual_start"
    | ActualUndetermined(row: int)             // "actual schedule cannot be determined"
    | DuplicateName(row: int, name: string)    // "duplicate task name"
    | UnknownDependency(task: string, dep: string)

  /** The trimmed field of `record` in column `key`; empty when the header has
      no such column or the record is too short to reach it. */
  function Field(record: seq<string>, col: map<string, nat>, key: string): (v: string)
    ensures Trimmed(v)
    ensures !(key in col && col[key] < |record|) ==> v == ""
  {
    if key in col && col[key] < |record| then TrimSpace(record[col[key]]) else ""
  }

  // ---------------------------------------------------------------------------
  // parseActual
  // ---------------------------------------------------------------------------

  /** No actual dates have been recorded yet, as for a freshly read task. */
  predicate NoActuals(t: Task)
  {
    t.actualStart.None? && t.actualEnd.None? && t.actualDurationDays == 0
  }

  /** The combination rules on the actual fields and the actual span they give
      (reader.go:350-389): the recorded fields are read from `t`. */
  function ActualSpan(t: Task, row: int): Result<Task, ReadError>
  {
    if t.actualEnd.Some? && t.actualDurationDays > 0 then Err(ActualEndWithDuration(row))
    else if t.actualEnd.Some? && t.actualStart.None? && t.actualDurationDays == 0 then Err(ActualEndWithoutStart(row))
    else if t.actualDurationDays > 0 && t.actualStart.None? && t.actualEnd.None? then Err(ActualDurationWithoutStart(row))
    else if t.actualStart.Some? && t.actualEnd.Some? then
      if t.actualEnd.value < t.actualStart.value then Err(ActualEndBeforeStart(row))
      else Ok(t.(computedActualStart := t.actualStart, computedActualEnd := t.actualEnd))
    else if t.actualStart.Some? && t.actualDurationDays > 0 then
      Ok(t.(computedActualStart := t.actualStart,
            computedActualEnd := Some(WorkdaysAfter(t.actualStart.value, t.actualDurationDays - 1))))
    else if t.actualStart.Some? then
      Ok(t.(computedActualStart := t.actualStart, computedActualEnd := t.actualStart))
    else Err(ActualUndetermined(row))
  }

  /** What `parseActual` makes of the three actual fields (reader.go:332-389):
      nothing when all are empty; otherwise each non-empty field is parsed (a
      date snapped to its workday), then the combination rules apply. */
  function ActualOutcome(task: Task, startStr: string, endStr: string, durationStr: string, row: int,
                         parseDate: DateParser): Result<Task, ReadError>
  {
    if startStr == "" && endStr == "" && durationStr == "" then Ok(task)
    else if startStr != "" && parseDate(startStr).None? then Err(InvalidActualStart(row))
    else if endStr != "" && parseDate(endStr).None? then Err(InvalidActualEnd(row))
    else if durationStr != "" && ParseDuration(durationStr).Err? then
      Err(InvalidActualDuration(row, ParseDuration(durationStr).error))
    else
      var t := task.(
        actualStart := if startStr != "" then Some(FirstWorkdayFrom(parseDate(startStr).value)) else task.actualStart,
        actualEnd := if endStr != "" then Some(FirstWorkdayFrom(parseDate(endStr).value)) else task.actualEnd,
        actualDurationDays := if durationStr != "" then ParseDuration(durationStr).value else task.actualDurationDays);
      ActualSpan(t, row)
  }

  /** Reads the actual fields into the task, step by step as `parseActual`
      in reader.go updates `*task`; the updated task is returned instead of
      written through a pointer. */
  method ParseActual(task: Task, startStr: string, endStr: string, durationStr: string, row: int,
                     parseDate: DateParser) returns (r: Result<Task, ReadError>)
    ensures r == ActualOutcome(task, startStr, endStr, durationStr, row, parseDate)
  {
    if startStr == "" && endStr == "" && durationStr == "" {
      return Ok(task);
    }
    var t := task;
    if startStr != "" {
      var parsed := parseDate(startStr);
      if parsed.None? {
        return Err(InvalidActualStart(row));
      }
      var day := NextWorkday(parsed.value);
      t := t.(actualStart := Some(day));
    }
    if endStr != "" {
      var parsed := parseDate(endStr);
      if parsed.None? {
        return Err(InvalidActualEnd(row));
      }
      var day := NextWorkday(parsed.value);
      t := t.(actualEnd := Some(day));
    }
    if durationStr != "" {
      var days := ParseDuration(durationStr);
      if days.Err? {
        return Err(InvalidActualDuration(row, days.error));
      }
      t := t.(actualDurationDays := days.value);
    }
    if t.actualEnd.Some? && t.actualDurationDays > 0 {
      return Err(ActualEndWithDuration(row));
    }
    if t.actualEnd.Some? && t.actualStart.None? && t.actualDurationDays == 0 {
      return Err(ActualEndWithoutStart(row));
    }
    if t.actualDurationDays > 0 && t.actualStart.None? && t.actualEnd.None? {
      return Err(ActualDurationWithoutStart(row));
    }
    if t.actualStart.Some? && t.actualEnd.Some? {
      if t.actualEnd.value < t.actualStart.value {
        return Err(ActualEndBeforeStart(row));
      }
      t := t.(computedActualStart := t.actualStart, computedActualEnd := t.actualEnd);
    } else if t.actualStart.Some? && t.actualDurationDays > 0 {
      var start := t.actualStart.value;
      var end := AddWorkdays(start, t.actualDurationDays - 1);
      t := t.(computedActualStart := Some(start), computedActualEnd := Some(end));
    } else if t.actualStart.Some? {
      var start := t.actualStart.value;
      t := t.(computedActualStart := Some(start), computedActualEnd := Some(start));
    } else {
      return Err(ActualUndetermined(row));
    }
    return Ok(t);
  }

  /** The actual fields of a freshly read task, all of whose non-empty fields
      parse: end with duration, end alone and duration alone are refused; start
      and end give that span unless the end is earlier; start and duration
      count the duration in workdays from the start; start alone is a one-day
      span. Snapped dates are the first workday on or after the parsed day. */
  lemma ActualRules(task: Task, startStr: string, endStr: string, durationStr: string, row: int,
                    parseDate: DateParser)
    requires NoActuals(task)
    requires startStr != "" ==> parseDate(startStr).Some?
    requires endStr != "" ==> parseDate(endStr).Some?
    requires durationStr != "" ==> ParseDuration(durationStr).Ok?
    ensures var r := ActualOutcome(task, startStr, endStr, durationStr, row, parseDate);
      && (endStr != "" && durationStr != "" ==> r == Err(ActualEndWithDuration(row)))
      && (endStr != "" && startStr == "" && durationStr == "" ==> r == Err(ActualEndWithoutStart(row)))
      && (durationStr != "" && startStr == "" && endStr == "" ==> r == Err(ActualDurationWithoutStart(row)))
      && (startStr != "" && endStr != "" && durationStr == "" ==>
            var s := FirstWorkdayFrom(parseDate(startStr).value);
            var e := FirstWorkdayFrom(parseDate(endStr).value);
            if e < s then r == Err(ActualEndBeforeStart(row))
            else r.Ok? && r.value.computedActualStart == Some(s) && r.value.computedActualEnd == Some(e))
      && (startStr != "" && endStr == "" && durationStr != "" ==>
            var s := FirstWorkdayFrom(parseDate(startStr).value);
            r.Ok? && r.value.computedActualStart == Some(s)
            && r.value.computedActualEnd == Some(WorkdaysAfter(s, ParseDuration(durationStr).value - 1)))
      && (startStr != "" && endStr == "" && durationStr == "" ==>
            var s := FirstWorkdayFrom(parseDate(startStr).value);
            r.Ok? && r.value.computedActualStart == Some(s) && r.value.computedActualEnd == Some(s))
  {
  }

  /** For a freshly read task the "cannot be determined" branch is never taken,
      and a success records an actual span of workdays whose end is not before
      its start, or, when every field is empty, no actual dates at all. */
  lemma ActualOutcomeSpan(task: Task, startStr: string, endStr: string, durationStr: string, row: int,
                          parseDate: DateParser)
    requires NoActuals(task)
    ensures ActualOutcome(task, startStr, endStr, durationStr, row, parseDate) != Err(ActualUndetermined(row))
    ensures var r := ActualOutcome(task, startStr, endStr, durationStr, row, parseDate);
      r.Ok? ==>
        if startStr == "" && endStr == "" && durationStr == "" then r.value == task
        else
          r.value.HasActual()
          && IsWorkday(r.value.computedActualStart.value) && IsWorkday(r.value.computedActualEnd.value)
          && r.value.computedActualStart.value <= r.value.computedActualEnd.value
          && r.value.computedActualStart == r.value.actualStart
  {
    var r := ActualOutcome(task, startStr, endStr, durationStr, row, parseDate);
    if r.Ok? && !(startStr == "" && endStr == "" && durationStr == "") {
      var s := r.value.actualStart.value;
      if r.value.computedActualEnd != r.value.actualStart && r.value.computedActualEnd != r.value.actualEnd {
        FirstWorkdayFromFixes(s);
      }
    }
  }

  // ---------------------------------------------------------------------------
  // parseRecord
  // ---------------------------------------------------------------------------

  /** A heading row: only its name, status, notes and custom values. */
  function HeadingTask(name: string, status: string, notes: string, custom: seq<string>): Task
  {
    NamedTask(name).(isHeading := true, status := status, notes := notes, customValues := custom)
  }

  /** A display-only row: only its name, notes and custom values. */
  function DisplayTask(name: string, notes: string, custom: seq<string>): Task
  {
    NamedTask(name).(displayOnly := true, notes := notes, customValues := custom)
  }

  /** The first scheduling rule a task breaks (reader.go:228-242), if any. */
  function SchedulingError(t: Task, row: int): Option<ReadError>
  {
    if t.end.Some? && t.durationDays > 0 then Some(EndWithDuration(row))
    else if t.end.Some? && t.start.None? && t.durationDays == 0 then Some(EndWithoutStart(row))
    else if t.durationDays == 0 && t.end.None? then Some(NoDurationOrEnd(row))
    else if t.start.None? && t.durationDays > 0 && |t.dependsOn| == 0 then Some(DurationOnlyUnanchored(row))
    else if t.start.None? && t.end.None? && t.durationDays == 0 then Some(LacksScheduling(row))
    else None
  }

  /** A task the scheduler can place: an end needs a start and excludes a
      duration; without an end a duration is needed, anchored by a start or
      by dependencies. */
  predicate Schedulable(t: Task)
  {
    (t.end.Some? && t.start.Some? && t.durationDays == 0)
    || (t.end.None? && t.durationDays > 0 && (t.start.Some? || |t.dependsOn| > 0))
  }

  /** The scheduling rules accept exactly the schedulable tasks; the last rule
      ("lacks scheduling information") is never the one that fires. */
  lemma SchedulingErrorMeaning(t: Task, row: int)
    requires t.durationDays >= 0
    ensures SchedulingError(t, row).None? <==> Schedulable(t)
    ensures SchedulingError(t, row) != Some(LacksScheduling(row))
    ensures t.end.Some? && t.durationDays > 0 ==> SchedulingError(t, row) == Some(EndWithDuration(row))
    ensures t.end.Some? && t.start.None? ==> SchedulingError(t, row).Some?
    ensures t.end.None? && t.durationDays == 0 ==> SchedulingError(t, row) == Some(NoDurationOrEnd(row))
  {
  }

  /** The task a regular row declares, before its dates are checked. */
  function DeclaredTask(name: string, dependsStr: string, notes: string, status: string, custom: seq<string>): Task
  {
    NamedTask(name).(dependsOn := DependsOf(dependsStr), notes := notes, status := status, customValues := custom)
  }

  /** The planned fields of a regular row read into `task`: each non-empty
      field is parsed, the first one that fails is reported. */
  function PlannedOutcome(task: Task, startStr: string, endStr: string, durationStr: string, row: int,
                          parseDate: DateParser): Result<Task, ReadError>
  {
    if startStr != "" && parseDate(startStr).None? then Err(InvalidStart(row))
    else if endStr != "" && parseDate(endStr).None? then Err(InvalidEnd(row))
    else if durationStr != "" && ParseDuration(durationStr).Err? then
      Err(InvalidDuration(row, ParseDuration(durationStr).error))
    else
      Ok(task.(
        start := if startStr != "" then parseDate(startStr) else task.start,
        end := if endStr != "" then parseDate(endStr) else task.end,
        durationDays := if durationStr != "" then ParseDuration(durationStr).value else task.durationDays))
  }

  /** The trimmed fields of one record that `parseRecord` reads (its `get`
      closure applied to every column key) and its custom values. */
  datatype Row = Row(name: string, status: string, notes: string,
                     start: string, end: string, duration: string, dependsOn: string,
                     actualStart: string, actualEnd: string, actualDuration: string,
                     custom: seq<string>)

  /** Reads the fields of one record. */
  function RowFields(record: seq<string>, col: map<string, nat>, customCols: seq<CustomColumn>): (f: Row)
    ensures Trimmed(f.name)
  {
    Row(Field(record, col, "name"), Field(record, col, "status"), Field(record, col, "notes"),
        Field(record, col, "start"), Field(record, col, "end"), Field(record, col, "duration"),
        Field(record, col, "depends_on"), Field(record, col, "actual_start"), Field(record, col, "actual_end"),
        Field(record, col, "actual_duration"), CustomValuesOf(record, customCols))
  }

  /** Only a name, and perhaps notes and status, is given. */
  predicate NameOnly(f: Row)
  {
    f.start == "" && f.end == "" && f.duration == "" && f.dependsOn == ""
    && f.actualStart == "" && f.actualEnd == "" && f.actualDuration == ""
  }

  /** What `parseRecord` makes of the fields of one record (reader.go:158-249). */
  function RowOutcome(f: Row, row: int, parseDate: DateParser): Result<Task, ReadError>
  {
    if |f.name| > 0 && f.name[0] == '#' then
      Ok(HeadingTask(TrimSpace(f.name[1..]), f.status, f.notes, f.custom))
    else if f.name != "" && NameOnly(f) then
      Ok(DisplayTask(f.name, f.notes, f.custom))
    else if f.name == "" then Err(NameRequired(row))
    else TaskOutcome(f, row, parseDate)
  }

  /** What becomes of a regular row (reader.go:196-248): its planned fields
      are parsed, the scheduling rules applied, then its actual fields read. */
  function TaskOutcome(f: Row, row: int, parseDate: DateParser): Result<Task, ReadError>
  {
    match PlannedOutcome(DeclaredTask(f.name, f.dependsOn, f.notes, f.status, f.custom), f.start, f.end, f.duration, row, parseDate)
    case Err(e) => Err(e)
    case Ok(t) =>
      match SchedulingError(t, row)
      case Some(e) => Err(e)
      case None => ActualOutcome(t, f.actualStart, f.actualEnd, f.actualDuration, row, parseDate)
  }

  /** What `parseRecord` makes of one record. */
  function RecordOutcome(record: seq<string>, col: map<string, nat>, customCols: seq<CustomColumn>, row: int,
                         parseDate: DateParser): Result<Task, ReadError>
  {
    RowOutcome(RowFields(record, col, customCols), row, parseDate)
  }

  /** Parses one record, checking its fields in the order `parseRecord` does. */
  method ParseRecord(record: seq<string>, col: map<string, nat>, customCols: seq<CustomColumn>, row: int,
                     parseDate: DateParser) returns (r: Result<Task, ReadError>)
    ensures r == RecordOutcome(record, col, customCols, row, parseDate)
  {
    var customValues := MakeCustomValues(record, customCols);
    var name := Field(record, col, "name");
    var statusStr := Field(record, col, "status");
    if |name| > 0 && name[0] == '#' {
      return Ok(HeadingTask(TrimSpace(name[1..]), statusStr, Field(record, col, "notes"), customValues));
    }
    var startStr := Field(record, col, "start");
    var endStr := Field(record, col, "end");
    var durationStr := Field(record, col, "duration");
    var dependsStr := Field(record, col, "depends_on");
    var actualStartStr := Field(record, col, "actual_start");
    var actualEndStr := Field(record, col, "actual_end");
    var actualDurationStr := Field(record, col, "actual_duration");
    var notesStr := Field(record, col, "notes");
    var fields := Row(name, statusStr, notesStr, startStr, endStr, durationStr, dependsStr,
                      actualStartStr, actualEndStr, actualDurationStr, customValues);
    assert fields == RowFields(record, col, customCols);
    if name != "" && startStr == "" && endStr == "" && durationStr == "" && dependsStr == ""
      && actualStartStr == "" && actualEndStr == "" && actualDurationStr == "" {
      return Ok(DisplayTask(name, notesStr, customValues));
    }
    if name == "" {
      return Err(NameRequired(row));
    }
    r := ParseTask(fields, row, parseDate);
  }

  /** Reads the planned fields of a regular row into `task`. */
  method ParsePlanned(task: Task, startStr: string, endStr: string, durationStr: string, row: int,
                      parseDate: DateParser) returns (r: Result<Task, ReadError>)
    ensures r == PlannedOutcome(task, startStr, endStr, durationStr, row, parseDate)
  {
    var t := task;
    if startStr != "" {
      var parsed := parseDate(startStr);
      if parsed.None? {
        return Err(InvalidStart(row));
      }
      t := t.(start := parsed);
    }
    if endStr != "" {
      var parsed := parseDate(endStr);
      if parsed.None? {
        return Err(InvalidEnd(row));
      }
      t := t.(end := parsed);
    }
    if durationStr != "" {
      var days := ParseDuration(durationStr);
      if days.Err? {
        return Err(InvalidDuration(row, days.error));
      }
      t := t.(durationDays := days.value);
    }
    return Ok(t);
  }

  /** Builds the task of a regular row and applies the rules to it. */
  method ParseTask(f: Row, row: int, parseDate: DateParser) returns (r: Result<Task, ReadError>)
    ensures r == TaskOutcome(f, row, parseDate)
  {
    var deps := ParseDepends(f.dependsOn);
    var declared := NamedTask(f.name).(dependsOn := deps, notes := f.notes, status := f.status, customValues := f.custom);
    assert declared == DeclaredTask(f.name, f.dependsOn, f.notes, f.status, f.custom);
    var planned := ParsePlanned(declared, f.start, f.end, f.duration, row, parseDate);
    if planned.Err? {
      return Err(planned.error);
    }
    var task := planned.value;
    if task.end.Some? && task.durationDays > 0 {
      return Err(EndWithDuration(row));
    }
    if task.end.Some? && task.start.None? && task.durationDays == 0 {
      return Err(EndWithoutStart(row));
    }
    if task.durationDays == 0 && task.end.None? {
      return Err(NoDurationOrEnd(row));
    }
    if task.start.None? && task.durationDays > 0 && |task.dependsOn| == 0 {
      return Err(DurationOnlyUnanchored(row));
    }
    if task.start.None? && task.end.None? && task.durationDays == 0 {
      return Err(LacksScheduling(row));
    }
    r := ParseActual(task, f.actualStart, f.actualEnd, f.actualDuration, row, parseDate);
  }

  /** How a record is classified (reader.go:169-194): a name starting with `#`
      makes a heading named by the rest, trimmed; a name with every scheduling,
      dependency and actual field empty makes a display-only row (its status
      is not kept); otherwise an empty name is refused. */
  lemma RowClassification(f: Row, row: int, parseDate: DateParser)
    ensures var r := RowOutcome(f, row, parseDate);
      && (|f.name| > 0 && f.name[0] == '#' ==>
            r.Ok? && r.value.isHeading && !r.value.displayOnly && r.value.name == TrimSpace(f.name[1..])
            && r.value.status == f.status && r.value.notes == f.notes && r.value.customValues == f.custom
            && !r.value.HasStart() && !r.value.HasEnd() && !r.value.HasDuration() && r.value.dependsOn == [])
      && (f.name == "" ==> r == Err(NameRequired(row)))
      && (f.name != "" && f.name[0] != '#' && NameOnly(f) ==>
            r.Ok? && r.value.displayOnly && !r.value.isHeading && r.value.name == f.name
            && r.value.notes == f.notes && r.value.status == "" && r.value.customValues == f.custom
            && !r.value.HasStart() && !r.value.HasEnd() && !r.value.HasDuration() && r.value.dependsOn == [])
  {
  }

  /** A regular row that is accepted carries its non-empty name, its parsed
      dates and dependency list, and is schedulable; it has both actual dates
      or neither. */
  lemma RowRegular(f: Row, row: int, parseDate: DateParser, t: Task)
    requires RowOutcome(f, row, parseDate) == Ok(t) && !t.isHeading && !t.displayOnly
    ensures t.name == f.name && t.name != "" && t.name[0] != '#'
      && t.dependsOn == DependsOf(f.dependsOn)
      && t.start == (if f.start == "" then None else parseDate(f.start))
      && t.end == (if f.end == "" then None else parseDate(f.end))
      && (f.duration == "" ==> t.durationDays == 0)
      && (f.duration != "" ==> ParseDuration(f.duration) == Ok(t.durationDays))
      && Schedulable(t)
      && (t.HasActual() || (t.computedActualStart.None? && t.computedActualEnd.None?))
  {
    var declared := DeclaredTask(f.name, f.dependsOn, f.notes, f.status, f.custom);
    var planned := PlannedOutcome(declared, f.start, f.end, f.duration, row, parseDate);
    SchedulingErrorMeaning(planned.value, row);
    ActualOutcomeSpan(planned.value, f.actualStart, f.actualEnd, f.actualDuration, row, parseDate);
  }

  /** The scheduling rules of a regular row whose planned fields parse: an end
      with a duration, an end without a start, neither a duration nor an end,
      and a duration with neither a start nor dependencies are each refused. */
  lemma RowSchedulingRules(f: Row, row: int, parseDate: DateParser)
    requires f.name != "" && f.name[0] != '#' && !NameOnly(f)
    requires f.start != "" ==> parseDate(f.start).Some?
    requires f.end != "" ==> parseDate(f.end).Some?
    requires f.duration != "" ==> ParseDuration(f.duration).Ok?
    ensures var r := RowOutcome(f, row, parseDate);
      && (f.end != "" && f.duration != "" ==> r == Err(EndWithDuration(row)))
      && (f.end != "" && f.start == "" && f.duration == "" ==> r == Err(EndWithoutStart(row)))
      && (f.end == "" && f.duration == "" ==> r == Err(NoDurationOrEnd(row)))
      && (f.end == "" && f.duration != "" && f.start == "" && DependsOf(f.dependsOn) == [] ==>
            r == Err(DurationOnlyUnanchored(row)))
  {
  }

  /** Once its dependencies are scheduled, a schedulable task is either given
      its dates by the scheduler or found to end before it can start: it never
      lacks a start, an end rule or a dependency. */
  lemma SchedulableResolves(t: Task, scheduled: map<string, Task>)
    requires Schedulable(t)
    requires forall d :: d in t.dependsOn ==> d in scheduled
    ensures Scheduler.Resolve(t, scheduled).Ok? || Scheduler.Resolve(t, scheduled) == Err(Scheduler.EndsBeforeStart(t.name))
  {
  }

  // ---------------------------------------------------------------------------
  // validateDependencies
  // ---------------------------------------------------------------------------

  /** Every dependency of every task names a task of the list. */
  predicate DependenciesKnown(tasks: seq<Task>)
  {
    forall i, j :: 0 <= i < |tasks| && 0 <= j < |tasks[i].dependsOn| ==> tasks[i].dependsOn[j] in Names(tasks)
  }

  /** Dependency `j` of task `i` is the first, in task order and then list
      order, that names no task of the list. */
  predicate FirstUnknownAt(tasks: seq<Task>, i: nat, j: nat)
    requires i < |tasks| && j < |tasks[i].dependsOn|
  {
    && tasks[i].dependsOn[j] !in Names(tasks)
    && (forall i', j' :: 0 <= i' < i && 0 <= j' < |tasks[i'].dependsOn| ==> tasks[i'].dependsOn[j'] in Names(tasks))
    && (forall j' :: 0 <= j' < j ==> tasks[i].dependsOn[j'] in Names(tasks))
  }

  /** `e` reports the first unknown dependency of the list, with the task that names it. */
  predicate ReportsFirstUnknown(tasks: seq<Task>, e: ReadError)
  {
    exists i: nat, j: nat :: i < |tasks| && j < |tasks[i].dependsOn| && FirstUnknownAt(tasks, i, j)
      && e == UnknownDependency(tasks[i].name, tasks[i].dependsOn[j])
  }

  /** Reports the first dependency, in task order and then list order, that
      names no task of the list. */
  method ValidateDependencies(tasks: seq<Task>) returns (err: Option<ReadError>)
    ensures err.None? <==> DependenciesKnown(tasks)
    ensures err.Some? ==> ReportsFirstUnknown(tasks, err.value)
  {
    var nameSet: set<string> := {};
    for k := 0 to |tasks|
      invariant forall n :: n in nameSet <==> n in Names(tasks)[..k]
    {
      assert Names(tasks)[..k + 1] == Names(tasks)[..k] + [tasks[k].name];
      nameSet := nameSet + {tasks[k].name};
    }
    assert Names(tasks)[..|tasks|] == Names(tasks);
    for i := 0 to |tasks|
      invariant forall i', j' :: 0 <= i' < i && 0 <= j' < |tasks[i'].dependsOn| ==> tasks[i'].dependsOn[j'] in Names(tasks)
    {
      var deps := tasks[i].dependsOn;
      for j := 0 to |deps|
        invariant forall j' :: 0 <= j' < j ==> deps[j'] in Names(tasks)
      {
        if deps[j] !in nameSet {
          assert FirstUnknownAt(tasks, i, j);
          return Some(UnknownDependency(tasks[i].name, deps[j]));
        }
      }
    }
    return None;
  }

  // ---------------------------------------------------------------------------
  // Read
  // ---------------------------------------------------------------------------

  /** The 1-based record number of the record at `index`: the header is record 1. */
  function RowOf(index: nat): int
  {
    index + 2
  }

  /** Which records are blank. */
  function BlankRows(records: seq<seq<string>>): (blank: seq<bool>)
    ensures |blank| == |records|
  {
    seq(|records|, k requires 0 <= k < |records| => RecordAllEmpty(records[k]))
  }

  /** What `parseRecord` makes of each record, at its record number. */
  function Outcomes(records: seq<seq<string>>, col: map<string, nat>, customCols: seq<CustomColumn>,
                    parseDate: DateParser): (outs: seq<Result<Task, ReadError>>)
    ensures |outs| == |records|
  {
    seq(|records|, k requires 0 <= k < |records| => RecordOutcome(records[k], col, customCols, RowOf(k), parseDate))
  }

  /** The record at `k` is reported at its own record number. */
  lemma RecordAt(records: seq<seq<string>>, col: map<string, nat>, customCols: seq<CustomColumn>,
                 parseDate: DateParser, k: nat)
    requires k < |records|
    ensures BlankRows(records)[k] == RecordAllEmpty(records[k])
    ensures Outcomes(records, col, customCols, parseDate)[k] == RecordOutcome(records[k], col, customCols, RowOf(k), parseDate)
  {
  }

  /** Every record that is not blank is accepted. */
  predicate AllAccepted(blank: seq<bool>, outs: seq<Result<Task, ReadError>>)
    requires |blank| == |outs|
  {
    forall k :: 0 <= k < |outs| && !blank[k] ==> outs[k].Ok?
  }

  /** The tasks of the accepted records that are not blank, in file order. */
  function AcceptedTasks(blank: seq<bool>, outs: seq<Result<Task, ReadError>>): (ts: seq<Task>)
    requires |blank| == |outs|
    ensures |ts| <= |outs|
  {
    if outs == [] then []
    else
      var k := |outs| - 1;
      var init := AcceptedTasks(blank[..k], outs[..k]);
      if blank[k] || outs[k].Err? then init else init + [outs[k].value]
  }

  /** Blank records give no task, and when every other record is accepted
      each gives exactly one task, in order. */
  lemma {:induction false} AcceptedTasksCount(blank: seq<bool>, outs: seq<Result<Task, ReadError>>)
    requires |blank| == |outs| && AllAccepted(blank, outs)
    ensures |AcceptedTasks(blank, outs)| == |set k | 0 <= k < |outs| && !blank[k]|
  {
    if outs != [] {
      var k := |outs| - 1;
      AcceptedTasksCount(blank[..k], outs[..k]);
      var before := set j | 0 <= j < k && !blank[..k][j];
      var now := set j | 0 <= j < |outs| && !blank[j];
      assert before == set j | 0 <= j < k && !blank[j];
      if blank[k] {
        assert now == before;
      } else {
        assert now == before + {k};
      }
    }
  }

  /** No two non-heading tasks share a name (headings may repeat). */
  predicate UniqueTaskNames(ts: seq<Task>)
  {
    forall i, j :: 0 <= i < j < |ts| && !ts[i].isHeading && !ts[j].isHeading ==> ts[i].name != ts[j].name
  }

  /** The names of the non-heading tasks. */
  function TaskNames(ts: seq<Task>): (names: set<string>)
    ensures forall i :: 0 <= i < |ts| && !ts[i].isHeading ==> ts[i].name in names
    ensures forall n :: n in names ==> exists i :: 0 <= i < |ts| && !ts[i].isHeading && ts[i].name == n
  {
    set i | 0 <= i < |ts| && !ts[i].isHeading :: ts[i].name
  }

  /** The outcomes up to one more record. */
  lemma {:induction false} AcceptedTasksStep(blank: seq<bool>, outs: seq<Result<Task, ReadError>>, k: nat)
    requires |blank| == |outs| && k < |outs|
    ensures AcceptedTasks(blank[..k + 1], outs[..k + 1]) ==
      if blank[k] || outs[k].Err? then AcceptedTasks(blank[..k], outs[..k])
      else AcceptedTasks(blank[..k], outs[..k]) + [outs[k].value]
    ensures AllAccepted(blank[..k + 1], outs[..k + 1]) <==>
      AllAccepted(blank[..k], outs[..k]) && (blank[k] || outs[k].Ok?)
  {
    assert blank[..k + 1][..k] == blank[..k];
    assert outs[..k + 1][..k] == outs[..k];
  }

  /** The task list grows by one task: its name set grows by the task's name
      unless it is a heading, and the names stay unique unless a non-heading
      name is met again. */
  lemma {:induction false} TaskNamesStep(ts: seq<Task>, t: Task)
    ensures TaskNames(ts + [t]) == if t.isHeading then TaskNames(ts) else TaskNames(ts) + {t.name}
    ensures UniqueTaskNames(ts) ==> (UniqueTaskNames(ts + [t]) <==> t.isHeading || t.name !in TaskNames(ts))
  {
    var all := ts + [t];
    assert forall i :: 0 <= i < |ts| ==> all[i] == ts[i];
    var expected := if t.isHeading then TaskNames(ts) else TaskNames(ts) + {t.name};
    forall n | n in TaskNames(all) ensures n in expected {
      var i :| 0 <= i < |all| && !all[i].isHeading && all[i].name == n;
      if i < |ts| {
        assert ts[i].name == n;
      }
    }
    forall n | n in expected ensures n in TaskNames(all) {
      if n in TaskNames(ts) {
        var i :| 0 <= i < |ts| && !ts[i].isHeading && ts[i].name == n;
        assert all[i] == ts[i];
      } else {
        assert all[|ts|] == t;
      }
    }
    if !t.isHeading && t.name in TaskNames(ts) {
      var i :| 0 <= i < |ts| && !ts[i].isHeading && ts[i].name == t.name;
      assert all[i].name == all[|ts|].name;
    }
  }

  /** The record at `k` is the first refused, with error `e`: it is not blank,
      every record before it is accepted with unique names, and either
      `parseRecord` refuses it with `e`, or it repeats a name and `e` reports
      the duplicate at its record number. */
  predicate RefusedAt(blank: seq<bool>, outs: seq<Result<Task, ReadError>>, k: nat, e: ReadError)
    requires |blank| == |outs| && k < |outs|
  {
    && !blank[k]
    && AllAccepted(blank[..k], outs[..k])
    && UniqueTaskNames(AcceptedTasks(blank[..k], outs[..k]))
    && (outs[k].Err? ==> e == outs[k].error)
    && (outs[k].Ok? ==>
          && !UniqueTaskNames(AcceptedTasks(blank[..k], outs[..k]) + [outs[k].value])
          && e == DuplicateName(RowOf(k), outs[k].value.name))
  }

  /** The record loop of `Read` (reader.go:89-122): blank records are skipped
      (their record number still counts), the first record refused ends the
      read, and a non-heading name met twice is refused at the record that
      repeats it. */
  method ParseRows(records: seq<seq<string>>, col: map<string, nat>, customCols: seq<CustomColumn>,
                   parseDate: DateParser) returns (r: Result<seq<Task>, ReadError>)
    ensures var blank, outs := BlankRows(records), Outcomes(records, col, customCols, parseDate);
      && (r.Ok? <==> (AllAccepted(blank, outs) && UniqueTaskNames(AcceptedTasks(blank, outs))))
      && (r.Ok? ==> r.value == AcceptedTasks(blank, outs))
      && (r.Err? ==> exists k: nat :: k < |records| && RefusedAt(blank, outs, k, r.error))
  {
    ghost var blank := BlankRows(records);
    ghost var outs := Outcomes(records, col, customCols, parseDate);
    var tasks: seq<Task> := [];
    var nameSet: set<string> := {};
    for k := 0 to |records|
      invariant ReadSoFar(blank, outs, k, tasks, nameSet)
    {
      RecordAt(records, col, customCols, parseDate, k);
      var record := records[k];
      if RecordAllEmpty(record) {
        ReadSkips(blank, outs, k, tasks, nameSet);
        continue;
      }
      var parsed := ParseRecord(record, col, customCols, RowOf(k), parseDate);
      if parsed.Err? {
        assert RefusedAt(blank, outs, k, parsed.error);
        return Err(parsed.error);
      }
      var added, names := AddTask(tasks, nameSet, parsed.value, RowOf(k));
      if added.Err? {
        ReadRepeats(blank, outs, k, tasks, nameSet);
        assert RefusedAt(blank, outs, k, added.error);
        return Err(added.error);
      }
      ReadAdds(blank, outs, k, tasks, nameSet, names);
      tasks, nameSet := added.value, names;
    }
    ReadEnds(blank, outs, tasks, nameSet);
    return Ok(tasks);
  }

  /** The reading loop's state after the first `k` records: all of them
      accepted, their tasks collected in order, the non-heading names unique and
      recorded in `nameSet`. */
  predicate ReadSoFar(blank: seq<bool>, outs: seq<Result<Task, ReadError>>, k: nat,
                      tasks: seq<Task>, nameSet: set<string>)
    requires |blank| == |outs| && k <= |outs|
  {
    && AllAccepted(blank[..k], outs[..k])
    && tasks == AcceptedTasks(blank[..k], outs[..k])
    && UniqueTaskNames(tasks)
    && nameSet == TaskNames(tasks)
  }

  /** A blank record is skipped. */
  lemma ReadSkips(blank: seq<bool>, outs: seq<Result<Task, ReadError>>, k: nat,
                  tasks: seq<Task>, nameSet: set<string>)
    requires |blank| == |outs| && k < |outs| && ReadSoFar(blank, outs, k, tasks, nameSet)
    requires blank[k]
    ensures ReadSoFar(blank, outs, k + 1, tasks, nameSet)
  {
    AcceptedTasksStep(blank, outs, k);
  }

  /** An accepted record whose name is new adds its task. */
  lemma ReadAdds(blank: seq<bool>, outs: seq<Result<Task, ReadError>>, k: nat,
                 tasks: seq<Task>, nameSet: set<string>, names: set<string>)
    requires |blank| == |outs| && k < |outs| && ReadSoFar(blank, outs, k, tasks, nameSet)
    requires !blank[k] && outs[k].Ok?
    requires UniqueTaskNames(tasks + [outs[k].value]) && names == TaskNames(tasks + [outs[k].value])
    ensures ReadSoFar(blank, outs, k + 1, tasks + [outs[k].value], names)
  {
    AcceptedTasksStep(blank, outs, k);
  }

  /** An accepted record that repeats a name makes the whole file's names
      repeat. */
  lemma ReadRepeats(blank: seq<bool>, outs: seq<Result<Task, ReadError>>, k: nat,
                    tasks: seq<Task>, nameSet: set<string>)
    requires |blank| == |outs| && k < |outs| && ReadSoFar(blank, outs, k, tasks, nameSet)
    requires !blank[k] && outs[k].Ok? && !UniqueTaskNames(tasks + [outs[k].value])
    ensures !UniqueTaskNames(AcceptedTasks(blank, outs))
  {
    AcceptedTasksStep(blank, outs, k);
    UniquePrefix(blank, outs, k + 1);
  }

  /** After the last record the loop holds the whole file's tasks. */
  lemma ReadEnds(blank: seq<bool>, outs: seq<Result<Task, ReadError>>, tasks: seq<Task>, nameSet: set<string>)
    requires |blank| == |outs| && ReadSoFar(blank, outs, |outs|, tasks, nameSet)
    ensures AllAccepted(blank, outs) && UniqueTaskNames(tasks) && tasks == AcceptedTasks(blank, outs)
  {
    assert blank[..|outs|] == blank;
    assert outs[..|outs|] == outs;
  }

  /** Appends one parsed task to the list, refusing a second task of the same
      name; headings are never compared. */
  method AddTask(tasks: seq<Task>, nameSet: set<string>, task: Task, row: int)
    returns (r: Result<seq<Task>, ReadError>, names: set<string>)
    requires UniqueTaskNames(tasks) && nameSet == TaskNames(tasks)
    ensures r.Ok? <==> UniqueTaskNames(tasks + [task])
    ensures r.Ok? ==> r.value == tasks + [task] && names == TaskNames(tasks + [task])
    ensures r.Err? ==> r.error == DuplicateName(row, task.name)
  {
    TaskNamesStep(tasks, task);
    names := nameSet;
    if task.isHeading {
      return Ok(tasks + [task]), names;
    }
    if task.name in nameSet {
      return Err(DuplicateName(row, task.name)), names;
    }
    names := nameSet + {task.name};
    r := Ok(tasks + [task]);
  }

  /** Names repeated in the first records stay repeated in the whole file. */
  lemma {:induction false} UniquePrefix(blank: seq<bool>, outs: seq<Result<Task, ReadError>>, k: nat)
    requires |blank| == |outs| && k <= |outs|
    ensures UniqueTaskNames(AcceptedTasks(blank, outs)) ==> UniqueTaskNames(AcceptedTasks(blank[..k], outs[..k]))
    decreases |outs|
  {
    if !UniqueTaskNames(AcceptedTasks(blank, outs)) {
    } else if k == |outs| {
      assert blank[..k] == blank && outs[..k] == outs;
    } else {
      var n := |outs| - 1;
      assert blank[..n][..k] == blank[..k];
      assert outs[..n][..k] == outs[..k];
      var init := AcceptedTasks(blank[..n], outs[..n]);
      var all := AcceptedTasks(blank, outs);
      assert all[..|init|] == init;
      assert UniqueTaskNames(init) by {
        forall i, j | 0 <= i < j < |init| && !init[i].isHeading && !init[j].isHeading
          ensures init[i].name != init[j].name
        {
          assert init[i] == all[i] && init[j] == all[j];
        }
      }
      UniquePrefix(blank[..n], outs[..n], k);
    }
  }

  /** The tasks of a file that reads without error. */
  function FileTasks(header: seq<string>, records: seq<seq<string>>, parseDate: DateParser): seq<Task>
  {
    AcceptedTasks(BlankRows(records), Outcomes(records, HeaderIndex(header), CustomColumns(header), parseDate))
  }

  /** Reads a file given as its header and its records: maps the header,
      parses the non-blank records, refuses duplicate names, then checks that
      every dependency names a task. On success it returns the tasks and the
      custom columns' headings. */
  method Read(header: seq<string>, records: seq<seq<string>>, parseDate: DateParser)
    returns (r: Result<(seq<Task>, seq<string>), ReadError>)
    ensures r.Ok? <==>
      (forall c :: c in RequiredColumns ==> c in HeaderIndex(header))
      && AllAccepted(BlankRows(records), Outcomes(records, HeaderIndex(header), CustomColumns(header), parseDate))
      && UniqueTaskNames(FileTasks(header, records, parseDate))
      && DependenciesKnown(FileTasks(header, records, parseDate))
    ensures r.Ok? ==> r.value == (FileTasks(header, records, parseDate), ColumnNames(CustomColumns(header)))
    ensures (exists c :: c in RequiredColumns && c !in HeaderIndex(header)) ==>
      r.Err? && r.error.MissingColumn? && r.error.column in RequiredColumns && r.error.column !in HeaderIndex(header)
    ensures var blank, outs := BlankRows(records), Outcomes(records, HeaderIndex(header), CustomColumns(header), parseDate);
      ((forall c :: c in RequiredColumns ==> c in HeaderIndex(header))
       && !(AllAccepted(blank, outs) && UniqueTaskNames(AcceptedTasks(blank, outs)))) ==>
        r.Err? && exists k: nat :: k < |records| && RefusedAt(blank, outs, k, r.error)
    ensures ((forall c :: c in RequiredColumns ==> c in HeaderIndex(header))
             && AllAccepted(BlankRows(records), Outcomes(records, HeaderIndex(header), CustomColumns(header), parseDate))
             && UniqueTaskNames(FileTasks(header, records, parseDate))
             && !DependenciesKnown(FileTasks(header, records, parseDate))) ==>
        r.Err? && ReportsFirstUnknown(FileTasks(header, records, parseDate), r.error)
  {
    var columns := MapColumns(header);
    if columns.Err? {
      return Err(MissingColumn(columns.error));
    }
    var colIndex := columns.value.index;
    var customCols := columns.value.custom;
    var tasks := ParseRows(records, colIndex, customCols, parseDate);
    if tasks.Err? {
      return Err(tasks.error);
    }
    var err := ValidateDependencies(tasks.value);
    if err.Some? {
      return Err(err.value);
    }
    var names := CustomColumnNames(customCols);
    return Ok((tasks.value, names));
  }
}
