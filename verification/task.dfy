/** The task record shared by the CSV reader, the scheduler and the layout
    builder (internal/model/task.go). */
module Model {
  import opened Wrappers

  /** A calendar date as a day number: days since 1970-01-01. Every date the
      pipeline handles is a midnight, so no time of day is carried. */
  type Date = int

  /** One CSV-defined task with its declared attributes and its computed schedule.
      A `None` stands for a nil `*time.Time`; a duration of 0 means "not set". */
  datatype Task = Task(
    name: string,
    isHeading: bool,
    displayOnly: bool,
    status: string,
    notes: string,
    customValues: seq<string>,
    start: Option<Date>,
    end: Option<Date>,
    durationDays: int,
    actualStart: Option<Date>,
    actualEnd: Option<Date>,
    actualDurationDays: int,
    dependsOn: seq<string>,
    computedStart: Date,
    computedEnd: Date,
    computedActualStart: Option<Date>,
    computedActualEnd: Option<Date>)
  {
    /** An absolute start date was provided. */
    predicate HasStart()
      ensures HasStart() <==> start != None
    {
      start.Some?
    }

    /** An absolute end date was provided. */
    predicate HasEnd()
      ensures HasEnd() <==> end != None
    {
      end.Some?
    }

    /** A duration was provided; zero (and anything below) reads as "not set". */
    predicate HasDuration()
      ensures HasDuration() <==> durationDays >= 1
    {
      durationDays > 0
    }

    /** Actual dates were computed: both ends are needed, one alone does not count. */
    predicate HasActual()
      ensures HasActual() ==> computedActualStart != None && computedActualEnd != None
      ensures computedActualStart == None || computedActualEnd == None ==> !HasActual()
    {
      computedActualStart.Some? && computedActualEnd.Some?
    }
  }

  /** The zero-valued task carrying only a name (Go's `model.Task{Name: name}`). */
  function NamedTask(name: string): (t: Task)
    ensures t.name == name && !t.isHeading && !t.displayOnly
    ensures !t.HasStart() && !t.HasEnd() && !t.HasDuration() && !t.HasActual()
    ensures t.dependsOn == [] && t.customValues == []
  {
    Task(name, false, false, "", "", [], None, None, 0, None, None, 0, [], 0, 0, None, None)
  }

  /** The names of a task list, in order. */
  function Names(ts: seq<Task>): (r: seq<string>)
    ensures |r| == |ts|
    ensures forall i :: 0 <= i < |ts| ==> r[i] == ts[i].name
  {
    seq(|ts|, i requires 0 <= i < |ts| => ts[i].name)
  }
}
