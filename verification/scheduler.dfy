/** Dependency resolution (internal/scheduler/scheduler.go): Kahn's topological
    sort over task names, computing each task's dates when it is released. */
module Scheduler {
  import opened Wrappers
  import opened Model
  import opened Calendar
  import opened Seqs
  import Lex

  /** The errors `Schedule` and `computeSchedule` report. */
  datatype ScheduleError =
    | NoTasks                                         // "no tasks to schedule"
    | DependencyNotScheduled(dep: string, task: string)
    | NoResolvableStart(task: string)                 // "lacks a resolvable start date"
    | EndsBeforeStart(task: string)                   // "ends before it can start"
    | NoDurationOrEnd(task: string)                   // "lacks duration or end"
    | CyclicDependency                                // "cyclic dependency detected"

  // ---------------------------------------------------------------------------
  // computeSchedule
  // ---------------------------------------------------------------------------

  /** The first dependency, in list order, that has not been scheduled yet. */
  function FirstUnscheduled(deps: seq<string>, scheduled: map<string, Task>): (r: Option<string>)
    ensures r == None <==> forall d :: d in deps ==> d in scheduled
    ensures r != None ==> r.value in deps && r.value !in scheduled
  {
    if deps == [] then None
    else if deps[0] !in scheduled then Some(deps[0])
    else
      assert forall d :: d in deps ==> d == deps[0] || d in deps[1..];
      FirstUnscheduled(deps[1..], scheduled)
  }

  lemma {:induction false} FirstUnscheduledAt(deps: seq<string>, scheduled: map<string, Task>, i: nat)
    requires i < |deps| && deps[i] !in scheduled
    requires forall k :: 0 <= k < i ==> deps[k] in scheduled
    ensures FirstUnscheduled(deps, scheduled) == Some(deps[i])
  {
    if i > 0 {
      FirstUnscheduledAt(deps[1..], scheduled, i - 1);
    }
  }

  /** The latest computed end among the (scheduled) dependencies. */
  function LatestEnd(deps: seq<string>, scheduled: map<string, Task>): (r: Date)
    requires deps != [] && forall d :: d in deps ==> d in scheduled
  {
    var last := deps[|deps| - 1];
    if |deps| == 1 then scheduled[last].computedEnd
    else
      var init := deps[..|deps| - 1];
      assert deps == init + [last];
      var m := LatestEnd(init, scheduled);
      if scheduled[last].computedEnd > m then scheduled[last].computedEnd else m
  }

  /** The computed start (scheduler.go:80-109): the later of the declared start
      snapped to a workday and the first workday after the latest dependency end. */
  function ResolveStart(task: Task, scheduled: map<string, Task>): (r: Result<Date, ScheduleError>)
    ensures r.Ok? ==> IsWorkday(r.value)
    ensures r.Ok? && task.start.Some? ==> task.start.value <= r.value
    ensures r.Err? ==> (r.error.DependencyNotScheduled? || r.error.NoResolvableStart?) && r.error.task == task.name
  {
    var declared: Option<Date> := if task.start.Some? then Some(FirstWorkdayFrom(task.start.value)) else None;
    if |task.dependsOn| == 0 then
      if declared.Some? then Ok(declared.value) else Err(NoResolvableStart(task.name))
    else
      match FirstUnscheduled(task.dependsOn, scheduled)
      case Some(dep) => Err(DependencyNotScheduled(dep, task.name))
      case None =>
        var depStart := NextWorkdayAfter(LatestEnd(task.dependsOn, scheduled));
        if declared.None? || depStart > declared.value then Ok(depStart) else Ok(declared.value)
  }

  /** The computed end (scheduler.go:111-121): a declared end snapped to a
      workday takes precedence over a duration counted in workdays from `start`. */
  function ResolveEnd(task: Task, start: Date): (r: Result<Date, ScheduleError>)
    ensures r.Ok? ==> IsWorkday(r.value) && start <= r.value
    ensures r.Err? ==> (r.error.EndsBeforeStart? || r.error.NoDurationOrEnd?) && r.error.task == task.name
  {
    if task.end.Some? then
      var end := FirstWorkdayFrom(task.end.value);
      if end < start then Err(EndsBeforeStart(task.name)) else Ok(end)
    else if task.durationDays > 0 then Ok(WorkdaysAfter(start, task.durationDays - 1))
    else Err(NoDurationOrEnd(task.name))
  }

  /** The task with its computed dates filled in, or the first error met. */
  function Resolve(task: Task, scheduled: map<string, Task>): (r: Result<Task, ScheduleError>)
    ensures r.Ok? ==> r.value.name == task.name && r.value.computedStart <= r.value.computedEnd
    ensures r.Err? ==> !r.error.NoTasks? && !r.error.CyclicDependency? && r.error.task == task.name
  {
    match ResolveStart(task, scheduled)
    case Err(e) => Err(e)
    case Ok(start) =>
      match ResolveEnd(task, start)
      case Err(e) => Err(e)
      case Ok(end) => Ok(task.(computedStart := start, computedEnd := end))
  }

  /** The latest end is at or after every dependency's end and is one of them. */
  lemma {:induction false} LatestEndIsMaximum(deps: seq<string>, scheduled: map<string, Task>)
    requires deps != [] && forall d :: d in deps ==> d in scheduled
    ensures forall d :: d in deps ==> scheduled[d].computedEnd <= LatestEnd(deps, scheduled)
    ensures exists d :: d in deps && scheduled[d].computedEnd == LatestEnd(deps, scheduled)
  {
    var last := deps[|deps| - 1];
    assert last in deps;
    if |deps| > 1 {
      var init := deps[..|deps| - 1];
      assert deps == init + [last];
      LatestEndIsMaximum(init, scheduled);
      var d :| d in init && scheduled[d].computedEnd == LatestEnd(init, scheduled);
      assert d in deps;
    }
  }

  /** Computes one task's dates from its declaration and the dependencies scheduled so far. */
  method ComputeSchedule(task: Task, scheduled: map<string, Task>) returns (r: Result<Task, ScheduleError>)
    ensures r == Resolve(task, scheduled)
  {
    var start: Date := 0;
    var hasStart := false;
    if task.start.Some? {
      start := NextWorkday(task.start.value);
      hasStart := true;
    }
    if |task.dependsOn| > 0 {
      var latestEnd: Date := 0;
      var seen := false;
      for i := 0 to |task.dependsOn|
        invariant forall k :: 0 <= k < i ==> task.dependsOn[k] in scheduled
        invariant seen <==> i > 0
        invariant seen ==> latestEnd == LatestEnd(task.dependsOn[..i], scheduled)
      {
        var dep := task.dependsOn[i];
        if dep !in scheduled {
          FirstUnscheduledAt(task.dependsOn, scheduled, i);
          return Err(DependencyNotScheduled(dep, task.name));
        }
        var depTask := scheduled[dep];
        assert task.dependsOn[..i + 1][..i] == task.dependsOn[..i];
        if !seen || depTask.computedEnd > latestEnd {
          latestEnd := depTask.computedEnd;
          seen := true;
        }
      }
      assert task.dependsOn[..|task.dependsOn|] == task.dependsOn;
      var depStart := NextWorkdayAfter(latestEnd);
      if !hasStart || depStart > start {
        start := depStart;
        hasStart := true;
      }
    }
    if !hasStart {
      return Err(NoResolvableStart(task.name));
    }
    assert ResolveStart(task, scheduled) == Ok(start);
    var end: Date;
    if task.end.Some? {
      end := NextWorkday(task.end.value);
      if end < start {
        return Err(EndsBeforeStart(task.name));
      }
    } else if task.durationDays > 0 {
      end := AddWorkdays(start, task.durationDays - 1);
    } else {
      return Err(NoDurationOrEnd(task.name));
    }
    return Ok(task.(computedStart := start, computedEnd := end));
  }

  /** The computed start honours every constraint: a workday, not before the
      declared start, strictly after every dependency's end, and equal to one of
      the two floors. A missing dependency or a task with neither a start nor a
      dependency is an error. */
  lemma ResolveStartMeetsConstraints(task: Task, scheduled: map<string, Task>)
    ensures (exists d :: d in task.dependsOn && d !in scheduled) ==>
      ResolveStart(task, scheduled) == Err(DependencyNotScheduled(FirstUnscheduled(task.dependsOn, scheduled).value, task.name))
    ensures (forall d :: d in task.dependsOn ==> d in scheduled) ==>
      (ResolveStart(task, scheduled).Ok? <==> task.start.Some? || task.dependsOn != [])
    ensures task.start.None? && task.dependsOn == [] ==> ResolveStart(task, scheduled) == Err(NoResolvableStart(task.name))
    ensures ResolveStart(task, scheduled).Ok? ==>
      var s := ResolveStart(task, scheduled).value;
      && IsWorkday(s)
      && (task.start.Some? ==> FirstWorkdayFrom(task.start.value) <= s)
      && (forall d :: d in task.dependsOn ==> d in scheduled && scheduled[d].computedEnd < s)
      && ((task.start.Some? && s == FirstWorkdayFrom(task.start.value)) ||
          (task.dependsOn != [] && s == NextWorkdayAfter(LatestEnd(task.dependsOn, scheduled))))
  {
    if task.dependsOn != [] && forall d :: d in task.dependsOn ==> d in scheduled {
      LatestEndIsMaximum(task.dependsOn, scheduled);
    }
  }

  /** The computed start is the earliest workday meeting the constraints: any
      earlier workday precedes the declared start or does not follow the end of
      some dependency. */
  lemma ResolveStartIsEarliest(task: Task, scheduled: map<string, Task>, w: Date)
    requires ResolveStart(task, scheduled).Ok?
    requires IsWorkday(w) && w < ResolveStart(task, scheduled).value
    ensures (task.start.Some? && w < task.start.value) ||
            (exists d :: d in task.dependsOn && d in scheduled && w <= scheduled[d].computedEnd)
  {
    var s := ResolveStart(task, scheduled).value;
    ResolveStartMeetsConstraints(task, scheduled);
    if task.start.Some? && s == FirstWorkdayFrom(task.start.value) {
      FirstWorkdayFromIsFirst(task.start.value);
    } else {
      var latest := LatestEnd(task.dependsOn, scheduled);
      NextWorkdayAfterIsFirst(latest);
      LatestEndIsMaximum(task.dependsOn, scheduled);
      var d :| d in task.dependsOn && scheduled[d].computedEnd == latest;
      assert w <= scheduled[d].computedEnd;
    }
  }

  /** The computed end: a declared end wins and is snapped to a workday, an
      error if that falls before the start; otherwise the task covers exactly
      `durationDays` workdays from its start; with neither it is an error. */
  lemma ResolveEndMeetsConstraints(task: Task, start: Date)
    requires IsWorkday(start)
    ensures ResolveEnd(task, start).Ok? <==>
      (task.end.Some? && start <= FirstWorkdayFrom(task.end.value)) || (task.end.None? && task.durationDays > 0)
    ensures task.end.Some? && FirstWorkdayFrom(task.end.value) < start ==> ResolveEnd(task, start) == Err(EndsBeforeStart(task.name))
    ensures task.end.None? && task.durationDays <= 0 ==> ResolveEnd(task, start) == Err(NoDurationOrEnd(task.name))
    ensures ResolveEnd(task, start).Ok? ==>
      var e := ResolveEnd(task, start).value;
      && start <= e && IsWorkday(e)
      && (task.end.Some? ==> e == FirstWorkdayFrom(task.end.value))
      && (task.end.None? ==> CountWorkdays(start, e) == task.durationDays - 1)
  {
    if task.end.None? && task.durationDays > 0 {
      FirstWorkdayFromFixes(start);
      WorkdaysAfterCount(start, task.durationDays - 1);
    }
  }

  /** Resolving sets the two computed dates and changes nothing else. */
  lemma ResolveSetsOnlyComputedDates(task: Task, scheduled: map<string, Task>)
    ensures Resolve(task, scheduled).Ok? <==>
      ResolveStart(task, scheduled).Ok? && ResolveEnd(task, ResolveStart(task, scheduled).value).Ok?
    ensures Resolve(task, scheduled).Ok? ==>
      var t := Resolve(task, scheduled).value;
      && t.computedStart == ResolveStart(task, scheduled).value
      && t.computedEnd == ResolveEnd(task, t.computedStart).value
      && t == task.(computedStart := t.computedStart, computedEnd := t.computedEnd)
  {
  }

  /** A resolved task starts and ends on workdays, in order, after all its dependencies. */
  lemma ResolvedDates(task: Task, scheduled: map<string, Task>)
    requires Resolve(task, scheduled).Ok?
    ensures var t := Resolve(task, scheduled).value;
      && IsWorkday(t.computedStart) && IsWorkday(t.computedEnd)
      && t.computedStart <= t.computedEnd
      && forall d :: d in task.dependsOn ==> d in scheduled && scheduled[d].computedEnd < t.computedStart
  {
    ResolveStartMeetsConstraints(task, scheduled);
    ResolveEndMeetsConstraints(task, ResolveStart(task, scheduled).value);
  }

  /** Resolving reports a missing dependency exactly when one of the task's
      dependencies has not been scheduled. */
  lemma ResolveMissingDependency(task: Task, scheduled: map<string, Task>)
    ensures (Resolve(task, scheduled).Err? && Resolve(task, scheduled).error.DependencyNotScheduled?)
            <==> exists d :: d in task.dependsOn && d !in scheduled
  {
    ResolveStartMeetsConstraints(task, scheduled);
    ResolveSetsOnlyComputedDates(task, scheduled);
  }

  // Day numbers of the dates in the Planning/Build example.
  const Fri_2024_06_07: Date := 19881
  const Mon_2024_06_10: Date := 19884
  const Tue_2024_06_11: Date := 19885
  const Thu_2024_06_13: Date := 19887

  /** Planning starts Friday 2024-06-07 for 2 workdays and ends Monday 2024-06-10;
      Build, 3 workdays after Planning, runs Tuesday 2024-06-11 to Thursday 2024-06-13. */
  lemma PlanningBuildExample()
    ensures var planning := NamedTask("Planning").(start := Some(Fri_2024_06_07), durationDays := 2);
      var build := NamedTask("Build").(dependsOn := ["Planning"], durationDays := 3);
      var planned := planning.(computedStart := Fri_2024_06_07, computedEnd := Mon_2024_06_10);
      && Resolve(planning, map[]) == Ok(planned)
      && Resolve(build, map["Planning" := planned]) ==
           Ok(build.(computedStart := Tue_2024_06_11, computedEnd := Thu_2024_06_13))
  {
    var planning := NamedTask("Planning").(start := Some(Fri_2024_06_07), durationDays := 2);
    var planned := planning.(computedStart := Fri_2024_06_07, computedEnd := Mon_2024_06_10);
    var build := NamedTask("Build").(dependsOn := ["Planning"], durationDays := 3);
    assert WorkdaysAfter(Fri_2024_06_07, 1) == Mon_2024_06_10;
    assert LatestEnd(build.dependsOn, map["Planning" := planned]) == Mon_2024_06_10;
    assert WorkdaysAfter(Tue_2024_06_11, 2) == Thu_2024_06_13;
  }

  // ---------------------------------------------------------------------------
  // The maps Schedule builds: byName, indegree and graph
  // ---------------------------------------------------------------------------

  /** The task each name refers to; a later task replaces an earlier one with the
      same name, as assignment into a Go map does. */
  function NameIndex(ts: seq<Task>): (m: map<string, Task>)
    ensures forall n :: n in m <==> n in Names(ts)
    ensures forall n :: n in m ==> m[n].name == n
  {
    if ts == [] then map[]
    else
      var init := ts[..|ts| - 1];
      var last := ts[|ts| - 1];
      assert ts == init + [last];
      assert Names(ts) == Names(init) + [last.name];
      NameIndex(init)[last.name := last]
  }

  /** Every task the index holds is one of the tasks. */
  lemma {:induction false} NameIndexHoldsTasks(ts: seq<Task>, n: string)
    requires n in NameIndex(ts)
    ensures NameIndex(ts)[n] in ts
  {
    var init := ts[..|ts| - 1];
    assert Names(ts) == Names(init) + [ts[|ts| - 1].name];
    if n != ts[|ts| - 1].name {
      NameIndexHoldsTasks(init, n);
    }
  }

  /** With unique names, every task is found under its own name. */
  lemma {:induction false} NameIndexFinds(ts: seq<Task>, k: int)
    requires Distinct(Names(ts)) && 0 <= k < |ts|
    ensures ts[k].name in NameIndex(ts) && NameIndex(ts)[ts[k].name] == ts[k]
  {
    var init := ts[..|ts| - 1];
    assert Names(init) == Names(ts)[..|ts| - 1];
    if k < |ts| - 1 {
      NameIndexFinds(init, k);
    }
  }

  /** The name `name` once for each occurrence of `d` in `deps`: the entries one
      task contributes to `graph[d]`. */
  function Occurrences(name: string, deps: seq<string>, d: string): seq<string>
  {
    if deps == [] then []
    else Occurrences(name, deps[..|deps| - 1], d) + (if deps[|deps| - 1] == d then [name] else [])
  }

  lemma OccurrencesStep(name: string, deps: seq<string>, j: int, d: string)
    requires 0 <= j < |deps|
    ensures Occurrences(name, deps[..j + 1], d) == Occurrences(name, deps[..j], d) + (if deps[j] == d then [name] else [])
  {
    assert deps[..j + 1][..j] == deps[..j];
  }

  lemma {:induction false} OccurrencesCount(name: string, deps: seq<string>, d: string)
    ensures forall y :: y in Occurrences(name, deps, d) ==> y == name
    ensures multiset(Occurrences(name, deps, d))[name] == multiset(deps)[d]
  {
    if deps != [] {
      var init := deps[..|deps| - 1];
      OccurrencesCount(name, init, d);
      assert deps == init + [deps[|deps| - 1]];
    }
  }

  /** The dependents of `d`, in task order, once per occurrence of `d` in their
      DependsOn: what scheduler.go:28-31 leaves in `graph[d]`. */
  function Dependents(ts: seq<Task>, d: string): seq<string>
  {
    if ts == [] then []
    else
      var last := ts[|ts| - 1];
      Dependents(ts[..|ts| - 1], d) + Occurrences(last.name, last.dependsOn, d)
  }

  lemma {:induction false} DependentsAreNames(ts: seq<Task>, d: string)
    ensures forall s :: s in Dependents(ts, d) ==> s in Names(ts)
  {
    if ts != [] {
      var init := ts[..|ts| - 1];
      var last := ts[|ts| - 1];
      DependentsAreNames(init, d);
      OccurrencesCount(last.name, last.dependsOn, d);
      assert Names(ts) == Names(init) + [last.name];
    }
  }

  /** With unique names, `d` lists task `ts[k]` once per occurrence of `d` in its DependsOn. */
  lemma {:induction false} DependentsCount(ts: seq<Task>, d: string, k: int)
    requires Distinct(Names(ts)) && 0 <= k < |ts|
    ensures multiset(Dependents(ts, d))[ts[k].name] == multiset(ts[k].dependsOn)[d]
  {
    var init := ts[..|ts| - 1];
    var last := ts[|ts| - 1];
    var n := ts[k].name;
    assert Names(init) == Names(ts)[..|ts| - 1];
    OccurrencesCount(last.name, last.dependsOn, d);
    if k == |ts| - 1 {
      DependentsAreNames(init, d);
      assert n !in Names(init);
      assert n !in multiset(Dependents(init, d));
    } else {
      DependentsCount(init, d, k);
      assert last.name != n;
      assert n !in Occurrences(last.name, last.dependsOn, d);
    }
  }

  /** `graph[d]`, or nothing for a name no task depends on (a nil slice in Go). */
  function Successors(graph: map<string, seq<string>>, d: string): seq<string>
  {
    if d in graph then graph[d] else []
  }

  /** The number of entries of `deps` that are not yet in `done`. */
  function Pending(deps: seq<string>, done: set<string>): nat
  {
    if deps == [] then 0
    else Pending(deps[..|deps| - 1], done) + (if deps[|deps| - 1] in done then 0 else 1)
  }

  lemma {:induction false} PendingNothingDone(deps: seq<string>)
    ensures Pending(deps, {}) == |deps|
  {
    if deps != [] {
      PendingNothingDone(deps[..|deps| - 1]);
    }
  }

  /** Nothing pending means every entry is done. */
  lemma {:induction false} PendingZero(deps: seq<string>, done: set<string>)
    requires Pending(deps, done) == 0
    ensures forall d :: d in deps ==> d in done
  {
    if deps != [] {
      var init := deps[..|deps| - 1];
      PendingZero(init, done);
      assert deps == init + [deps[|deps| - 1]];
    }
  }

  /** Something pending means some entry is not done. */
  lemma {:induction false} PendingPositive(deps: seq<string>, done: set<string>)
    requires Pending(deps, done) > 0
    ensures exists d :: d in deps && d !in done
  {
    var init := deps[..|deps| - 1];
    var last := deps[|deps| - 1];
    assert deps == init + [last];
    if last in done {
      PendingPositive(init, done);
      var d :| d in init && d !in done;
      assert d in deps;
    }
  }

  /** Completing `x` settles exactly the entries of `deps` equal to `x`. */
  lemma {:induction false} PendingAfter(deps: seq<string>, done: set<string>, x: string)
    requires x !in done
    ensures Pending(deps, done + {x}) == Pending(deps, done) - multiset(deps)[x]
  {
    if deps != [] {
      var init := deps[..|deps| - 1];
      PendingAfter(init, done, x);
      assert deps == init + [deps[|deps| - 1]];
    }
  }

  /** Indexes the tasks by name (scheduler.go:19-23). */
  method IndexByName(tasks: seq<Task>) returns (byName: map<string, Task>)
    ensures byName == NameIndex(tasks)
  {
    byName := map[];
    for i := 0 to |tasks|
      invariant byName == NameIndex(tasks[..i])
    {
      assert tasks[..i + 1][..i] == tasks[..i];
      byName := byName[tasks[i].name := tasks[i]];
    }
    assert tasks[..|tasks|] == tasks;
  }

  /** Appending one more edge `deps[j] -> name` extends the list of `d` by the
      occurrences of `d` at position `j`. */
  lemma AddEdgeStep(graph: map<string, seq<string>>, before: map<string, seq<string>>, name: string, deps: seq<string>, j: int, d: string)
    requires 0 <= j < |deps|
    requires Successors(before, d) == Successors(graph, d) + Occurrences(name, deps[..j], d)
    ensures Successors(before[deps[j] := Successors(before, deps[j]) + [name]], d)
            == Successors(graph, d) + Occurrences(name, deps[..j + 1], d)
  {
    OccurrencesStep(name, deps, j, d);
  }

  /** Appends `name` to `graph[d]` for each `d` in `deps`, in order (scheduler.go:29-31). */
  method AddEdges(graph: map<string, seq<string>>, name: string, deps: seq<string>)
    returns (graph': map<string, seq<string>>)
    ensures forall d :: Successors(graph', d) == Successors(graph, d) + Occurrences(name, deps, d)
  {
    graph' := graph;
    for j := 0 to |deps|
      invariant forall d :: Successors(graph', d) == Successors(graph, d) + Occurrences(name, deps[..j], d)
    {
      forall d
        ensures Successors(graph'[deps[j] := Successors(graph', deps[j]) + [name]], d)
                == Successors(graph, d) + Occurrences(name, deps[..j + 1], d)
      {
        AddEdgeStep(graph, graph', name, deps, j, d);
      }
      graph' := graph'[deps[j] := Successors(graph', deps[j]) + [name]];
    }
    assert deps[..|deps|] == deps;
  }

  /** Builds the in-degree map and the adjacency map (scheduler.go:25-32): each
      name starts with as many unresolved dependencies as its DependsOn lists,
      and each dependency lists its dependents. */
  method BuildGraph(tasks: seq<Task>) returns (indegree: map<string, int>, graph: map<string, seq<string>>)
    ensures indegree.Keys == NameIndex(tasks).Keys
    ensures forall n :: n in indegree ==> indegree[n] == |NameIndex(tasks)[n].dependsOn|
    ensures forall d :: Successors(graph, d) == Dependents(tasks, d)
  {
    indegree := map[];
    graph := map[];
    for i := 0 to |tasks|
      invariant indegree.Keys == NameIndex(tasks[..i]).Keys
      invariant forall n :: n in indegree ==> indegree[n] == |NameIndex(tasks[..i])[n].dependsOn|
      invariant forall d :: Successors(graph, d) == Dependents(tasks[..i], d)
    {
      var t := tasks[i];
      assert tasks[..i + 1][..i] == tasks[..i];
      indegree := indegree[t.name := |t.dependsOn|];
      graph := AddEdges(graph, t.name, t.dependsOn);
    }
    assert tasks[..|tasks|] == tasks;
  }

  /** The names without unresolved dependencies, in lexicographic order
      (scheduler.go:34-40; Go's map order is random, the sort makes it irrelevant). */
  method ZeroInDegreeNames(indegree: map<string, int>) returns (queue: seq<string>)
    ensures Lex.Sorted(queue) && Distinct(queue)
    ensures forall n :: n in queue <==> n in indegree && indegree[n] == 0
  {
    var names: seq<string> := [];
    var rest := indegree.Keys;
    while rest != {}
      invariant rest <= indegree.Keys
      invariant Distinct(names)
      invariant forall n :: n in names <==> n in indegree && n !in rest && indegree[n] == 0
      decreases |rest|
    {
      var n :| n in rest;
      if indegree[n] == 0 {
        names := names + [n];
      }
      rest := rest - {n};
    }
    queue := Lex.SortStrings(names);
    DistinctPermutation(queue, names);
    assert forall n :: n in queue <==> n in multiset(names);
  }

  /** The names that the occurrences in `succ` release, in the order of `succ`:
      each occurrence lowers its name's in-degree by one, and the occurrence that
      brings it to exactly zero releases the name. */
  function Released(succ: seq<string>, indegree: map<string, int>): seq<string>
    requires forall s :: s in succ ==> s in indegree
    decreases |succ|
  {
    if succ == [] then []
    else
      var s := succ[0];
      var indegree' := indegree[s := indegree[s] - 1];
      (if indegree'[s] == 0 then [s] else []) + Released(succ[1..], indegree')
  }

  /** The in-degrees once every occurrence in `succ` has lowered its own by one. */
  function Lowered(succ: seq<string>, indegree: map<string, int>): map<string, int>
    requires forall s :: s in succ ==> s in indegree
    decreases |succ|
  {
    if succ == [] then indegree
    else Lowered(succ[1..], indegree[succ[0] := indegree[succ[0]] - 1])
  }

  /** Lowering keeps the names and takes from each in-degree its number of occurrences. */
  lemma {:induction false} LoweredCounts(succ: seq<string>, indegree: map<string, int>)
    requires forall s :: s in succ ==> s in indegree
    ensures Lowered(succ, indegree).Keys == indegree.Keys
    ensures forall n :: n in indegree ==> Lowered(succ, indegree)[n] == indegree[n] - multiset(succ)[n]
    decreases |succ|
  {
    if succ != [] {
      var s := succ[0];
      assert succ == [s] + succ[1..];
      UpdateKeepsKeys(indegree, s, indegree[s] - 1);
      LoweredCounts(succ[1..], indegree[s := indegree[s] - 1]);
    }
  }

  /** A name is released once, and only when its in-degree is positive and at
      most its number of occurrences. */
  lemma {:induction false} ReleasedNames(succ: seq<string>, indegree: map<string, int>)
    requires forall s :: s in succ ==> s in indegree
    ensures Distinct(Released(succ, indegree))
    ensures forall n :: n in Released(succ, indegree) <==> n in indegree && 0 < indegree[n] <= multiset(succ)[n]
    decreases |succ|
  {
    if succ != [] {
      var s := succ[0];
      var indegree' := indegree[s := indegree[s] - 1];
      assert succ == [s] + succ[1..];
      ReleasedNames(succ[1..], indegree');
      var rest := Released(succ[1..], indegree');
      if indegree'[s] == 0 {
        assert s !in rest;
        DistinctConcat([s], rest);
      }
    }
  }

  /** The names released join the log of queued names without repeating one,
      and afterwards a name is logged exactly when its in-degree is no longer
      positive. */
  lemma ReleasedExtendsLog(succ: seq<string>, indegree: map<string, int>, log: seq<string>)
    requires forall s :: s in succ ==> s in indegree
    requires Distinct(log) && forall n :: n in log ==> n in indegree
    requires forall n :: n in indegree ==> (indegree[n] <= 0 <==> n in log)
    ensures Distinct(log + Released(succ, indegree))
    ensures forall n :: n in log + Released(succ, indegree) ==> n in indegree
    ensures forall n :: n in indegree ==>
      (indegree[n] - multiset(succ)[n] <= 0 <==> n in log + Released(succ, indegree))
  {
    var released := Released(succ, indegree);
    ReleasedNames(succ, indegree);
    forall n | n in log ensures n !in released {
    }
    DistinctConcat(log, released);
  }

  /** Releases the dependents of a task just scheduled (scheduler.go:60-65): each
      occurrence in `succ` lowers an in-degree by one, and a name joins the queue
      when its in-degree reaches exactly zero, in the order of `succ`. `log` is
      every name ever queued; a name is in it exactly when its in-degree is no
      longer positive, so no name is queued twice. */
  method ReleaseSuccessors(succ: seq<string>, indegree: map<string, int>, queue: seq<string>, ghost log: seq<string>)
    returns (indegree': map<string, int>, queue': seq<string>, ghost log': seq<string>)
    requires forall s :: s in succ ==> s in indegree
    requires Distinct(log) && forall n :: n in log ==> n in indegree
    requires forall n :: n in indegree ==> (indegree[n] <= 0 <==> n in log)
    ensures indegree'.Keys == indegree.Keys
    ensures forall n :: n in indegree ==> indegree'[n] == indegree[n] - multiset(succ)[n]
    ensures queue' == queue + Released(succ, indegree)
    ensures log' == log + Released(succ, indegree)
    ensures Distinct(log') && forall n :: n in log' ==> n in indegree
    ensures forall n :: n in indegree ==> (indegree'[n] <= 0 <==> n in log')
  {
    indegree', queue' := indegree, queue;
    for k := 0 to |succ|
      invariant indegree'.Keys == indegree.Keys
      invariant Lowered(succ[k..], indegree') == Lowered(succ, indegree)
      invariant queue' + Released(succ[k..], indegree') == queue + Released(succ, indegree)
    {
      var s := succ[k];
      assert succ[k..][1..] == succ[k + 1..];
      UpdateKeepsKeys(indegree', s, indegree'[s] - 1);
      indegree' := indegree'[s := indegree'[s] - 1];
      if indegree'[s] == 0 {
        queue' := queue' + [s];
      }
    }
    assert succ[|succ|..] == [];
    LoweredCounts(succ, indegree);
    log' := log + Released(succ, indegree);
    ReleasedExtendsLog(succ, indegree, log);
  }

  // ---------------------------------------------------------------------------
  // Schedule
  // ---------------------------------------------------------------------------

  lemma NamesAppend(ts: seq<Task>, t: Task)
    ensures Names(ts + [t]) == Names(ts) + [t.name]
  {
  }

  lemma NameIndexAppend(ts: seq<Task>, t: Task)
    ensures NameIndex(ts + [t]) == NameIndex(ts)[t.name := t]
  {
    assert (ts + [t])[..|ts|] == ts;
  }

  /** Each entry of `ordered` is its task in `byName` resolved against the entries before it. */
  ghost predicate ResolvedInOrder(byName: map<string, Task>, ordered: seq<Task>)
  {
    forall i :: 0 <= i < |ordered| ==>
      ordered[i].name in byName && Resolve(byName[ordered[i].name], NameIndex(ordered[..i])) == Ok(ordered[i])
  }

  lemma ResolvedInOrderAppend(byName: map<string, Task>, ordered: seq<Task>, t: Task)
    requires ResolvedInOrder(byName, ordered)
    requires t.name in byName && Resolve(byName[t.name], NameIndex(ordered)) == Ok(t)
    ensures ResolvedInOrder(byName, ordered + [t])
  {
    forall i | 0 <= i < |ordered| + 1
      ensures (ordered + [t])[i].name in byName
      ensures Resolve(byName[(ordered + [t])[i].name], NameIndex((ordered + [t])[..i])) == Ok((ordered + [t])[i])
    {
      assert (ordered + [t])[..i] == if i < |ordered| then ordered[..i] else ordered;
    }
  }

  /** The FIFO queue is the part of the log of queued names not yet taken out;
      the part already taken out is `done`. */
  ghost predicate QueueOfLog(queue: seq<string>, log: seq<string>, done: seq<string>)
  {
    |done| <= |log| && queue == log[|done|..] && done == log[..|done|]
  }

  lemma QueueOfLogPop(queue: seq<string>, log: seq<string>, done: seq<string>)
    requires QueueOfLog(queue, log, done) && queue != []
    ensures QueueOfLog(queue[1..], log, done + [queue[0]])
  {
    assert log[..|done| + 1] == log[..|done|] + [log[|done|]];
  }

  lemma QueueOfLogExtend(queue: seq<string>, log: seq<string>, done: seq<string>, queue': seq<string>)
    requires QueueOfLog(queue, log, done)
    requires |queue| <= |queue'| && queue'[..|queue|] == queue
    ensures QueueOfLog(queue', log + queue'[|queue|..], done)
  {
    var log' := log + queue'[|queue|..];
    assert log'[..|done|] == log[..|done|];
    assert queue' == queue + queue'[|queue|..];
  }

  lemma PrefixKept(a: seq<string>, b: seq<string>, p: seq<string>)
    requires |p| <= |a| && a[..|p|] == p
    ensures |p| <= |a + b| && (a + b)[..|p|] == p
  {
    assert (a + b)[..|p|] == a[..|p|];
  }

  /** `out` is a schedule of `tasks`: every name once, and each entry is its task
      resolved against exactly the entries before it. */
  ghost predicate IsSchedule(tasks: seq<Task>, out: seq<Task>)
  {
    && |out| == |tasks|
    && Distinct(Names(out))
    && Elems(Names(out)) == Elems(Names(tasks))
    && ResolvedInOrder(NameIndex(tasks), out)
  }

  /** A complete run of the loop in Schedule yields a schedule. */
  lemma CompleteRunIsSchedule(tasks: seq<Task>, ordered: seq<Task>)
    requires |ordered| == |tasks|
    requires Distinct(Names(ordered)) && forall n :: n in Names(ordered) ==> n in NameIndex(tasks)
    requires ResolvedInOrder(NameIndex(tasks), ordered)
    ensures IsSchedule(tasks, ordered)
  {
    var names := Names(ordered);
    var universe := Elems(Names(tasks));
    forall n | n in names ensures n in universe {
      assert n in NameIndex(tasks);
    }
    DistinctWithin(names, universe);
    ElemsAtMostLength(Names(tasks));
    assert Elems(names) == universe;
  }

  /** The names queued first are the dependency-free ones in lexicographic order,
      and only they are, so the schedule opens with them. */
  lemma RootsComeFirst(byName: map<string, Task>, ordered: seq<Task>, seed: seq<string>)
    requires ResolvedInOrder(byName, ordered)
    requires Distinct(Names(ordered)) && |seed| <= |ordered| && Names(ordered)[..|seed|] == seed
    requires Lex.Sorted(seed)
    requires forall n :: n in seed <==> n in byName && byName[n].dependsOn == []
    ensures forall i, j :: 0 <= i < j < |ordered| && ordered[j].dependsOn == [] ==>
      ordered[i].dependsOn == [] && Lex.Less(ordered[i].name, ordered[j].name)
  {
    var names := Names(ordered);
    Lex.SortedDistinctIsStrict(seed);
    forall i, j | 0 <= i < j < |ordered| && ordered[j].dependsOn == []
      ensures ordered[i].dependsOn == [] && Lex.Less(ordered[i].name, ordered[j].name)
    {
      ResolveSetsOnlyComputedDates(byName[names[i]], NameIndex(ordered[..i]));
      ResolveSetsOnlyComputedDates(byName[names[j]], NameIndex(ordered[..j]));
      assert names[j] in seed;
      var m :| 0 <= m < |seed| && seed[m] == names[j];
      assert names[m] == names[j];
      assert seed[i] == names[i];
    }
  }

  lemma KeysAfterInsert(m: map<string, Task>, k: string, v: Task)
    ensures m[k := v].Keys == m.Keys + {k}
  {
  }

  /** Each task is filed under its own name. */
  ghost predicate KeyedByName(byName: map<string, Task>)
  {
    forall n :: n in byName ==> byName[n].name == n
  }

  /** Every dependent listed in the adjacency map is a task. */
  ghost predicate EdgesWithin(byName: map<string, Task>, graph: map<string, seq<string>>)
  {
    forall d, s :: s in Successors(graph, d) ==> s in byName
  }

  /** `graph[d]` lists each task once per occurrence of `d` in its DependsOn. */
  ghost predicate EdgeCounts(byName: map<string, Task>, graph: map<string, seq<string>>)
  {
    forall d, n {:trigger multiset(byName[n].dependsOn)[d]} ::
      n in byName ==> multiset(Successors(graph, d))[n] == multiset(byName[n].dependsOn)[d]
  }

  /** The adjacency map BuildGraph produces lists tasks only, and with unique names
      it lists each one as often as its DependsOn names the dependency. */
  lemma GraphOfTasks(tasks: seq<Task>, graph: map<string, seq<string>>)
    requires forall d :: Successors(graph, d) == Dependents(tasks, d)
    ensures EdgesWithin(NameIndex(tasks), graph)
    ensures Distinct(Names(tasks)) ==> EdgeCounts(NameIndex(tasks), graph)
  {
    forall d ensures forall s :: s in Successors(graph, d) ==> s in NameIndex(tasks) {
      DependentsAreNames(tasks, d);
    }
    if Distinct(Names(tasks)) {
      forall d, n | n in NameIndex(tasks)
        ensures multiset(Successors(graph, d))[n] == multiset(NameIndex(tasks)[n].dependsOn)[d]
      {
        var k :| 0 <= k < |tasks| && Names(tasks)[k] == n;
        NameIndexFinds(tasks, k);
        DependentsCount(tasks, d, k);
      }
    }
  }

  /** What holds between rounds of the main loop of Schedule: `log` lists every name
      ever queued, without repetition, starting with `seed`; the queue is its part not
      yet taken out, and the part taken out names `ordered`, whose entries are
      resolved in order; a name has been queued exactly when its in-degree is no
      longer positive. */
  ghost predicate QueueState(byName: map<string, Task>, seed: seq<string>, indegree: map<string, int>,
                             queue: seq<string>, log: seq<string>, scheduled: map<string, Task>, ordered: seq<Task>)
  {
    && indegree.Keys == byName.Keys
    && Distinct(log) && (forall n :: n in log ==> n in indegree)
    && QueueOfLog(queue, log, Names(ordered))
    && (forall n :: n in indegree ==> (indegree[n] <= 0 <==> n in log))
    && scheduled == NameIndex(ordered)
    && ResolvedInOrder(byName, ordered)
    && |seed| <= |log| && log[..|seed|] == seed
  }

  /** Each in-degree counts the dependencies of its task that are not yet done. */
  ghost predicate PendingCounts(byName: map<string, Task>, indegree: map<string, int>, done: set<string>)
  {
    forall n {:trigger Pending(byName[n].dependsOn, done)} ::
      n in indegree ==> n in byName && indegree[n] == Pending(byName[n].dependsOn, done)
  }

  /** Releasing the dependents of `name` keeps the in-degrees equal to the
      dependencies still pending once `name` is done. */
  lemma ReleaseKeepsPending(byName: map<string, Task>, graph: map<string, seq<string>>, name: string,
                            indegree: map<string, int>, indegree': map<string, int>, done: set<string>)
    requires EdgeCounts(byName, graph)
    requires PendingCounts(byName, indegree, done) && name !in done
    requires indegree.Keys == byName.Keys && indegree'.Keys == indegree.Keys
    requires forall n :: n in indegree ==> indegree'[n] == indegree[n] - multiset(Successors(graph, name))[n]
    ensures PendingCounts(byName, indegree', done + {name})
  {
    forall n | n in indegree'
      ensures n in byName && indegree'[n] == Pending(byName[n].dependsOn, done + {name})
    {
      assert indegree[n] == Pending(byName[n].dependsOn, done);
      PendingAfter(byName[n].dependsOn, done, name);
    }
  }

  lemma QueueStateInitially(byName: map<string, Task>, seed: seq<string>, indegree: map<string, int>)
    requires indegree.Keys == byName.Keys
    requires Distinct(seed) && forall n :: n in seed ==> n in indegree
    requires forall n :: n in indegree ==> (indegree[n] <= 0 <==> n in seed)
    ensures QueueState(byName, seed, indegree, seed, seed, map[], [])
  {
    assert Names([]) == [];
  }

  lemma PendingCountsInitially(byName: map<string, Task>, indegree: map<string, int>)
    requires indegree.Keys == byName.Keys
    requires forall n :: n in indegree ==> indegree[n] == |byName[n].dependsOn|
    ensures PendingCounts(byName, indegree, {})
  {
    forall n | n in indegree ensures indegree[n] == Pending(byName[n].dependsOn, {}) {
      PendingNothingDone(byName[n].dependsOn);
    }
  }

  /** The name at the front of the queue is a task not yet scheduled, whose in-degree
      is no longer positive, and fewer tasks are scheduled than there are names. */
  lemma QueueFront(byName: map<string, Task>, seed: seq<string>, indegree: map<string, int>,
                   queue: seq<string>, log: seq<string>, scheduled: map<string, Task>, ordered: seq<Task>)
    requires QueueState(byName, seed, indegree, queue, log, scheduled, ordered) && queue != []
    ensures queue[0] in byName && queue[0] !in scheduled && indegree[queue[0]] <= 0
    ensures |ordered| < |byName.Keys|
    ensures Distinct(Names(ordered)) && queue[0] !in Names(ordered)
  {
    DistinctWithin(log, byName.Keys);
    assert queue[0] == log[|ordered|];
    assert queue[0] !in Names(ordered);
  }

  /** One round of the loop keeps QueueState. */
  lemma QueueStateStep(byName: map<string, Task>, seed: seq<string>, indegree: map<string, int>,
                       queue: seq<string>, log: seq<string>, scheduled: map<string, Task>, ordered: seq<Task>,
                       t: Task, indegree': map<string, int>, queue': seq<string>, log': seq<string>)
    requires QueueState(byName, seed, indegree, queue, log, scheduled, ordered) && queue != []
    requires t.name == queue[0] && ResolvedInOrder(byName, ordered + [t])
    requires indegree'.Keys == indegree.Keys
    requires |queue[1..]| <= |queue'| && queue'[..|queue[1..]|] == queue[1..]
    requires log' == log + queue'[|queue[1..]|..]
    requires Distinct(log') && forall n :: n in log' ==> n in indegree
    requires forall n :: n in indegree ==> (indegree'[n] <= 0 <==> n in log')
    ensures QueueState(byName, seed, indegree', queue', log', scheduled[t.name := t], ordered + [t])
  {
    QueueOfLogPop(queue, log, Names(ordered));
    NamesAppend(ordered, t);
    NameIndexAppend(ordered, t);
    QueueOfLogExtend(queue[1..], log, Names(ordered + [t]), queue');
    PrefixKept(log, queue'[|queue[1..]|..], seed);
  }

  /** When the in-degrees count pending dependencies, the task at the front of the
      queue has all its dependencies scheduled. */
  lemma FrontIsReady(byName: map<string, Task>, indegree: map<string, int>, scheduled: map<string, Task>, name: string)
    requires PendingCounts(byName, indegree, scheduled.Keys)
    requires name in indegree && name in byName && indegree[name] <= 0
    ensures forall d :: d in byName[name].dependsOn ==> d in scheduled
  {
    assert indegree[name] == Pending(byName[name].dependsOn, scheduled.Keys);
    PendingZero(byName[name].dependsOn, scheduled.Keys);
  }

  /** Once the queue is empty, every task left unscheduled still waits for a
      dependency that is not scheduled. */
  lemma DrainedLeavesUnready(byName: map<string, Task>, seed: seq<string>, indegree: map<string, int>,
                             log: seq<string>, scheduled: map<string, Task>, ordered: seq<Task>)
    requires QueueState(byName, seed, indegree, [], log, scheduled, ordered)
    requires PendingCounts(byName, indegree, scheduled.Keys)
    ensures forall n :: n in byName && n !in Names(ordered) ==>
      exists d :: d in byName[n].dependsOn && d !in Names(ordered)
  {
    assert Names(ordered) == log;
    forall n | n in byName && n !in Names(ordered)
      ensures exists d :: d in byName[n].dependsOn && d !in Names(ordered)
    {
      assert indegree[n] == Pending(byName[n].dependsOn, scheduled.Keys);
      PendingPositive(byName[n].dependsOn, scheduled.Keys);
      var d :| d in byName[n].dependsOn && d !in scheduled.Keys;
      assert d !in Names(ordered);
    }
  }

  /** Records a task just resolved and releases its dependents (scheduler.go:57-65). */
  method Advance(byName: map<string, Task>, graph: map<string, seq<string>>, ghost seed: seq<string>,
                 indegree: map<string, int>, queue: seq<string>, ghost log: seq<string>,
                 scheduled: map<string, Task>, ordered: seq<Task>, t: Task)
    returns (indegree': map<string, int>, queue': seq<string>, ghost log': seq<string>,
             scheduled': map<string, Task>, ordered': seq<Task>)
    requires EdgesWithin(byName, graph)
    requires QueueState(byName, seed, indegree, queue, log, scheduled, ordered)
    requires queue != [] && t.name == queue[0] && ResolvedInOrder(byName, ordered + [t])
    ensures QueueState(byName, seed, indegree', queue', log', scheduled', ordered')
    ensures |ordered'| == |ordered| + 1
    ensures t.name !in scheduled && scheduled' == scheduled[t.name := t]
    ensures queue' == queue[1..] + Released(Successors(graph, t.name), indegree)
    ensures forall n :: n in indegree ==> indegree'[n] == indegree[n] - multiset(Successors(graph, t.name))[n]
  {
    QueueFront(byName, seed, indegree, queue, log, scheduled, ordered);
    scheduled' := scheduled[t.name := t];
    ordered' := ordered + [t];
    indegree', queue', log' := ReleaseSuccessors(Successors(graph, t.name), indegree, queue[1..], log);
    QueueStateStep(byName, seed, indegree, queue, log, scheduled, ordered, t, indegree', queue', log');
  }

  /** Task `n` is ready after `pre`: `pre` places tasks with distinct names, each
      resolved against the ones before it, `n` is not among them and every
      dependency of `n` is. */
  ghost predicate ReadyAfter(byName: map<string, Task>, pre: seq<Task>, n: string)
  {
    && Distinct(Names(pre))
    && ResolvedInOrder(byName, pre)
    && n in byName && n !in Names(pre)
    && forall d :: d in byName[n].dependsOn ==> d in NameIndex(pre)
  }

  /** The main loop of Schedule (scheduler.go:45-66): takes names off the front of
      the queue until it is empty. */
  method DrainQueue(byName: map<string, Task>, graph: map<string, seq<string>>, ghost unique: bool,
                    indegree: map<string, int>, seed: seq<string>)
    returns (r: Result<seq<Task>, ScheduleError>)
    requires KeyedByName(byName) && indegree.Keys == byName.Keys
    requires forall n :: n in indegree ==> indegree[n] == |byName[n].dependsOn|
    requires EdgesWithin(byName, graph) && (unique ==> EdgeCounts(byName, graph))
    requires Distinct(seed) && forall n :: n in seed ==> n in indegree
    requires forall n :: n in indegree ==> (indegree[n] <= 0 <==> n in seed)
    ensures unique && r.Err? ==> !r.error.DependencyNotScheduled?
    ensures unique && r.Err? ==>
      exists pre, n :: ReadyAfter(byName, pre, n) && Resolve(byName[n], NameIndex(pre)) == Err(r.error)
    ensures r.Err? ==> !r.error.NoTasks? && !r.error.CyclicDependency?
    ensures unique && r.Ok? ==> forall n :: n in byName && n !in Names(r.value) ==>
      exists d :: d in byName[n].dependsOn && d !in Names(r.value)
    ensures r.Ok? ==> ResolvedInOrder(byName, r.value)
    ensures r.Ok? ==> Distinct(Names(r.value)) && forall n :: n in Names(r.value) ==> n in byName
    ensures r.Ok? ==> |seed| <= |r.value| && Names(r.value)[..|seed|] == seed
    ensures seed == [] ==> r == Ok([])
  {
    var indegree := indegree;
    var queue := seed;
    ghost var log := seed;
    var scheduled: map<string, Task> := map[];
    var ordered: seq<Task> := [];
    QueueStateInitially(byName, seed, indegree);
    PendingCountsInitially(byName, indegree);
    assert scheduled.Keys == {};
    while |queue| > 0
      invariant QueueState(byName, seed, indegree, queue, log, scheduled, ordered)
      invariant unique ==> PendingCounts(byName, indegree, scheduled.Keys)
      invariant seed == [] ==> log == []
      decreases |byName.Keys| - |ordered|
    {
      QueueFront(byName, seed, indegree, queue, log, scheduled, ordered);
      var name := queue[0];
      if unique {
        FrontIsReady(byName, indegree, scheduled, name);
        ResolveMissingDependency(byName[name], scheduled);
      }
      var res := ComputeSchedule(byName[name], scheduled);
      if res.Err? {
        if unique {
          assert ReadyAfter(byName, ordered, name);
        }
        return Err(res.error);
      }
      ResolveSetsOnlyComputedDates(byName[name], scheduled);
      ResolvedInOrderAppend(byName, ordered, res.value);
      ghost var (indegree0, scheduled0) := (indegree, scheduled);
      indegree, queue, log, scheduled, ordered := Advance(byName, graph, seed, indegree, queue, log, scheduled, ordered, res.value);
      if unique {
        ReleaseKeepsPending(byName, graph, name, indegree0, indegree, scheduled0.Keys);
        KeysAfterInsert(scheduled0, name, res.value);
      }
    }
    assert Names(ordered) == log;
    if unique {
      DrainedLeavesUnready(byName, seed, indegree, log, scheduled, ordered);
    }
    return Ok(ordered);
  }

  /** Orders the tasks so that every dependency comes first and resolves their dates
      in that order (scheduler.go:14-72): Kahn's algorithm with a FIFO queue seeded
      with the dependency-free names in lexicographic order. */
  method Schedule(tasks: seq<Task>) returns (r: Result<seq<Task>, ScheduleError>)
    ensures tasks == [] ==> r == Err(NoTasks)
    ensures r.Ok? ==> IsSchedule(tasks, r.value)
    ensures r.Ok? ==> forall i, j :: 0 <= i < j < |r.value| && r.value[j].dependsOn == [] ==>
      r.value[i].dependsOn == [] && Lex.Less(r.value[i].name, r.value[j].name)
    ensures tasks != [] && (forall i :: 0 <= i < |tasks| ==> tasks[i].dependsOn != []) ==> r == Err(CyclicDependency)
    ensures Distinct(Names(tasks)) && r.Err? ==> !r.error.DependencyNotScheduled?
    ensures r == Err(CyclicDependency) ==> !Distinct(Names(tasks)) || exists u :: Blocked(tasks, u)
    ensures (exists u :: Blocked(tasks, u)) ==> r.Err?
    ensures Distinct(Names(tasks)) && r.Err? && !r.error.NoTasks? && !r.error.CyclicDependency? ==>
      exists pre, n :: ReadyAfter(NameIndex(tasks), pre, n) && Resolve(NameIndex(tasks)[n], NameIndex(pre)) == Err(r.error)
    ensures Distinct(Names(tasks)) && r.Err? && !r.error.NoTasks? && !r.error.CyclicDependency? ==>
      exists t :: t in tasks && !ResolvesOnceReady(t)
    ensures (&& tasks != [] && Distinct(Names(tasks)) && (forall u :: !Blocked(tasks, u))
             && ResolvesWhenReady(tasks)) ==> r.Ok?
    ensures (&& tasks != [] && Distinct(Names(tasks)) && (forall u :: !Blocked(tasks, u))
             && (forall t :: t in tasks ==> ResolvesOnceReady(t))) ==> r.Ok?
  {
    if |tasks| == 0 {
      return Err(NoTasks);
    }
    var byName := IndexByName(tasks);
    var indegree, graph := BuildGraph(tasks);
    var queue := ZeroInDegreeNames(indegree);
    assert forall n :: n in queue <==> n in byName && byName[n].dependsOn == [];
    if queue != [] {
      NameIndexHoldsTasks(tasks, queue[0]);
    }
    assert (forall i :: 0 <= i < |tasks| ==> tasks[i].dependsOn != []) ==> queue == [];
    GraphOfTasks(tasks, graph);
    var res := DrainQueue(byName, graph, Distinct(Names(tasks)), indegree, queue);
    if res.Err? {
      if Distinct(Names(tasks)) {
        FailureNamesUnreadyTask(tasks, res.error);
      }
      return Err(res.error);
    }
    var ordered := res.value;
    if |ordered| != |tasks| {
      if Distinct(Names(tasks)) {
        ShortRunIsBlocked(tasks, byName, ordered);
      }
      return Err(CyclicDependency);
    }
    CompleteRunIsSchedule(tasks, ordered);
    RootsComeFirst(byName, ordered, queue);
    ScheduleLeavesNoBlock(tasks, ordered);
    return Ok(ordered);
  }

  // ---------------------------------------------------------------------------
  // What a schedule guarantees
  // ---------------------------------------------------------------------------

  /** A schedule exists only for tasks with unique names: a repeated name makes
      Schedule report a cycle. */
  lemma {:induction false} ScheduleHasUniqueNames(tasks: seq<Task>, out: seq<Task>)
    requires IsSchedule(tasks, out)
    ensures Distinct(Names(tasks))
  {
    DistinctIffElemsLength(Names(out));
    DistinctIffElemsLength(Names(tasks));
  }

  /** Task `k` appears in the schedule, changed only in its two computed dates. */
  lemma {:induction false} TaskIsScheduled(tasks: seq<Task>, out: seq<Task>, k: int)
    requires IsSchedule(tasks, out) && 0 <= k < |tasks|
    ensures exists i :: (0 <= i < |out| &&
      out[i] == tasks[k].(computedStart := out[i].computedStart, computedEnd := out[i].computedEnd))
  {
    ScheduleHasUniqueNames(tasks, out);
    NameIndexFinds(tasks, k);
    assert tasks[k].name in Elems(Names(out));
    var i :| 0 <= i < |out| && Names(out)[i] == tasks[k].name;
    ResolveSetsOnlyComputedDates(NameIndex(tasks)[out[i].name], NameIndex(out[..i]));
  }

  /** Entry `i` of the schedule is one of the tasks, changed only in its two computed dates. */
  lemma {:induction false} EntryIsTask(tasks: seq<Task>, out: seq<Task>, i: int)
    requires IsSchedule(tasks, out) && 0 <= i < |out|
    ensures exists k :: (0 <= k < |tasks| &&
      out[i] == tasks[k].(computedStart := out[i].computedStart, computedEnd := out[i].computedEnd))
  {
    var byName := NameIndex(tasks);
    NameIndexHoldsTasks(tasks, out[i].name);
    var k :| 0 <= k < |tasks| && tasks[k] == byName[out[i].name];
    ResolveSetsOnlyComputedDates(byName[out[i].name], NameIndex(out[..i]));
  }

  /** Up to the two computed dates, the schedule is a rearrangement of the tasks:
      every task appears in it, and every entry is one of the tasks. */
  lemma {:induction false} ScheduleIsPermutation(tasks: seq<Task>, out: seq<Task>)
    requires IsSchedule(tasks, out)
    ensures forall k :: 0 <= k < |tasks| ==> exists i :: (0 <= i < |out| &&
      out[i] == tasks[k].(computedStart := out[i].computedStart, computedEnd := out[i].computedEnd))
    ensures forall i :: 0 <= i < |out| ==> exists k :: (0 <= k < |tasks| &&
      out[i] == tasks[k].(computedStart := out[i].computedStart, computedEnd := out[i].computedEnd))
  {
    forall k | 0 <= k < |tasks|
      ensures exists i :: (0 <= i < |out| &&
        out[i] == tasks[k].(computedStart := out[i].computedStart, computedEnd := out[i].computedEnd))
    {
      TaskIsScheduled(tasks, out, k);
    }
    forall i | 0 <= i < |out|
      ensures exists k :: (0 <= k < |tasks| &&
        out[i] == tasks[k].(computedStart := out[i].computedStart, computedEnd := out[i].computedEnd))
    {
      EntryIsTask(tasks, out, i);
    }
  }

  /** A resolved task starts and ends on workdays, in order, after all its dependencies. */
  lemma ResolvedTaskDates(task: Task, scheduled: map<string, Task>, t: Task)
    requires Resolve(task, scheduled) == Ok(t)
    ensures IsWorkday(t.computedStart) && IsWorkday(t.computedEnd) && t.computedStart <= t.computedEnd
    ensures forall d :: d in t.dependsOn ==> d in scheduled && scheduled[d].computedEnd < t.computedStart
  {
    ResolveSetsOnlyComputedDates(task, scheduled);
    ResolvedDates(task, scheduled);
  }

  /** Every name the index holds is the name of one of the tasks. */
  lemma {:induction false} IndexedIsListed(ts: seq<Task>, d: string)
    requires d in NameIndex(ts)
    ensures exists j :: 0 <= j < |ts| && ts[j].name == d
  {
    var j :| 0 <= j < |ts| && Names(ts)[j] == d;
  }

  /** With unique names, a name found in the index of earlier tasks is one of them. */
  lemma {:induction false} FoundOneEarlier(before: seq<Task>, d: string, bound: int)
    requires Distinct(Names(before))
    requires d in NameIndex(before) && NameIndex(before)[d].computedEnd < bound
    ensures exists j :: 0 <= j < |before| && before[j].name == d && before[j].computedEnd < bound
  {
    IndexedIsListed(before, d);
    var j :| 0 <= j < |before| && before[j].name == d;
    NameIndexFinds(before, j);
  }

  /** With unique names, every dependency found in the index of earlier tasks is one of them. */
  lemma {:induction false} FoundAmongEarlier(before: seq<Task>, t: Task)
    requires Distinct(Names(before))
    requires forall d :: d in t.dependsOn ==> d in NameIndex(before) && NameIndex(before)[d].computedEnd < t.computedStart
    ensures forall d :: d in t.dependsOn ==>
      exists j :: 0 <= j < |before| && before[j].name == d && before[j].computedEnd < t.computedStart
  {
    forall d | d in t.dependsOn
      ensures exists j :: 0 <= j < |before| && before[j].name == d && before[j].computedEnd < t.computedStart
    {
      FoundOneEarlier(before, d, t.computedStart);
    }
  }

  /** Entry `i` of a schedule starts and ends on workdays, in order, and each of its
      dependencies is an earlier entry that ends strictly before it starts. */
  lemma {:induction false} EntryRespectsDependencies(tasks: seq<Task>, out: seq<Task>, i: int)
    requires IsSchedule(tasks, out) && 0 <= i < |out|
    ensures IsWorkday(out[i].computedStart) && IsWorkday(out[i].computedEnd) && out[i].computedStart <= out[i].computedEnd
    ensures forall d :: d in out[i].dependsOn ==>
      exists j :: 0 <= j < i && out[j].name == d && out[j].computedEnd < out[i].computedStart
  {
    assert Names(out[..i]) == Names(out)[..i];
    ResolvedTaskDates(NameIndex(tasks)[out[i].name], NameIndex(out[..i]), out[i]);
    FoundAmongEarlier(out[..i], out[i]);
  }

  lemma {:induction false} ScheduleRespectsDependencies(tasks: seq<Task>, out: seq<Task>)
    requires IsSchedule(tasks, out)
    ensures forall i :: 0 <= i < |out| ==>
      IsWorkday(out[i].computedStart) && IsWorkday(out[i].computedEnd) && out[i].computedStart <= out[i].computedEnd
    ensures forall i, d :: 0 <= i < |out| && d in out[i].dependsOn ==>
      exists j :: 0 <= j < i && out[j].name == d && out[j].computedEnd < out[i].computedStart
  {
    forall i | 0 <= i < |out|
      ensures IsWorkday(out[i].computedStart) && IsWorkday(out[i].computedEnd) && out[i].computedStart <= out[i].computedEnd
      ensures forall d :: d in out[i].dependsOn ==>
        exists j :: 0 <= j < i && out[j].name == d && out[j].computedEnd < out[i].computedStart
    {
      EntryRespectsDependencies(tasks, out, i);
    }
  }

  /** An entry that another entry depends on comes before it. */
  lemma {:induction false} DependencyComesEarlier(tasks: seq<Task>, out: seq<Task>, i: int, b: int)
    requires IsSchedule(tasks, out) && 0 <= i < |out| && 0 <= b < |out|
    requires out[b].name in out[i].dependsOn
    ensures b < i
  {
    EntryRespectsDependencies(tasks, out, i);
    var j :| 0 <= j < i && out[j].name == out[b].name;
    assert Names(out)[j] == Names(out)[b];
  }

  /** Following dependencies always leads back into the schedule: along a chain in
      which each entry depends on the next, positions strictly decrease, so no
      entry at the end of a chain depends on the entry at its start, and a
      dependency cycle cannot be scheduled. */
  lemma {:induction false} DependencyChainsDescend(tasks: seq<Task>, out: seq<Task>, chain: seq<int>)
    requires IsSchedule(tasks, out)
    requires |chain| >= 2 && forall k :: 0 <= k < |chain| ==> 0 <= chain[k] < |out|
    requires forall k :: 0 <= k < |chain| - 1 ==> out[chain[k + 1]].name in out[chain[k]].dependsOn
    ensures chain[|chain| - 1] < chain[0]
    ensures out[chain[0]].name !in out[chain[|chain| - 1]].dependsOn
  {
    DependencyComesEarlier(tasks, out, chain[0], chain[1]);
    if |chain| > 2 {
      DependencyChainsDescend(tasks, out, chain[1..]);
    }
    if out[chain[0]].name in out[chain[|chain| - 1]].dependsOn {
      DependencyComesEarlier(tasks, out, chain[|chain| - 1], chain[0]);
    }
  }

  // ---------------------------------------------------------------------------
  // When a schedule exists
  // ---------------------------------------------------------------------------

  /** Every name in `u` is a task that waits for a dependency in `u` or for one
      that is not a task at all: none of them can ever be released. */
  ghost predicate Stalled(byName: map<string, Task>, u: set<string>)
  {
    forall n :: n in u ==> n in byName && exists d :: d in byName[n].dependsOn && (d in u || d !in byName)
  }

  /** Some tasks are stuck: a dependency cycle, or a chain of dependencies
      ending in a name that is not a task. */
  ghost predicate Blocked(tasks: seq<Task>, u: set<string>)
  {
    u != {} && Stalled(NameIndex(tasks), u)
  }

  /** A task whose dates can be computed once its dependencies are scheduled,
      whatever their dates: it has a start or a dependency, and either a
      duration and no end, or a declared end no earlier than its declared
      start and no dependency that could push the start past it. */
  predicate ResolvesOnceReady(t: Task)
  {
    && (t.start.Some? || t.dependsOn != [])
    && if t.end.Some? then
         t.dependsOn == [] && t.start.Some? && FirstWorkdayFrom(t.start.value) <= FirstWorkdayFrom(t.end.value)
       else t.durationDays > 0
  }

  /** No task fails once it is ready: after every partial schedule that places
      all its dependencies, resolving it succeeds. */
  ghost predicate ResolvesWhenReady(tasks: seq<Task>)
  {
    forall pre, n :: ReadyAfter(NameIndex(tasks), pre, n) ==> Resolve(NameIndex(tasks)[n], NameIndex(pre)).Ok?
  }

  /** A task meeting ResolvesOnceReady resolves as soon as its dependencies are scheduled. */
  lemma ReadyResolves(t: Task, sch: map<string, Task>)
    requires forall d :: d in t.dependsOn ==> d in sch
    ensures ResolvesOnceReady(t) ==> Resolve(t, sch).Ok?
  {
    ResolveStartMeetsConstraints(t, sch);
    if ResolveStart(t, sch).Ok? {
      ResolveEndMeetsConstraints(t, ResolveStart(t, sch).value);
    }
  }

  /** With unique names, the index holds one entry per task. */
  lemma IndexSize(tasks: seq<Task>)
    requires Distinct(Names(tasks))
    ensures |NameIndex(tasks).Keys| == |tasks|
  {
    KeysOfDistinct(NameIndex(tasks), Names(tasks));
  }

  /** When fewer names are placed than there are tasks, and every task left
      out waits for a dependency that is not placed, the tasks left out are
      stalled. */
  lemma ShortRunIsStalled(byName: map<string, Task>, placed: seq<string>)
    requires Distinct(placed) && |placed| < |byName.Keys|
    requires forall n :: n in byName && n !in placed ==> exists d :: d in byName[n].dependsOn && d !in placed
    ensures byName.Keys - Elems(placed) != {}
    ensures Stalled(byName, byName.Keys - Elems(placed))
  {
    var u := byName.Keys - Elems(placed);
    SomeLeftOut(byName.Keys, placed);
    forall n | n in u
      ensures n in byName && exists d :: d in byName[n].dependsOn && (d in u || d !in byName)
    {
      var d :| d in byName[n].dependsOn && d !in placed;
      assert d !in Elems(placed);
    }
  }

  /** A run of the loop that stops short of placing every task of a list with
      unique names leaves some of them blocked. */
  lemma ShortRunIsBlocked(tasks: seq<Task>, byName: map<string, Task>, ordered: seq<Task>)
    requires byName == NameIndex(tasks)
    requires Distinct(Names(tasks)) && |ordered| != |tasks|
    requires Distinct(Names(ordered)) && forall n :: n in Names(ordered) ==> n in byName
    requires forall n :: n in byName && n !in Names(ordered) ==> exists d :: d in byName[n].dependsOn && d !in Names(ordered)
    ensures exists u :: Blocked(tasks, u)
  {
    var u := byName.Keys - Elems(Names(ordered));
    assert u != {} && Stalled(byName, u) by {
      IndexSize(tasks);
      DistinctWithin(Names(ordered), byName.Keys);
      ShortRunIsStalled(byName, Names(ordered));
    }
    assert Blocked(tasks, u);
  }

  /** Tasks that all meet ResolvesOnceReady never fail once ready. */
  lemma ReadyTasksResolveWhenReady(tasks: seq<Task>)
    requires forall t :: t in tasks ==> ResolvesOnceReady(t)
    ensures ResolvesWhenReady(tasks)
  {
    forall pre, n | ReadyAfter(NameIndex(tasks), pre, n)
      ensures Resolve(NameIndex(tasks)[n], NameIndex(pre)).Ok?
    {
      NameIndexHoldsTasks(tasks, n);
      ReadyResolves(NameIndex(tasks)[n], NameIndex(pre));
    }
  }

  /** An error met resolving a task that is ready points at a task that does
      not meet ResolvesOnceReady. */
  lemma FailureNamesUnreadyTask(tasks: seq<Task>, e: ScheduleError)
    requires exists pre, n :: ReadyAfter(NameIndex(tasks), pre, n) && Resolve(NameIndex(tasks)[n], NameIndex(pre)) == Err(e)
    ensures exists t :: t in tasks && !ResolvesOnceReady(t)
  {
    var pre, n :| ReadyAfter(NameIndex(tasks), pre, n) && Resolve(NameIndex(tasks)[n], NameIndex(pre)) == Err(e);
    ReadyResolves(NameIndex(tasks)[n], NameIndex(pre));
    NameIndexHoldsTasks(tasks, n);
  }

  /** No entry of a schedule lies in a stalled set, by induction on its position. */
  lemma {:induction false} NotStalledAt(tasks: seq<Task>, out: seq<Task>, u: set<string>, i: int)
    requires IsSchedule(tasks, out) && Stalled(NameIndex(tasks), u) && 0 <= i < |out|
    ensures out[i].name !in u
    decreases i
  {
    var byName := NameIndex(tasks);
    var n := out[i].name;
    if n in u {
      EntryRespectsDependencies(tasks, out, i);
      ResolveSetsOnlyComputedDates(byName[n], NameIndex(out[..i]));
      var d :| d in byName[n].dependsOn && (d in u || d !in byName);
      var j :| 0 <= j < i && out[j].name == d;
      NotStalledAt(tasks, out, u, j);
    }
  }

  /** Tasks that have a schedule are not blocked. */
  lemma ScheduleLeavesNoBlock(tasks: seq<Task>, out: seq<Task>)
    requires IsSchedule(tasks, out)
    ensures forall u :: !Blocked(tasks, u)
  {
    forall u ensures !Blocked(tasks, u) {
      if Blocked(tasks, u) {
        var n :| n in u;
        assert n in Elems(Names(out));
        var i :| 0 <= i < |out| && Names(out)[i] == n;
        NotStalledAt(tasks, out, u, i);
      }
    }
  }

  /** Every dependency names a task listed before it. */
  ghost predicate DependencyOrdered(tasks: seq<Task>)
  {
    forall i, d :: 0 <= i < |tasks| && d in tasks[i].dependsOn ==> exists j :: 0 <= j < i && tasks[j].name == d
  }

  lemma {:induction false} OrderedNotStalled(tasks: seq<Task>, u: set<string>, k: int)
    requires Distinct(Names(tasks)) && DependencyOrdered(tasks)
    requires Stalled(NameIndex(tasks), u) && 0 <= k < |tasks|
    ensures tasks[k].name !in u
    decreases k
  {
    var byName := NameIndex(tasks);
    if tasks[k].name in u {
      NameIndexFinds(tasks, k);
      var d :| d in tasks[k].dependsOn && (d in u || d !in byName);
      var j :| 0 <= j < k && tasks[j].name == d;
      assert Names(tasks)[j] == d;
      OrderedNotStalled(tasks, u, j);
    }
  }

  /** Tasks with unique names listed after all their dependencies are never blocked. */
  lemma OrderedNotBlocked(tasks: seq<Task>)
    requires Distinct(Names(tasks)) && DependencyOrdered(tasks)
    ensures forall u :: !Blocked(tasks, u)
  {
    forall u ensures !Blocked(tasks, u) {
      if Blocked(tasks, u) {
        var n :| n in u;
        IndexedIsListed(tasks, n);
        var k :| 0 <= k < |tasks| && tasks[k].name == n;
        OrderedNotStalled(tasks, u, k);
      }
    }
  }

  /** The Planning/Build tasks meet every condition under which Schedule succeeds. */
  lemma PlanningBuildSchedules()
    ensures var planning := NamedTask("Planning").(start := Some(Fri_2024_06_07), durationDays := 2);
      var build := NamedTask("Build").(dependsOn := ["Planning"], durationDays := 3);
      var tasks := [planning, build];
      && Distinct(Names(tasks))
      && (forall u :: !Blocked(tasks, u))
      && (forall t :: t in tasks ==> ResolvesOnceReady(t))
  {
    var planning := NamedTask("Planning").(start := Some(Fri_2024_06_07), durationDays := 2);
    var build := NamedTask("Build").(dependsOn := ["Planning"], durationDays := 3);
    var tasks := [planning, build];
    assert Names(tasks) == ["Planning", "Build"];
    assert tasks[0].name == "Planning";
    OrderedNotBlocked(tasks);
  }

  // Day numbers of the further dates in the Planning/Ship example.
  const Mon_2024_06_03: Date := 19877
  const Fri_2024_06_28: Date := 19902

  /** Ship declares a start, an end and a dependency, so it falls outside
      ResolvesOnceReady; still it never fails once ready: it is ready only
      after Planning (Friday 2024-06-07, 2 workdays) ends on Monday 2024-06-10,
      and then runs Tuesday 2024-06-11 to its declared end, Friday 2024-06-28.
      So Schedule is proved to succeed on these tasks. */
  lemma PlanningShipSchedules()
    ensures var planning := NamedTask("Planning").(start := Some(Fri_2024_06_07), durationDays := 2);
      var ship := NamedTask("Ship").(start := Some(Mon_2024_06_03), end := Some(Fri_2024_06_28), dependsOn := ["Planning"]);
      var tasks := [planning, ship];
      && !ResolvesOnceReady(ship)
      && Distinct(Names(tasks))
      && (forall u :: !Blocked(tasks, u))
      && ResolvesWhenReady(tasks)
  {
    var planning := NamedTask("Planning").(start := Some(Fri_2024_06_07), durationDays := 2);
    var ship := NamedTask("Ship").(start := Some(Mon_2024_06_03), end := Some(Fri_2024_06_28), dependsOn := ["Planning"]);
    var tasks := [planning, ship];
    var byName := NameIndex(tasks);
    assert Names(tasks) == ["Planning", "Ship"];
    assert tasks[0].name == "Planning";
    OrderedNotBlocked(tasks);
    NameIndexFinds(tasks, 0);
    NameIndexFinds(tasks, 1);
    forall pre, n | ReadyAfter(byName, pre, n)
      ensures Resolve(byName[n], NameIndex(pre)).Ok?
    {
      var sch := NameIndex(pre);
      if n == "Planning" {
        ReadyResolves(planning, sch);
      } else {
        assert n == "Ship" && "Planning" in sch;
        NameIndexHoldsTasks(pre, "Planning");
        var i :| 0 <= i < |pre| && pre[i] == sch["Planning"];
        assert Resolve(planning, NameIndex(pre[..i])) == Ok(pre[i]);
        ShipAfterPlanning(planning, ship, pre[i], sch);
      }
    }
  }

  /** Planning, resolved against any map, ends Monday 2024-06-10, and Ship then resolves. */
  lemma ShipAfterPlanning(planning: Task, ship: Task, placed: Task, sch: map<string, Task>)
    requires planning == NamedTask("Planning").(start := Some(Fri_2024_06_07), durationDays := 2)
    requires ship == NamedTask("Ship").(start := Some(Mon_2024_06_03), end := Some(Fri_2024_06_28), dependsOn := ["Planning"])
    requires exists m :: Resolve(planning, m) == Ok(placed)
    requires "Planning" in sch && sch["Planning"] == placed
    ensures Resolve(ship, sch).Ok?
  {
    assert WorkdaysAfter(Fri_2024_06_07, 1) == Mon_2024_06_10;
    assert placed.computedEnd == Mon_2024_06_10;
    assert LatestEnd(ship.dependsOn, sch) == Mon_2024_06_10;
    assert NextWorkdayAfter(Mon_2024_06_10) == Tue_2024_06_11;
  }

  /** Two tasks that depend on each other are blocked, so Schedule fails on them. */
  lemma MutualDependencyBlocks()
    ensures var a := NamedTask("A").(dependsOn := ["B"], durationDays := 1);
      var b := NamedTask("B").(dependsOn := ["A"], durationDays := 1);
      Blocked([a, b], {"A", "B"})
  {
    var a := NamedTask("A").(dependsOn := ["B"], durationDays := 1);
    var b := NamedTask("B").(dependsOn := ["A"], durationDays := 1);
    var byName := NameIndex([a, b]);
    assert Names([a, b]) == ["A", "B"];
    assert byName["A"] == a && byName["B"] == b by {
      NameIndexFinds([a, b], 0);
      NameIndexFinds([a, b], 1);
    }
    assert "B" in byName["A"].dependsOn && "A" in byName["B"].dependsOn;
  }
}
