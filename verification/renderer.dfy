/** The timeline layout the HTML renderer draws (internal/renderer/builder.go):
    tasks sorted for display, the day range covering every bar and today, and
    each bar's column offset and width in days. The HTML template itself is not
    part of this model. */
module Renderer {
  import opened Wrappers
  import opened Model
  import opened Calendar
  import Lex
  import Seqs

  // ---------------------------------------------------------------------
  // Display order
  // ---------------------------------------------------------------------

  /** `a` is drawn above `b`: it starts earlier, or on the same day with a name
      that sorts first. This is the `less` function handed to `sort.Slice`. */
  predicate DrawnBefore(a: Task, b: Task)
  {
    a.computedStart < b.computedStart
    || (a.computedStart == b.computedStart && Lex.Less(a.name, b.name))
  }

  /** `a` may be drawn above `b`: `b` is not strictly before it. */
  predicate DrawnNoLater(a: Task, b: Task)
  {
    a.computedStart < b.computedStart
    || (a.computedStart == b.computedStart && Lex.LessEq(a.name, b.name))
  }

  /** Not being drawn before is the same as being drawn no earlier. */
  lemma DrawnOrderTotal(a: Task, b: Task)
    ensures !DrawnBefore(b, a) <==> DrawnNoLater(a, b)
  {
    Lex.LessTotal(a.name, b.name);
    if Lex.Less(a.name, b.name) {
      Lex.LessAsymmetric(a.name, b.name);
    }
    if Lex.Less(b.name, a.name) {
      Lex.LessAsymmetric(b.name, a.name);
    }
  }

  lemma DrawnNoLaterTransitive(a: Task, b: Task, c: Task)
    requires DrawnNoLater(a, b) && DrawnNoLater(b, c)
    ensures DrawnNoLater(a, c)
  {
    if a.computedStart == b.computedStart == c.computedStart {
      Lex.LessEqTransitive(a.name, b.name, c.name);
    }
  }

  /** Every task is drawn no later than each task after it. */
  predicate DrawOrdered(s: seq<Task>)
  {
    forall i, j :: 0 <= i < j < |s| ==> DrawnNoLater(s[i], s[j])
  }

  /** The sorted copy of `BuildHTML`: the same tasks, ordered by computed start
      and then by name. Go's `sort.Slice` is not stable, and tasks with the same
      start and name may come out in either order; the contract leaves it open. */
  method SortForDrawing(tasks: seq<Task>) returns (sorted: seq<Task>)
    ensures DrawOrdered(sorted)
    ensures multiset(sorted) == multiset(tasks)
  {
    var a := new Task[|tasks|](k requires 0 <= k < |tasks| => tasks[k]);
    assert a[..] == tasks;
    for i := 0 to a.Length
      invariant DrawOrdered(a[..i])
      invariant multiset(a[..]) == multiset(tasks)
    {
      InsertLast(a, i);
    }
    assert a[..a.Length] == a[..];
    sorted := a[..];
  }

  /** Sinks `a[i]` into the sorted prefix `a[..i]` by adjacent swaps. */
  method InsertLast(a: array<Task>, i: nat)
    requires i < a.Length && DrawOrdered(a[..i])
    modifies a
    ensures DrawOrdered(a[..i + 1])
    ensures multiset(a[..i + 1]) == multiset(old(a[..i + 1]))
    ensures a[i + 1..] == old(a[i + 1..])
    ensures multiset(a[..]) == multiset(old(a[..]))
  {
    SinkingStarts(a[..], i);
    var j := i;
    while j > 0 && DrawnBefore(a[j], a[j - 1])
      invariant 0 <= j <= i
      invariant multiset(a[..i + 1]) == multiset(old(a[..i + 1]))
      invariant a[i + 1..] == old(a[i + 1..])
      invariant multiset(a[..]) == multiset(old(a[..]))
      invariant Sinking(a[..], i, j)
    {
      ghost var before := a[..];
      SinkingSwap(before, i, j);
      SwapWithin(before, i, j);
      a[j - 1], a[j] := a[j], a[j - 1];
      assert a[..] == Swapped(before, j);
      j := j - 1;
    }
    SinkingEnds(a[..], i, j);
  }

  /** While `s[j]` sinks through `s[..i + 1]`: all other pairs are in order, and
      `s[j]` is drawn no later than everything it has passed. */
  predicate Sinking(s: seq<Task>, i: nat, j: nat)
    requires j <= i < |s|
  {
    && (forall p, q :: 0 <= p < q <= i && p != j && q != j ==> DrawnNoLater(s[p], s[q]))
    && (forall q :: j < q <= i ==> DrawnNoLater(s[j], s[q]))
  }

  lemma SinkingStarts(s: seq<Task>, i: nat)
    requires i < |s| && DrawOrdered(s[..i])
    ensures Sinking(s, i, i)
  {
    forall p, q | 0 <= p < q <= i && q != i
      ensures DrawnNoLater(s[p], s[q])
    {
      assert s[p] == s[..i][p] && s[q] == s[..i][q];
    }
  }

  /** `s` with `s[j - 1]` and `s[j]` exchanged. */
  function Swapped(s: seq<Task>, j: nat): seq<Task>
    requires 0 < j < |s|
  {
    s[j - 1 := s[j]][j := s[j - 1]]
  }

  /** Swapping `s[j]` with an earlier neighbour drawn after it moves the sinking
      element one place up. */
  lemma SinkingSwap(s: seq<Task>, i: nat, j: nat)
    requires 0 < j <= i < |s| && Sinking(s, i, j) && DrawnBefore(s[j], s[j - 1])
    ensures Sinking(Swapped(s, j), i, j - 1)
    ensures multiset(Swapped(s, j)) == multiset(s)
  {
    DrawnOrderTotal(s[j - 1], s[j]);
    DrawnOrderTotal(s[j], s[j - 1]);
  }

  /** A swap inside the prefix through `i` leaves the rest alone and the
      prefix a permutation of itself. */
  lemma SwapWithin(s: seq<Task>, i: nat, j: nat)
    requires 0 < j <= i < |s|
    ensures Swapped(s, j)[i + 1..] == s[i + 1..]
    ensures multiset(Swapped(s, j)[..i + 1]) == multiset(s[..i + 1])
  {
    assert Swapped(s, j)[..i + 1] == Swapped(s[..i + 1], j);
  }

  /** Sinking stops at the top or below a task drawn no later: then the prefix
      through `i` is ordered. */
  lemma SinkingEnds(s: seq<Task>, i: nat, j: nat)
    requires j <= i < |s| && Sinking(s, i, j)
    requires j > 0 ==> !DrawnBefore(s[j], s[j - 1])
    ensures DrawOrdered(s[..i + 1])
  {
    if j > 0 {
      DrawnOrderTotal(s[j - 1], s[j]);
      forall p | 0 <= p < j - 1
        ensures DrawnNoLater(s[p], s[j])
      {
        DrawnNoLaterTransitive(s[p], s[j - 1], s[j]);
      }
    }
    var prefix := s[..i + 1];
    forall p, q | 0 <= p < q < |prefix|
      ensures DrawnNoLater(prefix[p], prefix[q])
    {
      assert prefix[p] == s[p] && prefix[q] == s[q];
    }
  }

  // ---------------------------------------------------------------------
  // The day range
  // ---------------------------------------------------------------------

  /** `lo` is on or before today, every computed start and the actual start
      of every task with actual dates. */
  predicate ReachesBack(ts: seq<Task>, today: Date, lo: Date)
  {
    && lo <= today
    && forall t :: t in ts ==> lo <= t.computedStart && (t.HasActual() ==> lo <= t.computedActualStart.value)
  }

  /** `hi` is on or after today, every computed end and the actual end of every
      task with actual dates. */
  predicate ReachesForward(ts: seq<Task>, today: Date, hi: Date)
  {
    && today <= hi
    && forall t :: t in ts ==> t.computedEnd <= hi && (t.HasActual() ==> t.computedActualEnd.value <= hi)
  }

  /** `d` is today or one of the start days of a task. */
  predicate IsStartDay(ts: seq<Task>, today: Date, d: Date)
  {
    d == today || exists t :: t in ts && (d == t.computedStart || (t.HasActual() && d == t.computedActualStart.value))
  }

  /** `d` is today or one of the end days of a task. */
  predicate IsEndDay(ts: seq<Task>, today: Date, d: Date)
  {
    d == today || exists t :: t in ts && (d == t.computedEnd || (t.HasActual() && d == t.computedActualEnd.value))
  }

  /** The first and the last day of the timeline: the earliest and the latest
      of the planned dates, the actual dates and today. */
  method Bounds(sorted: seq<Task>, today: Date) returns (minStart: Date, maxEnd: Date)
    requires sorted != []
    ensures ReachesBack(sorted, today, minStart) && IsStartDay(sorted, today, minStart)
    ensures ReachesForward(sorted, today, maxEnd) && IsEndDay(sorted, today, maxEnd)
  {
    minStart, maxEnd := sorted[0].computedStart, sorted[0].computedEnd;
    assert sorted[0] in sorted;
    for i := 1 to |sorted|
      invariant forall k :: 0 <= k < i ==> minStart <= sorted[k].computedStart && sorted[k].computedEnd <= maxEnd
      invariant IsStartDay(sorted, today, minStart) && IsEndDay(sorted, today, maxEnd)
    {
      var t := sorted[i];
      assert t in sorted;
      if t.computedStart < minStart {
        minStart := t.computedStart;
      }
      if t.computedEnd > maxEnd {
        maxEnd := t.computedEnd;
      }
    }
    for i := 0 to |sorted|
      invariant forall k :: 0 <= k < |sorted| ==> minStart <= sorted[k].computedStart && sorted[k].computedEnd <= maxEnd
      invariant forall k :: 0 <= k < i && sorted[k].HasActual() ==>
        minStart <= sorted[k].computedActualStart.value && sorted[k].computedActualEnd.value <= maxEnd
      invariant IsStartDay(sorted, today, minStart) && IsEndDay(sorted, today, maxEnd)
    {
      var t := sorted[i];
      assert t in sorted;
      if t.HasActual() {
        if t.computedActualStart.value < minStart {
          minStart := t.computedActualStart.value;
        }
        if t.computedActualEnd.value > maxEnd {
          maxEnd := t.computedActualEnd.value;
        }
      }
    }
    if today < minStart {
      minStart := today;
    }
    if today > maxEnd {
      maxEnd := today;
    }
    BoundsReach(sorted, today, minStart, maxEnd);
  }

  /** Bounds checked position by position hold for every task of the list. */
  lemma BoundsReach(ts: seq<Task>, today: Date, lo: Date, hi: Date)
    requires lo <= today <= hi
    requires forall k :: 0 <= k < |ts| ==> lo <= ts[k].computedStart && ts[k].computedEnd <= hi
    requires forall k :: 0 <= k < |ts| && ts[k].HasActual() ==>
      lo <= ts[k].computedActualStart.value && ts[k].computedActualEnd.value <= hi
    ensures ReachesBack(ts, today, lo) && ReachesForward(ts, today, hi)
  {
    forall t | t in ts
      ensures lo <= t.computedStart && (t.HasActual() ==> lo <= t.computedActualStart.value)
      ensures t.computedEnd <= hi && (t.HasActual() ==> t.computedActualEnd.value <= hi)
    {
      var k :| 0 <= k < |ts| && ts[k] == t;
    }
  }

  /** Every day from `start` through `end`, one after the other; none when `end`
      comes before `start`. */
  method DaysRange(start: Date, end: Date) returns (days: seq<Date>)
    ensures |days| == if start <= end then end - start + 1 else 0
    ensures forall k :: 0 <= k < |days| ==> days[k] == start + k
  {
    days := [];
    var d := start;
    while d <= end
      invariant d == start + |days|
      invariant days == [] || d <= end + 1
      invariant forall k :: 0 <= k < |days| ==> days[k] == start + k
      decreases end - d
    {
      days := days + [d];
      d := d + 1;
    }
  }

  /** The number of days from `start` forward to `end`: none when `end` is not
      after `start`. */
  function DayGap(start: Date, end: Date): nat
  {
    if start < end then end - start else 0
  }

  /** Counts the days from `start` up to `end`, one at a time. */
  method DaysBetween(start: Date, end: Date) returns (days: nat)
    ensures days == DayGap(start, end)
    ensures start + days == if start < end then end else start
  {
    days := 0;
    var d := start;
    while d < end
      invariant d == start + days
      invariant days == 0 || d <= end
      decreases end - d
    {
      days := days + 1;
      d := d + 1;
    }
  }

  // ---------------------------------------------------------------------
  // Bars
  // ---------------------------------------------------------------------

  /** Where the actual dates of a task are drawn. */
  datatype RenderActual = RenderActual(startIndex: int, span: int, start: Date, end: Date)

  /** One row of the chart: the planned bar's first column and width in days,
      and the actual bar when the task has actual dates. */
  datatype RenderTask = RenderTask(
    name: string,
    startIndex: int,
    span: int,
    start: Date,
    end: Date,
    actual: Option<RenderActual>)

  /** What the HTML template receives (its style sheet aside). */
  datatype Layout = Layout(
    days: seq<Date>,
    tasks: seq<RenderTask>,
    dayCount: int,
    todayIndex: int,
    hasActual: bool)

  /** The row of task `t` on a timeline whose first day is `origin`. */
  function RenderOf(t: Task, origin: Date): RenderTask
  {
    RenderTask(
      t.name,
      DayGap(origin, t.computedStart),
      DayGap(t.computedStart, t.computedEnd) + 1,
      t.computedStart,
      t.computedEnd,
      if t.HasActual() then
        Some(RenderActual(
          DayGap(origin, t.computedActualStart.value),
          DayGap(t.computedActualStart.value, t.computedActualEnd.value) + 1,
          t.computedActualStart.value,
          t.computedActualEnd.value))
      else None)
  }

  /** Rendering against a fixed first day, as a function on tasks. */
  function RenderAt(origin: Date): Task -> RenderTask
  {
    t => RenderOf(t, origin)
  }

  /** The rows of a task list, in its order. */
  function RendersOf(ts: seq<Task>, origin: Date): (rs: seq<RenderTask>)
    ensures |rs| == |ts|
    ensures forall k :: 0 <= k < |ts| ==> rs[k] == RenderOf(ts[k], origin)
  {
    Seqs.MapElements(RenderAt(origin), ts);
    Seqs.Map(RenderAt(origin), ts)
  }

  /** Some task has actual dates. */
  predicate AnyActual(ts: seq<Task>)
  {
    exists t :: t in ts && t.HasActual()
  }

  /** Builds the rows in display order and notes whether any has actual dates. */
  method RenderTasks(sorted: seq<Task>, origin: Date) returns (rendered: seq<RenderTask>, hasActual: bool)
    ensures rendered == RendersOf(sorted, origin)
    ensures hasActual <==> AnyActual(sorted)
  {
    rendered := [];
    hasActual := false;
    for i := 0 to |sorted|
      invariant |rendered| == i
      invariant forall k :: 0 <= k < i ==> rendered[k] == RenderOf(sorted[k], origin)
      invariant hasActual <==> exists k :: 0 <= k < i && sorted[k].HasActual()
    {
      var t := sorted[i];
      var startIdx := DaysBetween(origin, t.computedStart);
      var span := DaysBetween(t.computedStart, t.computedEnd);
      var rt := RenderTask(t.name, startIdx, span + 1, t.computedStart, t.computedEnd, None);
      if t.HasActual() {
        hasActual := true;
        var actualStartIdx := DaysBetween(origin, t.computedActualStart.value);
        var actualSpan := DaysBetween(t.computedActualStart.value, t.computedActualEnd.value);
        rt := rt.(actual := Some(RenderActual(
          actualStartIdx, actualSpan + 1, t.computedActualStart.value, t.computedActualEnd.value)));
      }
      rendered := rendered + [rt];
    }
    if hasActual {
      var k :| 0 <= k < |sorted| && sorted[k].HasActual();
      assert sorted[k] in sorted;
    }
  }

  /** Rows appear by start day, then by name. */
  predicate RenderOrdered(rs: seq<RenderTask>)
  {
    forall i, j :: 0 <= i < j < |rs| ==>
      (rs[i].start < rs[j].start || (rs[i].start == rs[j].start && Lex.LessEq(rs[i].name, rs[j].name)))
  }

  /** A bar whose dates are in order lies inside the first `dayCount` columns
      and is at least one column wide. */
  predicate Fits(rt: RenderTask, dayCount: int)
  {
    && (rt.start <= rt.end ==> 1 <= rt.span && rt.startIndex + rt.span <= dayCount)
    && (rt.actual.Some? && rt.actual.value.start <= rt.actual.value.end ==>
          1 <= rt.actual.value.span && rt.actual.value.startIndex + rt.actual.value.span <= dayCount)
  }

  /** Reordering the tasks changes neither the days the timeline must cover nor
      whether some task has actual dates. */
  lemma SameTasksSameRange(a: seq<Task>, b: seq<Task>, today: Date, lo: Date, hi: Date)
    requires multiset(a) == multiset(b)
    ensures ReachesBack(a, today, lo) <==> ReachesBack(b, today, lo)
    ensures ReachesForward(a, today, hi) <==> ReachesForward(b, today, hi)
    ensures IsStartDay(a, today, lo) <==> IsStartDay(b, today, lo)
    ensures IsEndDay(a, today, hi) <==> IsEndDay(b, today, hi)
    ensures AnyActual(a) <==> AnyActual(b)
  {
    Seqs.SameElements(a, b);
  }

  /** A timeline reaching from `lo` to `hi` has room for every row. */
  lemma RowsFit(ts: seq<Task>, today: Date, lo: Date, hi: Date)
    requires ReachesBack(ts, today, lo) && ReachesForward(ts, today, hi)
    ensures forall k :: 0 <= k < |ts| ==> Fits(RenderOf(ts[k], lo), hi - lo + 1)
  {
    forall k | 0 <= k < |ts|
      ensures Fits(RenderOf(ts[k], lo), hi - lo + 1)
    {
      assert ts[k] in ts;
    }
  }

  /** Tasks in drawing order give rows ordered by start day and name. */
  lemma RowsOrdered(ts: seq<Task>, origin: Date)
    requires DrawOrdered(ts)
    ensures RenderOrdered(RendersOf(ts, origin))
  {
  }

  const NoTasks := "no tasks to render"

  /** The layout `BuildHTML` hands to its template, for the clock reading `now`. */
  method BuildLayout(tasks: seq<Task>, now: Moment) returns (r: Result<Layout, string>)
    ensures r.Err? <==> tasks == []
    ensures r.Err? ==> r.error == NoTasks
    ensures r.Ok? ==> var l, today := r.value, DateOnly(now).day;
      && l.days != [] && l.dayCount == |l.days|
      && ReachesBack(tasks, today, l.days[0]) && IsStartDay(tasks, today, l.days[0])
      && ReachesForward(tasks, today, l.days[|l.days| - 1]) && IsEndDay(tasks, today, l.days[|l.days| - 1])
      && (forall k :: 0 <= k < |l.days| ==> l.days[k] == l.days[0] + k)
      && 0 <= l.todayIndex < l.dayCount && l.days[l.todayIndex] == today
      && multiset(l.tasks) == multiset(RendersOf(tasks, l.days[0]))
      && RenderOrdered(l.tasks)
      && (forall k :: 0 <= k < |l.tasks| ==> Fits(l.tasks[k], l.dayCount))
      && (l.hasActual <==> AnyActual(tasks))
  {
    if |tasks| == 0 {
      return Err(NoTasks);
    }
    var sorted := SortForDrawing(tasks);
    assert |sorted| == |multiset(sorted)| == |tasks|;
    var today := DateOnly(now).day;
    var minStart, maxEnd := Bounds(sorted, today);
    var days := DaysRange(minStart, maxEnd);
    var todayIndex := DaysBetween(minStart, today);
    var rendered, hasActual := RenderTasks(sorted, minStart);
    SameTasksSameRange(sorted, tasks, today, minStart, maxEnd);
    RowsFit(sorted, today, minStart, maxEnd);
    RowsOrdered(sorted, minStart);
    Seqs.MapPermutation(RenderAt(minStart), sorted, tasks);
    r := Ok(Layout(days, rendered, |days|, todayIndex, hasActual));
  }
}
