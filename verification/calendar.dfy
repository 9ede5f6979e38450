/** Workday classification and workday arithmetic (internal/calendar/calendar.go).
    A day is a workday exactly when it is not a Saturday or a Sunday. */
module Calendar {
  import opened Model

  const Sunday := 0
  const Monday := 1
  const Friday := 5
  const Saturday := 6

  /** A point in time within a day: the day number and the seconds past midnight. */
  datatype Moment = Moment(day: Date, second: int)

  /** Day of the week, Sunday = 0 .. Saturday = 6; day 0 (1970-01-01) was a Thursday. */
  function Weekday(d: Date): (w: int)
    ensures 0 <= w < 7
  {
    (d + 4) % 7
  }

  /** The weekday advances by one each day, wrapping from Saturday to Sunday. */
  lemma WeekdayNext(d: Date)
    ensures Weekday(d + 1) == if Weekday(d) == Saturday then Sunday else Weekday(d) + 1
  {
    var q := (d + 4) / 7;
    assert d + 4 == 7 * q + Weekday(d);
    if Weekday(d) == Saturday {
      assert d + 5 == 7 * (q + 1) + 0;
    } else {
      assert d + 5 == 7 * q + (Weekday(d) + 1);
    }
  }

  /** Monday to Friday are workdays; Saturday and Sunday are not. */
  predicate IsWorkday(d: Date)
    ensures IsWorkday(d) <==> Monday <= Weekday(d) <= Friday
  {
    !(Weekday(d) == Saturday || Weekday(d) == Sunday)
  }

  /** Whether a day is a workday repeats every week. */
  lemma WorkdayWeekly(d: Date)
    ensures IsWorkday(d + 7) == IsWorkday(d)
  {
    assert d + 7 + 4 == (d + 4) + 7 * 1;
  }

  /** Drops the time of day and keeps the calendar day. */
  function DateOnly(t: Moment): (r: Moment)
    ensures r.day == t.day && r.second == 0
  {
    Moment(t.day, 0)
  }

  lemma DateOnlyIdempotent(t: Moment)
    ensures DateOnly(DateOnly(t)) == DateOnly(t)
  {
  }

  /** The first workday on or after `d`, found by a day-by-day scan. */
  function FirstWorkdayFrom(d: Date): (r: Date)
    ensures d <= r && IsWorkday(r)
    decreases if IsWorkday(d) then 0 else if Weekday(d) == Saturday then 2 else 1
  {
    if IsWorkday(d) then d
    else
      WeekdayNext(d);
      FirstWorkdayFrom(d + 1)
  }

  /** No workday is skipped: every day before the result, from `d` on, is a
      weekend day. Under the weekend rule the scan passes at most two days. */
  lemma {:induction false} FirstWorkdayFromIsFirst(d: Date)
    ensures forall k :: d <= k < FirstWorkdayFrom(d) ==> !IsWorkday(k)
    ensures FirstWorkdayFrom(d) <= d + 2
    ensures Weekday(d) == Saturday ==> FirstWorkdayFrom(d) == d + 2
    ensures Weekday(d) == Sunday ==> FirstWorkdayFrom(d) == d + 1
    decreases if IsWorkday(d) then 0 else if Weekday(d) == Saturday then 2 else 1
  {
    if !IsWorkday(d) {
      WeekdayNext(d);
      FirstWorkdayFromIsFirst(d + 1);
    }
  }

  /** Returns `t` if it is a workday, otherwise the next workday after it. */
  method NextWorkday(t: Date) returns (day: Date)
    ensures day == FirstWorkdayFrom(t)
  {
    day := t;
    while !IsWorkday(day)
      invariant t <= day <= FirstWorkdayFrom(t)
      invariant FirstWorkdayFrom(day) == FirstWorkdayFrom(t)
      decreases FirstWorkdayFrom(t) - day
    {
      day := day + 1;
    }
  }

  /** A workday is its own next workday, and the scan is idempotent. */
  lemma {:induction false} FirstWorkdayFromFixes(d: Date)
    ensures IsWorkday(d) ==> FirstWorkdayFrom(d) == d
    ensures FirstWorkdayFrom(FirstWorkdayFrom(d)) == FirstWorkdayFrom(d)
  {
  }

  /** The first workday strictly after `t`. */
  function NextWorkdayAfter(t: Date): (r: Date)
    ensures t < r && IsWorkday(r)
  {
    FirstWorkdayFrom(t + 1)
  }

  /** No workday lies strictly between `t` and its next workday. */
  lemma NextWorkdayAfterIsFirst(t: Date)
    ensures forall k :: t < k < NextWorkdayAfter(t) ==> !IsWorkday(k)
  {
    FirstWorkdayFromIsFirst(t + 1);
  }

  /** The workday reached from `d` by snapping to a workday and then stepping
      over `n` further workdays; `n <= 0` only snaps. */
  function WorkdaysAfter(d: Date, n: int): (r: Date)
    ensures IsWorkday(r)
    ensures FirstWorkdayFrom(d) <= r
    decreases n
  {
    if n <= 0 then FirstWorkdayFrom(d) else NextWorkdayAfter(WorkdaysAfter(d, n - 1))
  }

  /** Moves forward by `days` workdays from the workday at or after `start`. */
  method AddWorkdays(start: Date, days: int) returns (current: Date)
    ensures current == WorkdaysAfter(start, days)
  {
    current := NextWorkday(start);
    var i := 0;
    while i < days
      invariant 0 <= i <= if days > 0 then days else 0
      invariant current == WorkdaysAfter(start, i)
    {
      current := NextWorkday(current + 1);
      i := i + 1;
    }
  }

  /** The number of workdays `k` with `a < k <= b`. */
  function CountWorkdays(a: Date, b: Date): (c: nat)
    decreases b - a
  {
    if b <= a then 0 else CountWorkdays(a, b - 1) + (if IsWorkday(b) then 1 else 0)
  }

  /** Adding 0 workdays only snaps to the next workday (a 1-day task ends where it starts). */
  lemma AddZeroWorkdays(d: Date)
    ensures WorkdaysAfter(d, 0) == FirstWorkdayFrom(d)
  {
  }

  /** More workdays always land strictly later. */
  lemma {:induction false} WorkdaysAfterIncreasing(d: Date, m: int, n: int)
    requires 0 <= m < n
    ensures WorkdaysAfter(d, m) < WorkdaysAfter(d, n)
    decreases n
  {
    if m < n - 1 {
      WorkdaysAfterIncreasing(d, m, n - 1);
    }
  }

  /** Extending a range over non-workdays leaves the count unchanged. */
  lemma {:induction false} CountOverNonWorkdays(a: Date, b: Date, c: Date)
    requires a <= b <= c
    requires forall k :: b < k <= c ==> !IsWorkday(k)
    ensures CountWorkdays(a, c) == CountWorkdays(a, b)
    decreases c - b
  {
    if c > b {
      CountOverNonWorkdays(a, b, c - 1);
    }
  }

  /** Extending a range over non-workdays up to a workday adds exactly one. */
  lemma CountOverGap(a: Date, b: Date, c: Date)
    requires a <= b < c
    requires IsWorkday(c)
    requires forall k :: b < k < c ==> !IsWorkday(k)
    ensures CountWorkdays(a, c) == CountWorkdays(a, b) + 1
  {
    CountOverNonWorkdays(a, b, c - 1);
  }

  /** Exactly `n` workdays lie after the starting workday and up to the result. */
  lemma {:induction false} WorkdaysAfterCount(d: Date, n: nat)
    ensures CountWorkdays(FirstWorkdayFrom(d), WorkdaysAfter(d, n)) == n
  {
    if n > 0 {
      WorkdaysAfterCount(d, n - 1);
      var prev := WorkdaysAfter(d, n - 1);
      NextWorkdayAfterIsFirst(prev);
      CountOverGap(FirstWorkdayFrom(d), prev, WorkdaysAfter(d, n));
    }
  }

  /** Any seven consecutive days hold exactly five workdays. */
  lemma FiveWorkdaysPerWeek(d: Date)
    ensures CountWorkdays(d, d + 7) == 5
  {
    WeekdayNext(d);
    WeekdayNext(d + 1);
    WeekdayNext(d + 2);
    WeekdayNext(d + 3);
    WeekdayNext(d + 4);
    WeekdayNext(d + 5);
    WeekdayNext(d + 6);
    assert CountWorkdays(d, d) == 0;
    assert CountWorkdays(d, d + 7) == CountWorkdays(d, d + 6) + (if IsWorkday(d + 7) then 1 else 0);
    assert CountWorkdays(d, d + 6) == CountWorkdays(d, d + 5) + (if IsWorkday(d + 6) then 1 else 0);
    assert CountWorkdays(d, d + 5) == CountWorkdays(d, d + 4) + (if IsWorkday(d + 5) then 1 else 0);
    assert CountWorkdays(d, d + 4) == CountWorkdays(d, d + 3) + (if IsWorkday(d + 4) then 1 else 0);
    assert CountWorkdays(d, d + 3) == CountWorkdays(d, d + 2) + (if IsWorkday(d + 3) then 1 else 0);
    assert CountWorkdays(d, d + 2) == CountWorkdays(d, d + 1) + (if IsWorkday(d + 2) then 1 else 0);
    assert CountWorkdays(d, d + 1) == (if IsWorkday(d + 1) then 1 else 0);
  }

  // Day numbers of the dates used below.
  const Fri_2024_05_31: Date := 19874
  const Sat_2024_06_01: Date := 19875
  const Sun_2024_06_02: Date := 19876
  const Mon_2024_06_03: Date := 19877

  /** Monday 2024-06-03 is a workday, Sunday 2024-06-02 is not; Saturday
      2024-06-01 snaps to that Monday; Friday 2024-05-31 plus one workday is
      that Monday too. */
  lemma CalendarExamples()
    ensures IsWorkday(Mon_2024_06_03) && Weekday(Mon_2024_06_03) == 1
    ensures !IsWorkday(Sun_2024_06_02) && Weekday(Sun_2024_06_02) == Sunday
    ensures FirstWorkdayFrom(Sat_2024_06_01) == Mon_2024_06_03
    ensures FirstWorkdayFrom(Mon_2024_06_03) == Mon_2024_06_03
    ensures WorkdaysAfter(Fri_2024_05_31, 1) == Mon_2024_06_03
  {
  }
}
