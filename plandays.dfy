/** The weekend-only working-day count of the planning application
    (pplan/datautils.py): no holiday calendar is consulted, only the
    day of the week. */
module PlanDays {
  import opened Dates

  /** The default weekend: Saturday and Sunday (Monday = 0). */
  const DefaultWeekend: set<int> := {5, 6}

  /** workdays(fromdate, todate, weekend): the number of days of the inclusive
      ordinal range [f, t] whose weekday is not a weekend day; an empty range
      (f > t) counts 0. */
  function Workdays(f: int, t: int, weekend: set<int>): (n: nat)
    ensures n <= if f <= t then t - f + 1 else 0
    decreases t - f
  {
    if f > t then 0
    else Workdays(f, t - 1, weekend) + (if Weekday(t) in weekend then 0 else 1)
  }

  /** The days of [f, t] that are not weekend days, as a set: an independent
      description of what Workdays counts. */
  function WorkingDays(f: int, t: int, weekend: set<int>): set<int> {
    set d | f <= d <= t && Weekday(d) !in weekend
  }

  /** volume(workdays, load): person-days of work at load percent over w working days. */
  function Volume(w: int, load: real): (v: real)
    ensures 0 <= w && 0.0 <= load <= 100.0 ==> 0.0 <= v <= w as real
  {
    w as real * load / 100.0
  }

  /** Workdays counts exactly the working days of the range. */
  lemma {:induction false} WorkdaysIsCount(f: int, t: int, weekend: set<int>)
    ensures Workdays(f, t, weekend) == |WorkingDays(f, t, weekend)|
    decreases t - f
  {
    if f > t {
      assert WorkingDays(f, t, weekend) == {};
    } else {
      WorkdaysIsCount(f, t - 1, weekend);
      var prev := WorkingDays(f, t - 1, weekend);
      if Weekday(t) in weekend {
        assert WorkingDays(f, t, weekend) == prev;
      } else {
        assert WorkingDays(f, t, weekend) == prev + {t};
        assert t !in prev;
      }
    }
  }

  /** Splitting a range at any point splits its working-day count. */
  lemma {:induction false} WorkdaysSplit(f: int, m: int, t: int, weekend: set<int>)
    requires f - 1 <= m <= t
    ensures Workdays(f, t, weekend) == Workdays(f, m, weekend) + Workdays(m + 1, t, weekend)
    decreases t - m
  {
    if m < t {
      WorkdaysSplit(f, m, t - 1, weekend);
    }
  }

  /** A sub-range never has more working days than the range containing it. */
  lemma WorkdaysMonotone(f: int, t: int, f2: int, t2: int, weekend: set<int>)
    requires f <= f2 && t2 <= t && f2 <= t2 + 1
    ensures Workdays(f2, t2, weekend) <= Workdays(f, t, weekend)
  {
    WorkdaysSplit(f, f2 - 1, t, weekend);
    WorkdaysSplit(f2, t2, t, weekend);
  }

  /** Any seven consecutive days hold exactly five days outside the default weekend. */
  lemma WeekHasFiveWorkdays(f: int)
    ensures Workdays(f, f + 6, DefaultWeekend) == 5
  {
    var w := DefaultWeekend;
    // the seven weekdays follow each other, wrapping after Sunday
    WeekdayNext(f);
    WeekdayNext(f + 1);
    WeekdayNext(f + 2);
    WeekdayNext(f + 3);
    WeekdayNext(f + 4);
    WeekdayNext(f + 5);
    assert Workdays(f, f, w) == (if Weekday(f) in w then 0 else 1);
    assert Workdays(f, f + 1, w) == Workdays(f, f, w) + (if Weekday(f + 1) in w then 0 else 1);
    assert Workdays(f, f + 2, w) == Workdays(f, f + 1, w) + (if Weekday(f + 2) in w then 0 else 1);
    assert Workdays(f, f + 3, w) == Workdays(f, f + 2, w) + (if Weekday(f + 3) in w then 0 else 1);
    assert Workdays(f, f + 4, w) == Workdays(f, f + 3, w) + (if Weekday(f + 4) in w then 0 else 1);
    assert Workdays(f, f + 5, w) == Workdays(f, f + 4, w) + (if Weekday(f + 5) in w then 0 else 1);
    assert Workdays(f, f + 6, w) == Workdays(f, f + 5, w) + (if Weekday(f + 6) in w then 0 else 1);
  }

  /** With the default weekend every calendar month has at least twenty
      working days, so the month's working-day count is never zero. */
  lemma MonthHasWorkdays(m: Month)
    requires ValidMonth(m)
    ensures Workdays(First(m), Last(m), DefaultWeekend) >= 20
  {
    var f := First(m);
    WeekHasFiveWorkdays(f);
    WeekHasFiveWorkdays(f + 7);
    WeekHasFiveWorkdays(f + 14);
    WeekHasFiveWorkdays(f + 21);
    WorkdaysSplit(f, f + 6, f + 27, DefaultWeekend);
    WorkdaysSplit(f + 7, f + 13, f + 27, DefaultWeekend);
    WorkdaysSplit(f + 14, f + 20, f + 27, DefaultWeekend);
    WorkdaysSplit(f, f + 27, Last(m), DefaultWeekend);
  }

  /** Volume is additive in the number of working days. */
  lemma VolumeAdditive(a: int, b: int, load: real)
    ensures Volume(a + b, load) == Volume(a, load) + Volume(b, load)
  {
  }
}
