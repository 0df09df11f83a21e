/** Dates of the proleptic Gregorian calendar, numbered the way Python's
    datetime.date numbers them: ordinal 1 is 0001-01-01, and the weekday of
    ordinal o is (o + 6) % 7 with Monday = 0.  Months are (year, month) pairs
    with a linear index, so that "month + monthdelta(i)" is index arithmetic. */
module Dates {

  datatype Date = Date(year: int, month: int, day: int)

  datatype Month = Month(year: int, month: int)

  predicate IsLeap(y: int) {
    y % 4 == 0 && (y % 100 != 0 || y % 400 == 0)
  }

  function DaysInMonth(y: int, m: int): (n: int)
    requires 1 <= m <= 12
    ensures 28 <= n <= 31
    ensures m == 2 ==> (n == 29 <==> IsLeap(y))
  {
    if m == 2 then (if IsLeap(y) then 29 else 28)
    else if m == 4 || m == 6 || m == 9 || m == 11 then 30
    else 31
  }

  function DaysInYear(y: int): int {
    if IsLeap(y) then 366 else 365
  }

  /** Days of year y before the first day of month m. */
  function DaysBeforeMonth(y: int, m: int): int
    requires 1 <= m <= 12
  {
    var common :=
      if m <= 6 then
        (if m == 1 then 0 else if m == 2 then 31 else if m == 3 then 59 else if m == 4 then 90 else if m == 5 then 120 else 151)
      else
        (if m == 7 then 181 else if m == 8 then 212 else if m == 9 then 243 else if m == 10 then 273 else if m == 11 then 304 else 334);
    if m > 2 && IsLeap(y) then common + 1 else common
  }

  /** Days before January 1st of year y (year 1 starts at ordinal 1): the
      lengths of all the earlier years added up. */
  function DaysBeforeYear(y: int): (n: int)
    requires y >= 1
    ensures n >= 365 * (y - 1)
  {
    if y == 1 then 0 else DaysBeforeYear(y - 1) + DaysInYear(y - 1)
  }

  /** The closed formula Python's datetime uses for the same count. */
  function DaysBeforeYearFormula(y: int): int {
    var p := y - 1;
    365 * p + p / 4 - p / 100 + p / 400
  }

  /** What datetime.date(year, month, day) accepts (the upper year bound 9999 is not modelled). */
  predicate ValidDate(d: Date) {
    && d.year >= 1
    && 1 <= d.month <= 12
    && 1 <= d.day <= DaysInMonth(d.year, d.month)
  }

  predicate ValidMonth(m: Month) {
    m.year >= 1 && 1 <= m.month <= 12
  }

  /** date.toordinal() */
  function Ordinal(d: Date): int
    requires ValidDate(d)
  {
    DaysBeforeYear(d.year) + DaysBeforeMonth(d.year, d.month) + d.day
  }

  /** date.weekday() of the date with ordinal o (Monday = 0). */
  function Weekday(o: int): (w: int)
    ensures 0 <= w < 7
  {
    (o + 6) % 7
  }

  /** d.replace(day=1), as a month. */
  function MonthOf(d: Date): Month {
    Month(d.year, d.month)
  }

  /** Linear month number: consecutive months have consecutive indexes. */
  function Index(m: Month): int {
    m.year * 12 + m.month - 1
  }

  /** month + monthdelta(1) for a first-of-month date. */
  function NextMonth(m: Month): (n: Month)
    ensures Index(n) == Index(m) + 1
    ensures ValidMonth(m) ==> ValidMonth(n)
  {
    if m.month == 12 then Month(m.year + 1, 1) else Month(m.year, m.month + 1)
  }

  /** month + monthdelta(k) for a first-of-month date and k >= 0: the
      month whose linear number is k more. */
  function AddMonths(m: Month, k: nat): (n: Month)
    ensures Index(n) == Index(m) + k
    ensures 1 <= n.month <= 12
    ensures ValidMonth(m) ==> ValidMonth(n)
  {
    var i := Index(m) + k;
    Month(i / 12, i % 12 + 1)
  }

  /** month + monthdelta(k) for any k, negative ones included. */
  function ShiftMonths(m: Month, k: int): (n: Month)
    ensures Index(n) == Index(m) + k
    ensures 1 <= n.month <= 12
  {
    var i := Index(m) + k;
    Month(i / 12, i % 12 + 1)
  }

  function FirstDay(m: Month): Date {
    Date(m.year, m.month, 1)
  }

  /** Ordinal of the first day of a month. */
  function First(m: Month): int
    requires ValidMonth(m)
  {
    Ordinal(FirstDay(m))
  }

  /** Ordinal of the last day of a month: month + monthdelta(1) - timedelta(1). */
  function Last(m: Month): (o: int)
    requires ValidMonth(m)
    ensures o == Ordinal(Date(m.year, m.month, DaysInMonth(m.year, m.month)))
    ensures o - First(m) + 1 == DaysInMonth(m.year, m.month)
  {
    First(m) + DaysInMonth(m.year, m.month) - 1
  }

  /** Two months with the same linear number are the same month. */
  lemma IndexInjective(a: Month, b: Month)
    requires 1 <= a.month <= 12 && 1 <= b.month <= 12
    requires Index(a) == Index(b)
    ensures a == b
  {
  }

  lemma Div4Step(y: int)
    requires y >= 1
    ensures y / 4 == (y - 1) / 4 + (if y % 4 == 0 then 1 else 0)
  {
    var p := y - 1;
    if p % 4 == 3 {
      assert y == 4 * (p / 4 + 1);
    } else {
      assert y == 4 * (p / 4) + (p % 4 + 1);
    }
  }

  lemma Div100Step(y: int)
    requires y >= 1
    ensures y / 100 == (y - 1) / 100 + (if y % 100 == 0 then 1 else 0)
  {
    var p := y - 1;
    if p % 100 == 99 {
      assert y == 100 * (p / 100 + 1);
    } else {
      assert y == 100 * (p / 100) + (p % 100 + 1);
    }
  }

  lemma Div400Step(y: int)
    requires y >= 1
    ensures y / 400 == (y - 1) / 400 + (if y % 400 == 0 then 1 else 0)
  {
    var p := y - 1;
    if p % 400 == 399 {
      assert y == 400 * (p / 400 + 1);
    } else {
      assert y == 400 * (p / 400) + (p % 400 + 1);
    }
  }

  /** A multiple of 400 is a multiple of 100, and a multiple of 100 one of 4. */
  lemma DivisibilityChain(y: int)
    ensures y % 400 == 0 ==> y % 100 == 0
    ensures y % 100 == 0 ==> y % 4 == 0
  {
    if y % 400 == 0 {
      Multiple400(y);
    }
    if y % 100 == 0 {
      Multiple100(y);
    }
  }

  /** A multiple of 400 is a multiple of 100. */
  lemma Multiple400(y: int)
    requires y % 400 == 0
    ensures y % 100 == 0
  {
    var j := 4 * (y / 400);
    assert y == 100 * j;
  }

  /** A multiple of 100 is a multiple of 4. */
  lemma Multiple100(y: int)
    requires y % 100 == 0
    ensures y % 4 == 0
  {
    var j := 25 * (y / 100);
    assert y == 4 * j;
  }

  /** The closed formula grows by the length of each year. */
  lemma FormulaStep(y: int)
    requires y >= 1
    ensures DaysBeforeYearFormula(y + 1) == DaysBeforeYearFormula(y) + DaysInYear(y)
  {
    Div4Step(y);
    Div100Step(y);
    Div400Step(y);
    DivisibilityChain(y);
    var a4 := if y % 4 == 0 then 1 else 0;
    var a100 := if y % 100 == 0 then 1 else 0;
    var a400 := if y % 400 == 0 then 1 else 0;
    assert DaysInYear(y) == 365 + a4 - a100 + a400;
  }

  /** The year-by-year count agrees with the closed formula, so Ordinal is date.toordinal(). */
  lemma {:induction false} DaysBeforeYearIsFormula(y: int)
    requires y >= 1
    ensures DaysBeforeYear(y) == DaysBeforeYearFormula(y)
  {
    if y > 1 {
      DaysBeforeYearIsFormula(y - 1);
      FormulaStep(y - 1);
    }
  }

  /** The day after the last day of a month is the first day of the next month. */
  lemma NextMonthFirst(m: Month)
    requires ValidMonth(m)
    ensures First(NextMonth(m)) == Last(m) + 1
  {
    if m.month == 12 {
      assert DaysBeforeYear(m.year + 1) == DaysBeforeYear(m.year) + DaysInYear(m.year);
      assert DaysBeforeMonth(m.year, 12) + 31 == DaysInYear(m.year);
    } else {
      DaysBeforeMonthStep(m.year, m.month);
    }
  }

  /** Within a year, each month starts where the previous one ends. */
  lemma DaysBeforeMonthStep(y: int, m: int)
    requires 1 <= m < 12
    ensures DaysBeforeMonth(y, m + 1) == DaysBeforeMonth(y, m) + DaysInMonth(y, m)
  {
    if m == 1 {
    } else if m == 2 {
    } else if m < 7 {
    } else {
    }
  }

  /** Adding no months to a month gives the month itself. */
  lemma AddMonthsZero(m: Month)
    requires 1 <= m.month <= 12
    ensures AddMonths(m, 0) == m
  {
    IndexInjective(AddMonths(m, 0), m);
  }

  /** Adding k months is adding k - 1 months and stepping to the next month. */
  lemma AddMonthsStep(m: Month, k: nat)
    requires k >= 1
    ensures AddMonths(m, k) == NextMonth(AddMonths(m, k - 1))
  {
    IndexInjective(AddMonths(m, k), NextMonth(AddMonths(m, k - 1)));
  }

  /** Months in index order lie in date order: a later month lies entirely
      after an earlier one. */
  lemma {:induction false} MonthOrder(a: Month, c: Month)
    requires ValidMonth(a) && ValidMonth(c) && Index(a) < Index(c)
    ensures Last(a) < First(c)
    decreases Index(c) - Index(a)
  {
    var n := NextMonth(a);
    NextMonthFirst(a);
    if Index(n) == Index(c) {
      IndexInjective(n, c);
    } else {
      MonthOrder(n, c);
      assert First(n) <= Last(n);
    }
  }

  /** date <= date: dates compare field by field. */
  predicate DateLe(a: Date, c: Date) {
    a.year < c.year || (a.year == c.year && (a.month < c.month || (a.month == c.month && a.day <= c.day)))
  }

  /** Comparing valid dates field by field is comparing their ordinals. */
  lemma DateLeIsOrdinalLe(a: Date, c: Date)
    requires ValidDate(a) && ValidDate(c)
    ensures DateLe(a, c) <==> Ordinal(a) <= Ordinal(c)
  {
    DateInMonth(a);
    DateInMonth(c);
    if Index(MonthOf(a)) < Index(MonthOf(c)) {
      MonthOrder(MonthOf(a), MonthOf(c));
    } else if Index(MonthOf(c)) < Index(MonthOf(a)) {
      MonthOrder(MonthOf(c), MonthOf(a));
    } else {
      IndexInjective(MonthOf(a), MonthOf(c));
    }
  }

  /** A valid date lies between the first and the last day of its month. */
  lemma DateInMonth(d: Date)
    requires ValidDate(d)
    ensures ValidMonth(MonthOf(d))
    ensures First(MonthOf(d)) <= Ordinal(d) <= Last(MonthOf(d))
  {
  }

  /** The weekday sequence advances by one each day and wraps after Sunday. */
  lemma WeekdayNext(o: int)
    ensures Weekday(o + 1) == if Weekday(o) == 6 then 0 else Weekday(o) + 1
  {
  }
}
