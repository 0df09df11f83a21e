/** The production calendar of the workdays application
    (workdays/models.py, workdays/utils.py): dated overrides of the
    Monday-to-Friday week, the per-day (workday, non-workday, hours) triple,
    its sums over a date range and the yearly working-time norms report. */
module WorkCalendar {
  import opened Dates
  import opened Results
  import PlanDays

  /** Hours of a standard working day. */
  const WorkHours: int := 8

  /** The fixed weekend of the calendar: Saturday and Sunday (Monday = 0). */
  const Weekend: set<int> := {5, 6}

  /** SpecialDay.daytype: HL, SH, WK. */
  datatype DayType = Holiday | Shortened | Work

  /** A named holiday: its first day (month, day) and how many days it lasts. */
  datatype HolidayName = HolidayName(dayname: string, month: int, day: int, count: int)

  /** A row of the SpecialDay table; its date is the key of the table. */
  datatype SpecialDay = SpecialDay(daytype: DayType, dayname: Option<HolidayName>, comment: Option<string>)

  /** The SpecialDay table, keyed by the ordinal of its unique date. */
  type Calendar = map<int, SpecialDay>

  /** (workdays, non-workdays, work hours) of a day or of a range of days. */
  datatype DayStat = DayStat(workdays: int, holidays: int, hours: int) {
    function Plus(other: DayStat): DayStat {
      DayStat(workdays + other.workdays, holidays + other.holidays, hours + other.hours)
    }
  }

  datatype CalendarError =
    | IndexError   // result_list[0] of an empty range of days
    | ValueError   // a date the calendar cannot construct

  /** Which rows of the norms report a row stands for: a month, a quarter
      (named by its first month) or the whole year. */
  datatype Period = MonthPeriod(month: int) | QuarterPeriod(first: int) | YearPeriod

  /** A row of the norms report: its period, its number of days and the calendar sums. */
  datatype ReportRow = ReportRow(name: Period, days: int, stat: DayStat)

  /** The field validators of HolidayName. */
  predicate FieldsValid(h: HolidayName) {
    1 <= h.month <= 12 && 1 <= h.day <= 31 && 1 <= h.count <= 10
  }

  /** HolidayName.clean: the holiday's (month, day) must be a date of the
      current year; Failure is the ValidationError it raises. */
  function CleanHolidayName(h: HolidayName, currentYear: int): (r: Result<(), CalendarError>)
    requires currentYear >= 1
    ensures r.Success? <==> 1 <= h.month <= 12 && 1 <= h.day <= DaysInMonth(currentYear, h.month)
  {
    if ValidDate(Date(currentYear, h.month, h.day)) then Success(()) else Failure(ValueError)
  }

  /** SpecialDay.workdayholidayhours(hours): a holiday is a non-workday without
      hours, a shortened day is a workday one hour short, any other day a full
      workday. */
  function DayTriple(s: SpecialDay, hours: int): (r: DayStat)
    ensures r.workdays + r.holidays == 1 && 0 <= r.workdays
    ensures r.holidays == 1 <==> s.daytype == Holiday
    ensures r.workdays == 0 ==> r.hours == 0
    ensures r.workdays == 1 ==> r.hours == if s.daytype == Shortened then hours - 1 else hours
  {
    match s.daytype
    case Holiday => DayStat(0, 1, 0)
    case Shortened => DayStat(1, 0, hours - 1)
    case Work => DayStat(1, 0, hours)
  }

  /** The triple of one date: its override if the calendar has one, else the weekend rule. */
  function DayStatOf(cal: Calendar, d: int): DayStat {
    if d in cal then DayTriple(cal[d], WorkHours)
    else if Weekday(d) in Weekend then DayStat(0, 1, 0)
    else DayStat(1, 0, WorkHours)
  }

  /** Every day is either a workday or a non-workday, and a workday has
      seven or eight hours. */
  lemma DayStatOfBounds(cal: Calendar, d: int)
    ensures DayStatOf(cal, d).workdays + DayStatOf(cal, d).holidays == 1
    ensures 0 <= DayStatOf(cal, d).workdays && 0 <= DayStatOf(cal, d).holidays
    ensures 7 * DayStatOf(cal, d).workdays <= DayStatOf(cal, d).hours <= 8 * DayStatOf(cal, d).workdays
  {
  }

  /** days(fromdate, todate) */
  function Days(f: int, t: int): int {
    t - f + 1
  }

  /** The component-wise sum of the day triples of [f, t]; zero for an empty range. */
  function RangeStat(cal: Calendar, f: int, t: int): DayStat {
    SumOver(DayFn(cal), f, t)
  }

  /** The triple of each date under the calendar. */
  function DayFn(cal: Calendar): int -> DayStat {
    d => DayStatOf(cal, d)
  }

  /** The component-wise sum of day(d) over the days d of [f, t]. */
  function SumOver(day: int -> DayStat, f: int, t: int): DayStat
    decreases t - f
  {
    if f > t then DayStat(0, 0, 0) else SumOver(day, f, t - 1).Plus(day(t))
  }

  /** Every day of the range is either a workday or a non-workday, and a
      workday has seven or eight hours. */
  lemma {:induction false} RangeStatBounds(cal: Calendar, f: int, t: int)
    ensures f <= t ==> RangeStat(cal, f, t).workdays + RangeStat(cal, f, t).holidays == Days(f, t)
    ensures f > t ==> RangeStat(cal, f, t) == DayStat(0, 0, 0)
    ensures 0 <= RangeStat(cal, f, t).workdays && 0 <= RangeStat(cal, f, t).holidays
    ensures 7 * RangeStat(cal, f, t).workdays <= RangeStat(cal, f, t).hours <= 8 * RangeStat(cal, f, t).workdays
    decreases t - f
  {
    if f > t {
      assert RangeStat(cal, f, t) == DayStat(0, 0, 0);
    } else {
      RangeStatBounds(cal, f, t - 1);
      RangeStatUnfold(cal, f, t);
    }
  }

  /** workdayholidayhours(fromdate, todate): the sums over the range, or the
      IndexError raised when the range holds no day. */
  function WorkdayHolidayHours(cal: Calendar, f: int, t: int): (r: Result<DayStat, CalendarError>)
    ensures r.Failure? <==> f > t
    ensures r.Success? ==> r.value.workdays + r.value.holidays == Days(f, t)
    ensures r.Success? ==> 0 <= r.value.workdays && 0 <= r.value.holidays
    ensures r.Success? ==> 7 * r.value.workdays <= r.value.hours <= WorkHours * r.value.workdays
  {
    if f > t then Failure(IndexError)
    else
      RangeStatBounds(cal, f, t);
      Success(RangeStat(cal, f, t))
  }

  /** workdays(fromdate, todate) */
  function Workdays(cal: Calendar, f: int, t: int): (r: Result<int, CalendarError>)
    ensures r.Success? <==> f <= t
    ensures r.Success? ==> 0 <= r.value <= Days(f, t)
  {
    match WorkdayHolidayHours(cal, f, t)
    case Success(s) => Success(s.workdays)
    case Failure(e) => Failure(e)
  }

  /** holidays(fromdate, todate) */
  function Holidays(cal: Calendar, f: int, t: int): (r: Result<int, CalendarError>)
    ensures r.Success? <==> f <= t
    ensures r.Success? ==> Workdays(cal, f, t).value + r.value == Days(f, t)
  {
    match WorkdayHolidayHours(cal, f, t)
    case Success(s) => Success(s.holidays)
    case Failure(e) => Failure(e)
  }

  /** workhours(fromdate, todate) */
  function Workhours(cal: Calendar, f: int, t: int): (r: Result<int, CalendarError>)
    ensures r.Success? <==> f <= t
    ensures r.Success? ==> 7 * Workdays(cal, f, t).value <= r.value <= 8 * Workdays(cal, f, t).value
  {
    match WorkdayHolidayHours(cal, f, t)
    case Success(s) => Success(s.hours)
    case Failure(e) => Failure(e)
  }

  /** is_holiday(date): the override decides if there is one, else the weekend rule. */
  function IsHoliday(cal: Calendar, d: int): bool {
    if d in cal then cal[d].daytype == Holiday else Weekday(d) in Weekend
  }

  /** A date is a holiday exactly when it contributes no workday. */
  lemma HolidayIffNoWorkday(cal: Calendar, d: int)
    ensures IsHoliday(cal, d) <==> Workdays(cal, d, d) == Success(0)
  {
    RangeStatUnfold(cal, d, d);
    assert RangeStat(cal, d, d - 1) == DayStat(0, 0, 0);
    ZeroPlus(DayStatOf(cal, d));
  }

  lemma PlusZero(a: DayStat)
    ensures a.Plus(DayStat(0, 0, 0)) == a
  {
  }

  lemma ZeroPlus(a: DayStat)
    ensures DayStat(0, 0, 0).Plus(a) == a
  {
  }

  lemma PlusAssoc(a: DayStat, b: DayStat, c: DayStat)
    ensures a.Plus(b).Plus(c) == a.Plus(b.Plus(c))
  {
  }

  /** A non-empty range is the range without its last day, plus that day. */
  lemma RangeStatUnfold(cal: Calendar, f: int, t: int)
    requires f <= t
    ensures RangeStat(cal, f, t) == RangeStat(cal, f, t - 1).Plus(DayStatOf(cal, t))
  {
  }

  /** Splitting the range splits every sum. */
  lemma RangeSplit(cal: Calendar, f: int, m: int, t: int)
    requires f - 1 <= m <= t
    ensures RangeStat(cal, f, t) == RangeStat(cal, f, m).Plus(RangeStat(cal, m + 1, t))
  {
    SumSplit(DayFn(cal), f, m + 1, t);
  }

  /** A sum over [f, t] is the sum over [f, m - 1] followed by the sum over [m, t]. */
  lemma {:induction false} SumSplit(day: int -> DayStat, f: int, m: int, t: int)
    requires f <= m <= t + 1
    ensures SumOver(day, f, t) == SumOver(day, f, m - 1).Plus(SumOver(day, m, t))
    decreases t - m
  {
    if m <= t {
      SumSplit(day, f, m, t - 1);
      PlusAssoc(SumOver(day, f, m - 1), SumOver(day, m, t - 1), day(t));
    } else {
      assert SumOver(day, m, t) == DayStat(0, 0, 0);
      PlusZero(SumOver(day, f, t));
    }
  }

  /** Without overrides in the range the calendar agrees with the weekend-only
      count of the planning application, every workday having full hours. */
  lemma {:induction false} NoOverridesAgree(cal: Calendar, f: int, t: int)
    requires forall d :: f <= d <= t ==> d !in cal
    ensures RangeStat(cal, f, t).workdays == PlanDays.Workdays(f, t, PlanDays.DefaultWeekend)
    ensures RangeStat(cal, f, t).hours == WorkHours * RangeStat(cal, f, t).workdays
    decreases t - f
  {
    if f > t {
      assert RangeStat(cal, f, t) == DayStat(0, 0, 0);
      assert PlanDays.Workdays(f, t, PlanDays.DefaultWeekend) == 0;
      assert RangeStat(cal, f, t).workdays == PlanDays.Workdays(f, t, PlanDays.DefaultWeekend);
    } else {
      NoOverridesAgree(cal, f, t - 1);
      RangeStatUnfold(cal, f, t);
      NoOverrideDay(cal, t);
      assert PlanDays.Workdays(f, t, PlanDays.DefaultWeekend) ==
        PlanDays.Workdays(f, t - 1, PlanDays.DefaultWeekend) + DayStatOf(cal, t).workdays;
    }
  }

  /** A date without an override follows the weekend rule of the planning application. */
  lemma NoOverrideDay(cal: Calendar, d: int)
    requires d !in cal
    ensures DayStatOf(cal, d).workdays == if Weekday(d) in PlanDays.DefaultWeekend then 0 else 1
    ensures DayStatOf(cal, d).hours == WorkHours * DayStatOf(cal, d).workdays
  {
  }

  /** q + monthdelta(3) for the first day of month q, taken one month at a time. */
  function QuarterAfter(q: Month): Month {
    NextMonth(NextMonth(NextMonth(q)))
  }

  /** Three single-month steps are one three-month step. */
  lemma QuarterAfterIsAddMonths(q: Month)
    requires 1 <= q.month <= 12
    ensures QuarterAfter(q) == AddMonths(q, 3)
  {
    IndexInjective(QuarterAfter(q), AddMonths(q, 3));
  }

  /** A named range of days [first, last] of the norms report. */
  type Range = (Period, int, int)

  /** The range of a month row: the first and the last day of the month. */
  function MonthRange(m: Month): Range
    requires ValidMonth(m)
  {
    (MonthPeriod(m.month), First(m), Last(m))
  }

  /** The range of a quarter row starting with month m: from the first day
      of m up to the day before that day plus monthdelta(3). */
  function QuarterRange(m: Month): Range
    requires ValidMonth(m)
  {
    (QuarterPeriod(m.month), First(m), First(QuarterAfter(m)) - 1)
  }

  /** The range of the year row: from January 1st up to the day before
      January 1st of the next year. */
  function YearRange(year: int): Range
    requires year >= 1
  {
    (YearPeriod, First(Month(year, 1)), First(Month(year + 1, 1)) - 1)
  }

  /** The ranges of the norms report, chained: the twelve months, then the
      four quarters, then the year. */
  function Ranges(year: int): (rs: seq<Range>)
    requires year >= 1
    ensures |rs| == 17
  {
    seq(12, i requires 0 <= i < 12 => MonthRange(Month(year, i + 1)))
    + seq(4, q requires 0 <= q < 4 => QuarterRange(Month(year, 3 * q + 1)))
    + [YearRange(year)]
  }

  /** The row of a range: its name, its number of days and the sums over it. */
  function RowOf(day: int -> DayStat, range: Range): ReportRow {
    ReportRow(range.0, Days(range.1, range.2), SumOver(day, range.1, range.2))
  }

  /** One row per range, in order, when day gives each date's triple. */
  function Report(day: int -> DayStat, ranges: seq<Range>): (rows: seq<ReportRow>)
    ensures |rows| == |ranges|
    ensures forall i :: 0 <= i < |ranges| ==> rows[i] == RowOf(day, ranges[i])
  {
    seq(|ranges|, i requires 0 <= i < |ranges| => RowOf(day, ranges[i]))
  }

  /** A range runs forwards or is empty. */
  predicate Forward(r: Range) {
    r.1 <= r.2 + 1
  }

  /** Range s starts on the day after range r ends. */
  predicate Adjacent(r: Range, s: Range) {
    r.2 + 1 == s.1
  }

  /** Range u is the ranges a, b and c laid end to end. */
  predicate Three(u: Range, a: Range, b: Range, c: Range) {
    && Forward(a) && Forward(b) && Forward(c)
    && u.1 == a.1 && Adjacent(a, b) && Adjacent(b, c) && c.2 == u.2
  }

  /** Range u is the ranges a, b, c and d laid end to end. */
  predicate Four(u: Range, a: Range, b: Range, c: Range, d: Range) {
    && Forward(a) && Forward(b) && Forward(c) && Forward(d)
    && u.1 == a.1 && Adjacent(a, b) && Adjacent(b, c) && Adjacent(c, d) && d.2 == u.2
  }

  /** The quarter range 12 + q is the month ranges 3q, 3q + 1 and 3q + 2 laid end to end. */
  predicate QuarterTiled(rs: seq<Range>, q: int)
    requires |rs| == 17 && 0 <= q < 4
  {
    Three(rs[12 + q], rs[3 * q], rs[3 * q + 1], rs[3 * q + 2])
  }

  /** The ranges of a norms report nest: each quarter is its three months
      end to end, and the year is its four quarters end to end. */
  predicate Tiles(rs: seq<Range>)
    requires |rs| == 17
  {
    && (forall q :: 0 <= q < 4 ==> QuarterTiled(rs, q))
    && Four(rs[16], rs[12], rs[13], rs[14], rs[15])
  }

  /** The ranges of every year's norms report nest. */
  lemma RangesTile(year: int)
    requires year >= 1
    ensures Tiles(Ranges(year))
  {
    forall q | 0 <= q < 4
      ensures QuarterTiled(Ranges(year), q)
    {
      QuarterOfMonths(year, q);
    }
    YearOfQuarters(year);
  }

  /** Quarter q of the norms report is its three months end to end. */
  lemma QuarterOfMonths(year: int, q: int)
    requires year >= 1 && 0 <= q < 4
    ensures QuarterTiled(Ranges(year), q)
  {
    var m := Month(year, 3 * q + 1);
    RangesAt(year, 12 + q);
    RangesAt(year, 3 * q);
    RangesAt(year, 3 * q + 1);
    RangesAt(year, 3 * q + 2);
    assert NextMonth(m) == Month(year, 3 * q + 2);
    assert NextMonth(NextMonth(m)) == Month(year, 3 * q + 3);
    QuarterIsItsMonths(m);
  }

  /** The year row of the norms report is its four quarters end to end. */
  lemma YearOfQuarters(year: int)
    requires year >= 1
    ensures Four(Ranges(year)[16], Ranges(year)[12], Ranges(year)[13], Ranges(year)[14], Ranges(year)[15])
  {
    RangesAt(year, 12);
    RangesAt(year, 13);
    RangesAt(year, 14);
    RangesAt(year, 15);
    RangesAt(year, 16);
    YearIsItsQuartersAt(year);
  }

  /** The year is the quarters starting in January, April, July and October, end to end. */
  lemma YearIsItsQuartersAt(year: int)
    requires year >= 1
    ensures Four(YearRange(year), QuarterRange(Month(year, 1)), QuarterRange(Month(year, 4)),
      QuarterRange(Month(year, 7)), QuarterRange(Month(year, 10)))
  {
    QuarterStep(year, 0);
    QuarterStep(year, 1);
    QuarterStep(year, 2);
    LastQuarterEndsYear(year);
    QuarterRangeForward(Month(year, 1));
    QuarterRangeForward(Month(year, 4));
    QuarterRangeForward(Month(year, 7));
    QuarterRangeForward(Month(year, 10));
  }

  /** Quarter k + 1 starts on the day after quarter k ends. */
  lemma QuarterStep(year: int, k: int)
    requires year >= 1 && 0 <= k < 3
    ensures Adjacent(QuarterRange(Month(year, 3 * k + 1)), QuarterRange(Month(year, 3 * k + 4)))
  {
    QuarterAfterOf(year, 3 * k + 1);
  }

  /** The last quarter ends with the year. */
  lemma LastQuarterEndsYear(year: int)
    requires year >= 1
    ensures QuarterRange(Month(year, 10)).2 == YearRange(year).2
  {
    QuarterAfterOf(year, 10);
  }

  /** The range at index i of the norms report of year. */
  lemma RangesAt(year: int, i: int)
    requires year >= 1 && 0 <= i < 17
    ensures i < 12 ==> Ranges(year)[i] == MonthRange(Month(year, i + 1))
    ensures 12 <= i < 16 ==> Ranges(year)[i] == QuarterRange(Month(year, 3 * (i - 12) + 1))
    ensures i == 16 ==> Ranges(year)[i] == YearRange(year)
  {
  }

  /** The month three months after month k of year. */
  lemma QuarterAfterOf(year: int, k: int)
    requires 1 <= k <= 12
    ensures QuarterAfter(Month(year, k)) == if k <= 9 then Month(year, k + 3) else Month(year + 1, k - 9)
  {
  }

  /** The quarter starting with month m is m and the two months after it, end to end. */
  lemma QuarterIsItsMonths(m: Month)
    requires ValidMonth(m)
    ensures Three(QuarterRange(m), MonthRange(m), MonthRange(NextMonth(m)), MonthRange(NextMonth(NextMonth(m))))
  {
    var n := NextMonth(m);
    var p := NextMonth(n);
    NextMonthFirst(m);
    NextMonthFirst(n);
    NextMonthFirst(p);
    assert First(m) <= Last(m) && First(n) <= Last(n) && First(p) <= Last(p);
  }

  /** Every quarter range holds at least one day. */
  lemma QuarterRangeForward(m: Month)
    requires ValidMonth(m)
    ensures Forward(QuarterRange(m))
  {
    MonthOrder(m, QuarterAfter(m));
    assert First(m) <= Last(m);
  }

  /** The year row spans exactly the days of the year. */
  lemma YearRangeLength(year: int)
    requires year >= 1
    ensures Days(YearRange(year).1, YearRange(year).2) == DaysInYear(year)
  {
    assert DaysBeforeYear(year + 1) == DaysBeforeYear(year) + DaysInYear(year);
  }

  /** No range of a nesting report runs backwards. */
  lemma TilesForward(rs: seq<Range>)
    requires |rs| == 17 && Tiles(rs)
    ensures forall i :: 0 <= i < 17 ==> Forward(rs[i])
  {
    forall i | 0 <= i < 12
      ensures Forward(rs[i])
    {
      assert QuarterTiled(rs, i / 3);
    }
  }

  /** Every day of a range that runs forwards is a workday or a non-workday. */
  lemma RowBalanced(cal: Calendar, r: Range)
    requires Forward(r)
    ensures RowOf(DayFn(cal), r).stat.workdays + RowOf(DayFn(cal), r).stat.holidays == RowOf(DayFn(cal), r).days
  {
    RangeStatBounds(cal, r.1, r.2);
  }

  /** Each quarter row adds up its three month rows, and the year row the
      four quarter rows, both in days and in sums. */
  predicate AddsUp(rows: seq<ReportRow>)
    requires |rows| == 17
  {
    && (forall q :: 0 <= q < 4 ==>
          && rows[12 + q].days == rows[3 * q].days + rows[3 * q + 1].days + rows[3 * q + 2].days
          && rows[12 + q].stat == rows[3 * q].stat.Plus(rows[3 * q + 1].stat).Plus(rows[3 * q + 2].stat))
    && rows[16].days == rows[12].days + rows[13].days + rows[14].days + rows[15].days
    && rows[16].stat == rows[12].stat.Plus(rows[13].stat).Plus(rows[14].stat).Plus(rows[15].stat)
  }

  /** Each quarter row of the norms report adds up its three month rows, and
      the year row adds up the four quarter rows, both in days and in sums. */
  lemma StandardsReportAddsUp(cal: Calendar, year: int)
    requires year >= 1
    ensures AddsUp(StandardsReport(cal, year).value)
  {
    RangesTile(year);
    TiledRowsAddUp(DayFn(cal), Ranges(year));
  }

  /** Over nesting ranges, whatever the day triples, each quarter row adds
      up its three month rows and the year row its four quarter rows. */
  lemma TiledRowsAddUp(day: int -> DayStat, rs: seq<Range>)
    requires |rs| == 17 && Tiles(rs)
    ensures AddsUp(Report(day, rs))
  {
    var rows := Report(day, rs);
    forall q | 0 <= q < 4
      ensures && rows[12 + q].days == rows[3 * q].days + rows[3 * q + 1].days + rows[3 * q + 2].days
              && rows[12 + q].stat == rows[3 * q].stat.Plus(rows[3 * q + 1].stat).Plus(rows[3 * q + 2].stat)
    {
      assert QuarterTiled(rs, q);
      ThreeRows(day, rs[12 + q], rs[3 * q], rs[3 * q + 1], rs[3 * q + 2]);
    }
    FourRows(day, rs[16], rs[12], rs[13], rs[14], rs[15]);
  }

  /** The row of three ranges end to end adds up their rows. */
  lemma ThreeRows(day: int -> DayStat, u: Range, a: Range, b: Range, c: Range)
    requires Three(u, a, b, c)
    ensures RowOf(day, u).days == RowOf(day, a).days + RowOf(day, b).days + RowOf(day, c).days
    ensures RowOf(day, u).stat == RowOf(day, a).stat.Plus(RowOf(day, b).stat).Plus(RowOf(day, c).stat)
  {
    var x, y, z := SumOver(day, a.1, a.2), SumOver(day, b.1, b.2), SumOver(day, c.1, c.2);
    assert SumOver(day, a.1, b.2) == x.Plus(y) by { SumSplit(day, a.1, b.1, b.2); }
    SumSplit(day, a.1, c.1, c.2);
  }

  /** The row of four ranges end to end adds up their rows. */
  lemma FourRows(day: int -> DayStat, u: Range, a: Range, b: Range, c: Range, d: Range)
    requires Four(u, a, b, c, d)
    ensures RowOf(day, u).days == RowOf(day, a).days + RowOf(day, b).days + RowOf(day, c).days + RowOf(day, d).days
    ensures RowOf(day, u).stat ==
      RowOf(day, a).stat.Plus(RowOf(day, b).stat).Plus(RowOf(day, c).stat).Plus(RowOf(day, d).stat)
  {
    var abc: Range := (u.0, a.1, c.2);
    ThreeRows(day, abc, a, b, c);
    SumSplit(day, a.1, d.1, d.2);
  }

  /** The month rows of the norms report: named in order, each over its month. */
  lemma MonthRows(cal: Calendar, year: int)
    requires year >= 1
    ensures var rows := Report(DayFn(cal), Ranges(year));
      forall i :: 0 <= i < 12 ==>
        && rows[i].name == MonthPeriod(i + 1)
        && rows[i].days == DaysInMonth(year, i + 1)
        && WorkdayHolidayHours(cal, First(Month(year, i + 1)), Last(Month(year, i + 1))) == Success(rows[i].stat)
  {
    forall i | 0 <= i < 12
      ensures var row := Report(DayFn(cal), Ranges(year))[i];
        && row.name == MonthPeriod(i + 1)
        && row.days == DaysInMonth(year, i + 1)
        && WorkdayHolidayHours(cal, First(Month(year, i + 1)), Last(Month(year, i + 1))) == Success(row.stat)
    {
      MonthRowAt(cal, year, i);
    }
  }

  /** The quarter rows of the norms report are named by their first months. */
  lemma QuarterNames(cal: Calendar, year: int)
    requires year >= 1
    ensures var rows := Report(DayFn(cal), Ranges(year));
      forall q :: 0 <= q < 4 ==> rows[12 + q].name == QuarterPeriod(3 * q + 1)
  {
    forall q | 0 <= q < 4
      ensures Report(DayFn(cal), Ranges(year))[12 + q].name == QuarterPeriod(3 * q + 1)
    {
      RangesAt(year, 12 + q);
    }
  }

  /** In every row of the norms report, workdays and holidays make up the days. */
  lemma RowsBalanced(cal: Calendar, year: int)
    requires year >= 1
    ensures var rows := Report(DayFn(cal), Ranges(year));
      forall i :: 0 <= i < 17 ==> rows[i].stat.workdays + rows[i].stat.holidays == rows[i].days
  {
    var rs := Ranges(year);
    RangesTile(year);
    TilesForward(rs);
    forall i | 0 <= i < 17
      ensures Report(DayFn(cal), rs)[i].stat.workdays + Report(DayFn(cal), rs)[i].stat.holidays == Report(DayFn(cal), rs)[i].days
    {
      RowBalanced(cal, rs[i]);
    }
  }

  /** The year row of the norms report covers the whole year. */
  lemma YearRowAt(cal: Calendar, year: int)
    requires year >= 1
    ensures var row := Report(DayFn(cal), Ranges(year))[16];
      row.name == YearPeriod && row.days == DaysInYear(year)
  {
    RangesAt(year, 16);
    YearRangeLength(year);
  }

  /** Month row i of the norms report covers month i + 1. */
  lemma MonthRowAt(cal: Calendar, year: int, i: int)
    requires year >= 1 && 0 <= i < 12
    ensures var row := Report(DayFn(cal), Ranges(year))[i];
      && row.name == MonthPeriod(i + 1)
      && row.days == DaysInMonth(year, i + 1)
      && WorkdayHolidayHours(cal, First(Month(year, i + 1)), Last(Month(year, i + 1))) == Success(row.stat)
  {
    RangesAt(year, i);
  }

  /** standards_report(year): a row (days, workdays, holidays, hours) per
      month, quarter and the year; the ValueError of date(year, 1, 1) for a
      year below 1. */
  function StandardsReport(cal: Calendar, year: int): (r: Result<seq<ReportRow>, CalendarError>)
    ensures r.Failure? <==> year < 1
    ensures r.Success? ==> |r.value| == 17
    ensures r.Success? ==> forall i :: 0 <= i < 17 ==>
      r.value[i].stat.workdays + r.value[i].stat.holidays == r.value[i].days
    ensures r.Success? ==> forall i :: 0 <= i < 12 ==>
      && r.value[i].name == MonthPeriod(i + 1)
      && r.value[i].days == DaysInMonth(year, i + 1)
      && WorkdayHolidayHours(cal, First(Month(year, i + 1)), Last(Month(year, i + 1))) == Success(r.value[i].stat)
    ensures r.Success? ==>
      && (forall q :: 0 <= q < 4 ==> r.value[12 + q].name == QuarterPeriod(3 * q + 1))
      && r.value[16].name == YearPeriod && r.value[16].days == DaysInYear(year)
  {
    if year < 1 then Failure(ValueError)
    else
      RowsBalanced(cal, year);
      MonthRows(cal, year);
      QuarterNames(cal, year);
      YearRowAt(cal, year);
      Success(Report(DayFn(cal), Ranges(year)))
  }
}
