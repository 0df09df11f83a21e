/** Bookings of project members and their expansion into month rows
    (pplan/models.py, Booking, MonthBooking and the update_month_booking
    receiver): each saved booking replaces its MonthBooking rows by one row
    per calendar month it touches, holding the working days of the booking
    that fall in that month, the month load and the month volume. */
module MonthBookings {
  import opened Dates
  import PlanDays

  /** Booking.state: DR, PL, FA. */
  datatype BookingState = Draft | Plan | Fact

  /** A Booking row: member is the ProjectMember it belongs to, start and
      finish the inclusive dates, load the percentage of a full working day. */
  datatype Booking = Booking(id: int, member: int, start: Date, finish: Date, load: real, state: BookingState)

  /** A MonthBooking row; month stands for its first day. */
  datatype MonthBooking = MonthBooking(booking: int, month: Month, days: int, load: real, volume: real)

  /** The booking's dates are real calendar dates: all the receiver needs. */
  predicate HasDates(b: Booking) {
    ValidDate(b.start) && ValidDate(b.finish)
  }

  /** A booking that starts no later than it finishes. No validator orders
      the two dates, so the properties of the expansion that need the order
      take it as a hypothesis. */
  predicate ValidBooking(b: Booking) {
    HasDates(b) && DateLe(b.start, b.finish)
  }

  function Max(a: int, b: int): int {
    if a < b then b else a
  }

  function Min(a: int, b: int): int {
    if a > b then b else a
  }

  /** Working days of a range by the weekend-only rule the planning models use. */
  function Workdays(f: int, t: int): nat {
    PlanDays.Workdays(f, t, PlanDays.DefaultWeekend)
  }

  /** Working days of the whole booking: workdays(start_date, finish_date). */
  function BookingWorkdays(b: Booking): nat
    requires ValidDate(b.start) && ValidDate(b.finish)
  {
    Workdays(Ordinal(b.start), Ordinal(b.finish))
  }

  /** volume(workdays(start_date, finish_date), load): the person-days of one booking. */
  function BookingVolume(b: Booking): real
    requires ValidDate(b.start) && ValidDate(b.finish)
  {
    PlanDays.Volume(BookingWorkdays(b), b.load)
  }

  /** First month of the booking: start_date.replace(day=1). */
  function StartMonth(b: Booking): Month {
    MonthOf(b.start)
  }

  /** Number of months the receiver writes: monthmod(start_month,
      end_month)[0].months + 1, which leaves the month generator empty when
      the finish month precedes the start month. */
  function MonthCount(b: Booking): (c: nat)
    requires HasDates(b)
    ensures ValidBooking(b) ==> c >= 1
    ensures c == 0 <==> Index(MonthOf(b.finish)) < Index(MonthOf(b.start))
  {
    var d := Index(MonthOf(b.finish)) - Index(MonthOf(b.start)) + 1;
    if d < 0 then 0 else d
  }

  /** What the receiver reads of a booking, as day ordinals: its id, its
      start and finish dates, its load, and the first day of its start month. */
  datatype Span = Span(id: int, start: int, finish: int, load: real, first: int)

  function SpanOf(b: Booking): Span
    requires ValidDate(b.start) && ValidDate(b.finish)
  {
    Span(b.id, Ordinal(b.start), Ordinal(b.finish), b.load, Ordinal(b.start) - b.start.day + 1)
  }

  /** The month load: days / workdays(month, monthtail) * load, the month's
      share of working days times the booking load. A month always has working
      days (MonthDaysPositive), so the guard against a zero divisor never
      decides anything for a real month. */
  function MonthLoad(days: int, monthDays: int, load: real): real {
    if monthDays == 0 then 0.0 else days as real / monthDays as real * load
  }

  /** The row saved for month m, whose days run from ordinal first to
      ordinal tail: the booking clipped to that window (start = month if
      start_date < month else start_date, and likewise for the finish), its
      working days, its volume and its month load. */
  function RowIn(sp: Span, m: Month, first: int, tail: int): (r: MonthBooking)
    ensures r.booking == sp.id && r.month == m
    ensures r.volume == PlanDays.Volume(r.days, sp.load)
  {
    var days := Workdays(Max(sp.start, first), Min(sp.finish, tail));
    MonthBooking(sp.id, m, days, MonthLoad(days, Workdays(first, tail), sp.load), PlanDays.Volume(days, sp.load))
  }

  /** The month row of booking b for calendar month m. */
  function Row(b: Booking, m: Month): MonthBooking
    requires ValidDate(b.start) && ValidDate(b.finish) && ValidMonth(m)
  {
    RowIn(SpanOf(b), m, First(m), Last(m))
  }

  /** The divisor of the month load is never zero. */
  lemma MonthDaysPositive(m: Month)
    requires ValidMonth(m)
    ensures Workdays(First(m), Last(m)) > 0
  {
    PlanDays.MonthHasWorkdays(m);
  }

  /** A month row never claims more working days than its month has, and its
      load lies between 0 and the booking load. */
  lemma RowBounds(b: Booking, m: Month)
    requires ValidDate(b.start) && ValidDate(b.finish) && ValidMonth(m)
    ensures 0 <= Row(b, m).days <= Workdays(First(m), Last(m))
    ensures 0.0 <= b.load ==> 0.0 <= Row(b, m).load <= b.load
  {
    var sp := SpanOf(b);
    var s := Max(sp.start, First(m));
    var f := Min(sp.finish, Last(m));
    MonthDaysPositive(m);
    WindowWithinMonth(s, f, m);
    ShareBounds(Workdays(s, f), Workdays(First(m), Last(m)), b.load);
  }

  /** A share of at most the whole, times a non-negative load, is at most that load. */
  lemma ShareBounds(part: int, whole: int, load: real)
    requires 0 <= part <= whole && whole > 0
    ensures 0.0 <= load ==> 0.0 <= MonthLoad(part, whole, load) <= load
  {
    var q := part as real / whole as real;
    assert 0.0 <= q <= 1.0;
    if 0.0 <= load {
      assert q * load <= 1.0 * load;
    }
  }

  /** A window inside a month has no more working days than the month. */
  lemma WindowWithinMonth(s: int, f: int, m: Month)
    requires ValidMonth(m) && First(m) <= s && f <= Last(m)
    ensures Workdays(s, f) <= Workdays(First(m), Last(m))
  {
    if s <= f + 1 {
      PlanDays.WorkdaysMonotone(First(m), Last(m), s, f, PlanDays.DefaultWeekend);
    }
  }

  /** The ordinal of the last day of the k consecutive months from month m,
      when m starts at ordinal first: each month adds its length. */
  function MonthsEnd(m: Month, first: int, k: nat): int
    requires ValidMonth(m)
    decreases k
  {
    if k == 0 then first - 1
    else MonthsEnd(NextMonth(m), first + DaysInMonth(m.year, m.month), k - 1)
  }

  /** The rows for n months from month ms, of a span whose start month is
      ms: row i is month ms + monthdelta(i), over the days from its first
      day to its tail. */
  function SpanRows(sp: Span, ms: Month, n: nat): (rows: seq<MonthBooking>)
    requires ValidMonth(ms)
    ensures |rows| == n
  {
    seq(n, i requires 0 <= i => SpanRow(sp, ms, i))
  }

  /** Row i of SpanRows. */
  function SpanRow(sp: Span, ms: Month, i: nat): (r: MonthBooking)
    requires ValidMonth(ms)
    ensures r.booking == sp.id && r.month == AddMonths(ms, i)
    ensures r.volume == PlanDays.Volume(r.days, sp.load)
  {
    RowIn(sp, AddMonths(ms, i), MonthsEnd(ms, sp.first, i) + 1, MonthsEnd(ms, sp.first, i + 1))
  }

  /** The rows the receiver inserts for a booking, one per month of the month generator. */
  function Expand(b: Booking): (rows: seq<MonthBooking>)
    requires HasDates(b)
  {
    SpanRows(SpanOf(b), StartMonth(b), MonthCount(b))
  }

  /** MonthBooking.objects.filter(booking=id) */
  function RowsOf(rows: seq<MonthBooking>, id: int): (r: seq<MonthBooking>)
    ensures forall x :: x in r <==> x in rows && x.booking == id
  {
    if |rows| == 0 then []
    else (if rows[0].booking == id then [rows[0]] else []) + RowsOf(rows[1..], id)
  }

  /** Every row of the booking is kept as many times as the table holds it, and no other row. */
  lemma {:induction false} RowsOfCounts(rows: seq<MonthBooking>, id: int)
    ensures forall x :: multiset(RowsOf(rows, id))[x] == if x.booking == id then multiset(rows)[x] else 0
  {
    if |rows| > 0 {
      RowsOfCounts(rows[1..], id);
      assert rows == [rows[0]] + rows[1..];
    }
  }

  /** The table after MonthBooking.objects.filter(booking=id).delete(). */
  function Without(rows: seq<MonthBooking>, id: int): (r: seq<MonthBooking>)
    ensures forall x :: x in r <==> x in rows && x.booking != id
  {
    if |rows| == 0 then []
    else (if rows[0].booking != id then [rows[0]] else []) + Without(rows[1..], id)
  }

  /** Every row of another booking is kept as many times as the table holds it, and no row of this one. */
  lemma {:induction false} WithoutCounts(rows: seq<MonthBooking>, id: int)
    ensures forall x :: multiset(Without(rows, id))[x] == if x.booking != id then multiset(rows)[x] else 0
  {
    if |rows| > 0 {
      WithoutCounts(rows[1..], id);
      assert rows == [rows[0]] + rows[1..];
    }
  }

  /** The whole table after the receiver ran for booking b. */
  function Updated(rows: seq<MonthBooking>, b: Booking): seq<MonthBooking>
    requires HasDates(b)
  {
    Without(rows, b.id) + Expand(b)
  }

  function SumDays(rows: seq<MonthBooking>): int {
    if |rows| == 0 then 0 else SumDays(rows[..|rows| - 1]) + rows[|rows| - 1].days
  }

  function SumVolume(rows: seq<MonthBooking>): real {
    if |rows| == 0 then 0.0 else SumVolume(rows[..|rows| - 1]) + rows[|rows| - 1].volume
  }

  /** The MonthBooking table, which the receiver rewrites in place. */
  class MonthBookingTable {
    var rows: seq<MonthBooking>

    constructor()
      ensures rows == []
    {
      rows := [];
    }

    /** update_month_booking(instance=b): delete the booking's rows, then
        save one new row per month from the start month to the finish month. */
    method UpdateMonthBooking(b: Booking)
      requires HasDates(b)
      modifies this
      ensures rows == Updated(old(rows), b)
    {
      DeleteBookingRows(b.id);
      SaveMonthRows(SpanOf(b), StartMonth(b), MonthCount(b));
    }

    /** MonthBooking.objects.filter(booking=id).delete() */
    method DeleteBookingRows(id: int)
      modifies this
      ensures rows == Without(old(rows), id)
    {
      rows := Without(rows, id);
    }

    /** The loop over the month generator: one saved row per month, each
        month's window running from its first day to its tail. */
    method SaveMonthRows(sp: Span, ms: Month, n: nat)
      requires ValidMonth(ms)
      modifies this
      ensures rows == old(rows) + SpanRows(sp, ms, n)
    {
      var month := ms;
      var first := sp.first;
      var k: nat := 0;
      AddMonthsZero(month);
      while k < n
        invariant k <= n
        invariant month == AddMonths(ms, k)
        invariant first == MonthsEnd(ms, sp.first, k) + 1
        invariant rows == old(rows) + SpanRows(sp, ms, n)[..k]
      {
        var tail := first + DaysInMonth(month.year, month.month) - 1;
        SpanRowsStep(sp, ms, n, k, month, first);
        rows := rows + [RowIn(sp, month, first, tail)];
        month := NextMonth(month);
        first := tail + 1;
        k := k + 1;
      }
      assert SpanRows(sp, ms, n)[..n] == SpanRows(sp, ms, n);
    }
  }

  /** One step of the receiver's loop: the row it saves for month k is row
      k of the expansion, and the next month starts the day after this one's tail. */
  lemma SpanRowsStep(sp: Span, ms: Month, n: nat, k: nat, month: Month, first: int)
    requires ValidMonth(ms) && k < n
    requires month == AddMonths(ms, k)
    requires first == MonthsEnd(ms, sp.first, k) + 1
    ensures SpanRows(sp, ms, n)[..k + 1] ==
      SpanRows(sp, ms, n)[..k] + [RowIn(sp, month, first, first + DaysInMonth(month.year, month.month) - 1)]
    ensures NextMonth(month) == AddMonths(ms, k + 1)
    ensures first + DaysInMonth(month.year, month.month) == MonthsEnd(ms, sp.first, k + 1) + 1
  {
    MonthsEndStep(ms, sp.first, k, month);
    AddMonthsStep(ms, k + 1);
    var rows := SpanRows(sp, ms, n);
    assert rows[..k + 1] == rows[..k] + [rows[k]];
  }

  /** The end of k months never lies before the day before their first day,
      and lies at or after the first month's tail when k >= 1. */
  lemma {:induction false} MonthsEndBound(m: Month, first: int, k: nat)
    requires ValidMonth(m)
    ensures MonthsEnd(m, first, k) >= first - 1
    ensures k >= 1 ==> MonthsEnd(m, first, k) >= first + DaysInMonth(m.year, m.month) - 1
    decreases k
  {
    if k >= 1 {
      MonthsEndBound(NextMonth(m), first + DaysInMonth(m.year, m.month), k - 1);
    }
  }

  /** The end of k + 1 months is the end of k months plus the length of
      the (k+1)-th month c. */
  lemma {:induction false} MonthsEndStep(m: Month, first: int, k: nat, c: Month)
    requires ValidMonth(m) && ValidMonth(c) && Index(c) == Index(m) + k
    ensures MonthsEnd(m, first, k + 1) == MonthsEnd(m, first, k) + DaysInMonth(c.year, c.month)
    decreases k
  {
    var n := NextMonth(m);
    var f := first + DaysInMonth(m.year, m.month);
    assert MonthsEnd(m, first, k + 1) == MonthsEnd(n, f, k);
    if k == 0 {
      IndexInjective(m, c);
      assert MonthsEnd(n, f, 0) == f - 1;
    } else {
      MonthsEndStep(n, f, k - 1, c);
      assert MonthsEnd(m, first, k) == MonthsEnd(n, f, k - 1);
    }
  }

  /** Counting from the first day of month m, k months end on the last day
      of the month c that is k - 1 months after m. */
  lemma {:induction false} MonthsEndIsLast(m: Month, c: Month, k: nat)
    requires ValidMonth(m) && ValidMonth(c) && k >= 1 && Index(c) == Index(m) + k - 1
    ensures MonthsEnd(m, First(m), k) == Last(c)
    decreases k
  {
    var n := NextMonth(m);
    NextMonthFirst(m);
    assert MonthsEnd(m, First(m), k) == MonthsEnd(n, First(n), k - 1);
    if k == 1 {
      IndexInjective(m, c);
      assert MonthsEnd(n, First(n), 0) == First(n) - 1;
    } else {
      MonthsEndIsLast(n, c, k - 1);
    }
  }

  /** Later month ends are later. */
  lemma {:induction false} MonthsEndMonotone(m: Month, first: int, j: nat, k: nat)
    requires ValidMonth(m) && j <= k
    ensures MonthsEnd(m, first, j) <= MonthsEnd(m, first, k)
    decreases j
  {
    if j == 0 {
      MonthsEndBound(m, first, k);
      assert MonthsEnd(m, first, 0) == first - 1;
    } else {
      MonthsEndMonotone(NextMonth(m), first + DaysInMonth(m.year, m.month), j - 1, k - 1);
    }
  }

  /** Counting month lengths from the first day of month m, the month c
      that is i months after m starts the day after the first i months end
      and ends where the first i + 1 months end. */
  lemma MonthWindow(m: Month, c: Month, i: nat)
    requires ValidMonth(m) && ValidMonth(c) && Index(c) == Index(m) + i
    ensures MonthsEnd(m, First(m), i) + 1 == First(c)
    ensures MonthsEnd(m, First(m), i + 1) == Last(c)
  {
    MonthsEndIsLast(m, c, i + 1);
    MonthsEndStep(m, First(m), i, c);
  }

  /** The ordinals the receiver reads of a booking: its start lies in its
      start month, whose first day is the span's first, and its finish in
      the month MonthCount - 1 months later. */
  lemma SpanOfBooking(b: Booking)
    requires ValidBooking(b)
    ensures SpanOf(b).first == First(StartMonth(b))
    ensures First(StartMonth(b)) <= SpanOf(b).start <= Last(StartMonth(b))
    ensures SpanOf(b).finish <= Last(AddMonths(StartMonth(b), MonthCount(b) - 1))
  {
    DateInMonth(b.start);
    FinishInLastMonth(b);
  }

  /** The finish date lies in the last month of the expansion. */
  lemma FinishInLastMonth(b: Booking)
    requires ValidBooking(b)
    ensures Ordinal(b.finish) <= Last(AddMonths(StartMonth(b), MonthCount(b) - 1))
  {
    DateInMonth(b.finish);
    MonthsFromTo(StartMonth(b), MonthOf(b.finish), MonthCount(b));
  }

  /** k months counted from month a end with month c when c is k - 1 months after a. */
  lemma MonthsFromTo(a: Month, c: Month, k: nat)
    requires ValidMonth(a) && ValidMonth(c) && k >= 1 && k == Index(c) - Index(a) + 1
    ensures AddMonths(a, k - 1) == c
  {
    IndexInjective(AddMonths(a, k - 1), c);
  }

  /** Row i of the expansion covers exactly its calendar month's window of the booking. */
  lemma ExpandRowIsRow(b: Booking, i: nat)
    requires ValidBooking(b) && i < MonthCount(b)
    ensures Expand(b)[i] == Row(b, AddMonths(StartMonth(b), i))
  {
    SpanFirst(b);
    SpanRowIsWindow(SpanOf(b), StartMonth(b), i);
  }

  /** Row i of a span starting in month ms covers calendar month i after ms, whole. */
  lemma SpanRowIsWindow(sp: Span, ms: Month, i: nat)
    requires ValidMonth(ms) && sp.first == First(ms)
    ensures SpanRow(sp, ms, i) == RowIn(sp, AddMonths(ms, i), First(AddMonths(ms, i)), Last(AddMonths(ms, i)))
  {
    MonthWindow(ms, AddMonths(ms, i), i);
  }

  /** The span's first day is the first day of the start month. */
  lemma SpanFirst(b: Booking)
    requires ValidBooking(b)
    ensures ValidMonth(StartMonth(b))
    ensures SpanOf(b).first == First(StartMonth(b))
  {
    DateInMonth(b.start);
  }

  /** One row per month from start_date.replace(day=1) to finish_date.replace(day=1),
      ascending, all of them the booking's. */
  lemma ExpandMonths(b: Booking)
    requires ValidBooking(b)
    ensures |Expand(b)| == Index(MonthOf(b.finish)) - Index(MonthOf(b.start)) + 1
    ensures Expand(b)[0].month == MonthOf(b.start)
    ensures Expand(b)[|Expand(b)| - 1].month == MonthOf(b.finish)
    ensures forall i :: 0 <= i < |Expand(b)| ==>
      Expand(b)[i].booking == b.id && Index(Expand(b)[i].month) == Index(MonthOf(b.start)) + i
  {
    AddMonthsZero(StartMonth(b));
    MonthsFromTo(StartMonth(b), MonthOf(b.finish), MonthCount(b));
  }

  /** The working days of the first k rows of a span that starts in month
      ms are those of the span up to the end of the k-th month (or its
      finish, if earlier). */
  lemma {:induction false} SpanPrefixDays(sp: Span, ms: Month, n: nat, k: nat)
    requires ValidMonth(ms) && 1 <= k <= n
    requires sp.first <= sp.start <= sp.first + DaysInMonth(ms.year, ms.month) - 1
    ensures SumDays(SpanRows(sp, ms, n)[..k]) == Workdays(sp.start, Min(sp.finish, MonthsEnd(ms, sp.first, k)))
  {
    var s := sp.start;
    var f := sp.finish;
    var e0 := MonthsEnd(ms, sp.first, k - 1);
    var e := MonthsEnd(ms, sp.first, k);
    var all := SpanRows(sp, ms, n);
    var rows := all[..k];
    assert rows[..k - 1] == all[..k - 1];
    assert rows[k - 1] == SpanRow(sp, ms, k - 1);
    assert SumDays(rows) == SumDays(all[..k - 1]) + Workdays(Max(s, e0 + 1), Min(f, e));
    MonthsEndMonotone(ms, sp.first, k - 1, k);
    if k == 1 {
      assert all[..0] == [];
      assert e0 == sp.first - 1;
    } else {
      SpanPrefixDays(sp, ms, n, k - 1);
      MonthsEndMonotone(ms, sp.first, 1, k - 1);
      MonthsEndBound(ms, sp.first, 1);
      JoinWindows(s, f, e0, e);
    }
  }

  /** The days of a span up to e0, plus those of the next window up to e,
      are the days of the span up to e. */
  lemma JoinWindows(s: int, f: int, e0: int, e: int)
    requires s <= e0 <= e
    ensures Workdays(s, Min(f, e0)) + Workdays(Max(s, e0 + 1), Min(f, e)) == Workdays(s, Min(f, e))
  {
    if f > e0 {
      PlanDays.WorkdaysSplit(s, e0, Min(f, e), PlanDays.DefaultWeekend);
    }
  }


  /** Conservation of days: the month rows' days add up to the booking's working days. */
  lemma ExpandDays(b: Booking)
    requires ValidBooking(b)
    ensures SumDays(Expand(b)) == BookingWorkdays(b)
  {
    var n := MonthCount(b);
    var ms := StartMonth(b);
    var sp := SpanOf(b);
    SpanOfBooking(b);
    SpanPrefixDays(sp, ms, n, n);
    assert Expand(b)[..n] == Expand(b);
    MonthsEndIsLast(ms, AddMonths(ms, n - 1), n);
    assert Min(sp.finish, MonthsEnd(ms, sp.first, n)) == sp.finish;
  }

  /** Rows whose volume is volume(days, load) for one load have, together,
      the volume of their total days. */
  lemma {:induction false} SumVolumeOfDays(rows: seq<MonthBooking>, load: real)
    requires forall i :: 0 <= i < |rows| ==> rows[i].volume == PlanDays.Volume(rows[i].days, load)
    ensures SumVolume(rows) == PlanDays.Volume(SumDays(rows), load)
  {
    if |rows| > 0 {
      var p := rows[..|rows| - 1];
      assert forall i :: 0 <= i < |p| ==> p[i] == rows[i];
      SumVolumeOfDays(p, load);
      PlanDays.VolumeAdditive(SumDays(p), rows[|rows| - 1].days, load);
    }
  }

  /** Conservation of volume: the month volumes add up to the booking's
      volume, the same amount ProjectMember's volume counts for it. */
  lemma ExpandVolume(b: Booking)
    requires ValidBooking(b)
    ensures SumVolume(Expand(b)) == BookingVolume(b)
  {
    SumVolumeOfDays(Expand(b), b.load);
    ExpandDays(b);
  }

  /** Every row is its month's window of the booking, and every month load
      lies between 0 and the booking load, for a load the field validators accept. */
  lemma ExpandLoads(b: Booking)
    requires ValidBooking(b) && 0.0 <= b.load <= 100.0
    ensures forall i :: 0 <= i < |Expand(b)| ==> Expand(b)[i] == Row(b, AddMonths(StartMonth(b), i))
    ensures forall i :: 0 <= i < |Expand(b)| ==> 0.0 <= Expand(b)[i].load <= b.load
  {
    forall i | 0 <= i < |Expand(b)|
      ensures Expand(b)[i] == Row(b, AddMonths(StartMonth(b), i))
      ensures 0.0 <= Expand(b)[i].load <= b.load
    {
      ExpandRowIsRow(b, i);
      RowBounds(b, AddMonths(StartMonth(b), i));
    }
  }

  /** Every row of the expansion belongs to the booking. */
  lemma ExpandBookings(b: Booking)
    requires HasDates(b)
    ensures forall i :: 0 <= i < |Expand(b)| ==> Expand(b)[i].booking == b.id
  {
  }

  /** A booking that finishes before it starts gets no row when the finish
      month comes first, and otherwise a single row for the shared month
      with no working days and no volume. */
  lemma ExpandReversed(b: Booking)
    requires HasDates(b) && !DateLe(b.start, b.finish)
    ensures |Expand(b)| == if MonthOf(b.finish) == MonthOf(b.start) then 1 else 0
    ensures forall i :: 0 <= i < |Expand(b)| ==> Expand(b)[i].days == 0 && Expand(b)[i].volume == 0.0
  {
    ReversedMonths(b);
    DateLeIsOrdinalLe(b.start, b.finish);
    if |Expand(b)| == 1 {
      assert Expand(b)[0] == SpanRow(SpanOf(b), StartMonth(b), 0);
      ReversedRow(SpanOf(b), StartMonth(b));
    }
  }

  /** The finish month of a reversed booking is its start month or an earlier one. */
  lemma ReversedMonths(b: Booking)
    requires HasDates(b) && !DateLe(b.start, b.finish)
    ensures Index(MonthOf(b.finish)) <= Index(MonthOf(b.start))
    ensures MonthOf(b.finish) == MonthOf(b.start) <==> Index(MonthOf(b.finish)) == Index(MonthOf(b.start))
  {
    DateLeIsOrdinalLe(b.start, b.finish);
    DateInMonth(b.start);
    DateInMonth(b.finish);
    if Index(MonthOf(b.start)) < Index(MonthOf(b.finish)) {
      MonthOrder(MonthOf(b.start), MonthOf(b.finish));
      assert false;
    }
    if Index(MonthOf(b.start)) == Index(MonthOf(b.finish)) {
      IndexInjective(MonthOf(b.start), MonthOf(b.finish));
    }
  }

  /** The first row of a span that finishes before it starts has no working days. */
  lemma ReversedRow(sp: Span, ms: Month)
    requires ValidMonth(ms) && sp.finish < sp.start
    ensures SpanRow(sp, ms, 0).days == 0 && SpanRow(sp, ms, 0).volume == 0.0
  {
    RowInEmpty(sp, AddMonths(ms, 0), MonthsEnd(ms, sp.first, 0) + 1, MonthsEnd(ms, sp.first, 1));
  }

  /** A window that ends before the span starts holds no working days and no volume. */
  lemma RowInEmpty(sp: Span, m: Month, first: int, tail: int)
    requires sp.finish < sp.start
    ensures RowIn(sp, m, first, tail).days == 0 && RowIn(sp, m, first, tail).volume == 0.0
  {
    assert Max(sp.start, first) > Min(sp.finish, tail);
  }


  lemma {:induction false} RowsOfConcat(a: seq<MonthBooking>, c: seq<MonthBooking>, id: int)
    ensures RowsOf(a + c, id) == RowsOf(a, id) + RowsOf(c, id)
  {
    if |a| > 0 {
      assert (a + c)[0] == a[0] && (a + c)[1..] == a[1..] + c;
      RowsOfConcat(a[1..], c, id);
      var head := if a[0].booking == id then [a[0]] else [];
      var rest, tail := RowsOf(a[1..], id), RowsOf(c, id);
      assert RowsOf(a + c, id) == head + (rest + tail);
      assert RowsOf(a, id) == head + rest;
      assert head + (rest + tail) == (head + rest) + tail;
    } else {
      assert a + c == c;
    }
  }

  lemma {:induction false} WithoutConcat(a: seq<MonthBooking>, c: seq<MonthBooking>, id: int)
    ensures Without(a + c, id) == Without(a, id) + Without(c, id)
  {
    if |a| > 0 {
      assert (a + c)[0] == a[0] && (a + c)[1..] == a[1..] + c;
      WithoutConcat(a[1..], c, id);
      var head := if a[0].booking != id then [a[0]] else [];
      var rest, tail := Without(a[1..], id), Without(c, id);
      assert Without(a + c, id) == head + (rest + tail);
      assert Without(a, id) == head + rest;
      assert head + (rest + tail) == (head + rest) + tail;
    } else {
      assert a + c == c;
    }
  }

  /** Deleting one booking's rows leaves every other booking's rows, in order. */
  lemma {:induction false} WithoutKeepsOthers(rows: seq<MonthBooking>, id: int, j: int)
    ensures RowsOf(Without(rows, id), j) == if j == id then [] else RowsOf(rows, j)
  {
    if |rows| > 0 {
      WithoutKeepsOthers(rows[1..], id, j);
      var head := if rows[0].booking != id then [rows[0]] else [];
      RowsOfConcat(head, Without(rows[1..], id), j);
      if rows[0].booking != id {
        assert [rows[0]][1..] == [];
      }
    }
  }

  /** Rows that all belong to one booking. */
  lemma {:induction false} RowsOfUniform(rows: seq<MonthBooking>, id: int, j: int)
    requires forall i :: 0 <= i < |rows| ==> rows[i].booking == id
    ensures RowsOf(rows, j) == if j == id then rows else []
    ensures Without(rows, id) == []
  {
    if |rows| > 0 {
      RowsOfUniform(rows[1..], id, j);
      assert rows == [rows[0]] + rows[1..];
    }
  }

  /** After the receiver, the booking's own rows are exactly its expansion
      and every other booking keeps exactly the rows it had. */
  lemma UpdatedRows(rows: seq<MonthBooking>, b: Booking, j: int)
    requires HasDates(b)
    ensures RowsOf(Updated(rows, b), j) == if j == b.id then Expand(b) else RowsOf(rows, j)
  {
    ExpandBookings(b);
    RowsOfConcat(Without(rows, b.id), Expand(b), j);
    WithoutKeepsOthers(rows, b.id, j);
    RowsOfUniform(Expand(b), b.id, j);
  }

  /** Deleting the booking's rows after the receiver ran gives the table
      as the receiver's own delete left it. */
  lemma WithoutUpdated(rows: seq<MonthBooking>, b: Booking)
    requires HasDates(b)
    ensures Without(Updated(rows, b), b.id) == Without(rows, b.id)
  {
    ExpandBookings(b);
    RowsOfUniform(Expand(b), b.id, b.id);
    WithoutConcat(Without(rows, b.id), Expand(b), b.id);
    WithoutTwice(rows, b.id);
  }

  /** Running the receiver again on an unchanged booking changes nothing. */
  lemma UpdateIdempotent(rows: seq<MonthBooking>, b: Booking)
    requires HasDates(b)
    ensures Updated(Updated(rows, b), b) == Updated(rows, b)
  {
    WithoutUpdated(rows, b);
  }

  lemma {:induction false} WithoutTwice(rows: seq<MonthBooking>, id: int)
    ensures Without(Without(rows, id), id) == Without(rows, id)
  {
    if |rows| > 0 {
      WithoutTwice(rows[1..], id);
      var head := if rows[0].booking != id then [rows[0]] else [];
      WithoutConcat(head, Without(rows[1..], id), id);
      if rows[0].booking != id {
        assert [rows[0]][1..] == [];
      }
    }
  }
}
