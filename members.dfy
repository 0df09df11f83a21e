/** The plan summaries of a ProjectMember (pplan/models.py): the first
    start date, the last finish date and the volume of its PLAN bookings,
    and the average load over that window. */
module Members {
  import opened Dates
  import opened Results
  import opened MonthBookings
  import PlanDays

  /** A booking of member that is in the PLAN state. */
  predicate IsPlan(b: Booking, member: int) {
    b.member == member && b.state == Plan
  }

  predicate HasPlan(bs: seq<Booking>, member: int) {
    exists i :: 0 <= i < |bs| && IsPlan(bs[i], member)
  }

  /** Every booking carries real dates. */
  predicate Dated(bs: seq<Booking>) {
    forall i :: 0 <= i < |bs| ==> ValidDate(bs[i].start) && ValidDate(bs[i].finish)
  }

  /** Every booking is one the receiver can expand: real dates, start no later than finish. */
  predicate Expandable(bs: seq<Booking>) {
    Dated(bs) && forall i :: 0 <= i < |bs| ==> ValidBooking(bs[i])
  }

  /** _start_date_for_state(PLAN): the earliest start date of the member's
      plan bookings, or None when there are none. */
  function StartDate(bs: seq<Booking>, member: int): Option<Date> {
    if |bs| == 0 then None
    else
      var b := bs[|bs| - 1];
      var rest := StartDate(bs[..|bs| - 1], member);
      if IsPlan(b, member) && (rest.None? || !DateLe(rest.value, b.start)) then Some(b.start) else rest
  }

  /** _finish_date_for_state(PLAN): the latest finish date of the member's
      plan bookings, or None when there are none. */
  function FinishDate(bs: seq<Booking>, member: int): Option<Date> {
    if |bs| == 0 then None
    else
      var b := bs[|bs| - 1];
      var rest := FinishDate(bs[..|bs| - 1], member);
      if IsPlan(b, member) && (rest.None? || !DateLe(b.finish, rest.value)) then Some(b.finish) else rest
  }

  /** _volume_for_state(PLAN): the person-days of the member's plan bookings added up. */
  function MemberVolume(bs: seq<Booking>, member: int): real
    requires Dated(bs)
  {
    if |bs| == 0 then 0.0
    else
      var b := bs[|bs| - 1];
      var rest := MemberVolume(bs[..|bs| - 1], member);
      if IsPlan(b, member) then rest + BookingVolume(b) else rest
  }

  /** The exception percent lets through. */
  datatype Fault = ZeroDivision

  /** ProjectMember.percent: volume / workdays(start, finish) * 100.  With no
      plan bookings the dates are None and the TypeError gives 0; a window
      without a working day raises ZeroDivisionError, which is not caught. */
  function Percent(bs: seq<Booking>, member: int): Result<real, Fault>
    requires Dated(bs)
  {
    var s := StartDate(bs, member);
    var f := FinishDate(bs, member);
    if s.None? || f.None? then Success(0.0)
    else
      WindowDated(bs, member);
      var w := Workdays(Ordinal(s.value), Ordinal(f.value));
      if w == 0 then Failure(ZeroDivision) else Success(MemberVolume(bs, member) / w as real * 100.0)
  }

  // ---------------------------------------------------------------------------

  /** The window's dates are dates of bookings, so they are real dates. */
  lemma WindowDated(bs: seq<Booking>, member: int)
    requires Dated(bs)
    ensures StartDate(bs, member).Some? ==> ValidDate(StartDate(bs, member).value)
    ensures FinishDate(bs, member).Some? ==> ValidDate(FinishDate(bs, member).value)
  {
    StartDateSpec(bs, member);
    FinishDateSpec(bs, member);
  }

  /** The start date exists iff the member has a plan booking; it is the
      start of one of them and no plan booking starts earlier. */
  lemma {:induction false} StartDateSpec(bs: seq<Booking>, member: int)
    ensures StartDate(bs, member).Some? <==> HasPlan(bs, member)
    ensures StartDate(bs, member).Some? ==>
      (exists i :: 0 <= i < |bs| && IsPlan(bs[i], member) && bs[i].start == StartDate(bs, member).value) &&
      forall i :: 0 <= i < |bs| && IsPlan(bs[i], member) ==> DateLe(StartDate(bs, member).value, bs[i].start)
  {
    if |bs| > 0 {
      var p := bs[..|bs| - 1];
      StartDateSpec(p, member);
      assert forall i :: 0 <= i < |p| ==> p[i] == bs[i];
      if HasPlan(p, member) {
        var i :| 0 <= i < |p| && IsPlan(p[i], member);
        assert IsPlan(bs[i], member);
      }
      var r := StartDate(bs, member);
      if r.Some? && r == StartDate(p, member) {
        var i :| 0 <= i < |p| && IsPlan(p[i], member) && p[i].start == r.value;
        assert bs[i].start == r.value;
      }
    }
  }

  /** The finish date exists iff the member has a plan booking; it is the
      finish of one of them and no plan booking finishes later. */
  lemma {:induction false} FinishDateSpec(bs: seq<Booking>, member: int)
    ensures FinishDate(bs, member).Some? <==> HasPlan(bs, member)
    ensures FinishDate(bs, member).Some? ==>
      (exists i :: 0 <= i < |bs| && IsPlan(bs[i], member) && bs[i].finish == FinishDate(bs, member).value) &&
      forall i :: 0 <= i < |bs| && IsPlan(bs[i], member) ==> DateLe(bs[i].finish, FinishDate(bs, member).value)
  {
    if |bs| > 0 {
      var p := bs[..|bs| - 1];
      FinishDateSpec(p, member);
      assert forall i :: 0 <= i < |p| ==> p[i] == bs[i];
      if HasPlan(p, member) {
        var i :| 0 <= i < |p| && IsPlan(p[i], member);
        assert IsPlan(bs[i], member);
      }
      var r := FinishDate(bs, member);
      if r.Some? && r == FinishDate(p, member) {
        var i :| 0 <= i < |p| && IsPlan(p[i], member) && p[i].finish == r.value;
        assert bs[i].finish == r.value;
      }
    }
  }

  /** When every plan booking starts no later than it finishes, the
      member's window does too. */
  lemma WindowOrdered(bs: seq<Booking>, member: int)
    requires forall i :: 0 <= i < |bs| && IsPlan(bs[i], member) ==> DateLe(bs[i].start, bs[i].finish)
    requires HasPlan(bs, member)
    ensures StartDate(bs, member).Some? && FinishDate(bs, member).Some?
    ensures DateLe(StartDate(bs, member).value, FinishDate(bs, member).value)
  {
    StartDateSpec(bs, member);
    FinishDateSpec(bs, member);
    var i :| 0 <= i < |bs| && IsPlan(bs[i], member);
    assert DateLe(StartDate(bs, member).value, bs[i].start);
    assert DateLe(bs[i].finish, FinishDate(bs, member).value);
  }

  /** The month rows the receiver keeps for the member's plan bookings. */
  function MemberRows(bs: seq<Booking>, member: int): seq<MonthBooking>
    requires Expandable(bs)
  {
    if |bs| == 0 then []
    else
      var b := bs[|bs| - 1];
      var rest := MemberRows(bs[..|bs| - 1], member);
      if IsPlan(b, member) then rest + Expand(b) else rest
  }

  lemma {:induction false} SumVolumeConcat(a: seq<MonthBooking>, b: seq<MonthBooking>)
    ensures SumVolume(a + b) == SumVolume(a) + SumVolume(b)
  {
    if |b| == 0 {
      assert a + b == a;
    } else {
      var c := a + b;
      assert c[..|c| - 1] == a + b[..|b| - 1];
      assert c[|c| - 1] == b[|b| - 1];
      SumVolumeConcat(a, b[..|b| - 1]);
    }
  }

  /** The member's volume is the volume of its month rows: each plan
      booking's person-days are spread over its months without loss. */
  lemma {:induction false} MemberVolumeIsMonthVolume(bs: seq<Booking>, member: int)
    requires Expandable(bs)
    ensures MemberVolume(bs, member) == SumVolume(MemberRows(bs, member))
  {
    if |bs| > 0 {
      var p := bs[..|bs| - 1];
      var b := bs[|bs| - 1];
      MemberVolumeIsMonthVolume(p, member);
      if IsPlan(b, member) {
        SumVolumeConcat(MemberRows(p, member), Expand(b));
        ExpandVolume(b);
      }
    }
  }

  /** percent without plan bookings is 0. */
  lemma PercentWithoutPlan(bs: seq<Booking>, member: int)
    requires Dated(bs) && !HasPlan(bs, member)
    ensures Percent(bs, member) == Success(0.0)
  {
    WindowExists(bs, member);
  }

  /** With plan bookings, percent fails exactly when the window from the
      first start to the last finish has no working day, and otherwise it
      is the volume per working day of the window, in percent. */
  lemma PercentWithPlan(bs: seq<Booking>, member: int)
    requires Dated(bs) && HasPlan(bs, member)
    ensures StartDate(bs, member).Some? && FinishDate(bs, member).Some?
    ensures ValidDate(StartDate(bs, member).value) && ValidDate(FinishDate(bs, member).value)
    ensures var w := Workdays(Ordinal(StartDate(bs, member).value), Ordinal(FinishDate(bs, member).value));
      (Percent(bs, member).Failure? <==> w == 0) &&
      (w > 0 ==> Percent(bs, member) == Success(MemberVolume(bs, member) / w as real * 100.0))
  {
    WindowDated(bs, member);
    WindowExists(bs, member);
    PercentOfWindow(bs, member, StartDate(bs, member).value, FinishDate(bs, member).value);
  }

  /** With the window [s, f], percent divides by the working days of the window. */
  lemma PercentOfWindow(bs: seq<Booking>, member: int, s: Date, f: Date)
    requires Dated(bs) && ValidDate(s) && ValidDate(f)
    requires StartDate(bs, member) == Some(s) && FinishDate(bs, member) == Some(f)
    ensures var w := Workdays(Ordinal(s), Ordinal(f));
      Percent(bs, member) == if w == 0 then Failure(ZeroDivision) else Success(MemberVolume(bs, member) / w as real * 100.0)
  {
  }

  /** Both ends of the window exist exactly when there is a plan booking. */
  lemma WindowExists(bs: seq<Booking>, member: int)
    ensures StartDate(bs, member).Some? <==> HasPlan(bs, member)
    ensures FinishDate(bs, member).Some? <==> HasPlan(bs, member)
  {
    StartDateSpec(bs, member);
    FinishDateSpec(bs, member);
  }

  /** A volume spread back over its own working days gives its load. */
  lemma VolumeShare(w: nat, load: real)
    requires w > 0
    ensures PlanDays.Volume(w, load) / w as real * 100.0 == load
  {
    var x := w as real;
    assert x > 0.0;
    assert PlanDays.Volume(w, load) == x * load / 100.0;
    assert (x * load / 100.0) / x * 100.0 == load;
  }

  /** A member with a single plan booking that has working days is loaded
      at exactly that booking's load. */
  lemma PercentOfSingleBooking(b: Booking)
    requires ValidBooking(b) && b.state == Plan
    requires BookingWorkdays(b) > 0
    ensures Percent([b], b.member) == Success(b.load)
  {
    var bs := [b];
    assert bs[..0] == [];
    assert StartDate(bs, b.member) == Some(b.start);
    assert FinishDate(bs, b.member) == Some(b.finish);
    var v := MemberVolume(bs, b.member);
    assert MemberVolume(bs[..0], b.member) == 0.0;
    assert v == BookingVolume(b);
    assert Percent(bs, b.member) == Success(v / BookingWorkdays(b) as real * 100.0);
    VolumeShare(BookingWorkdays(b), b.load);
  }
}
