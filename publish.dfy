/** Publishing named holidays into the calendar (workdays/admin.py,
    HolidayNameAdmin): every selected name marks `count` consecutive dates from
    its (month, day) of the chosen year as holidays, inserting a SpecialDay or
    overwriting the one already there, all or nothing. */
module HolidayPublishing {
  import opened Dates
  import opened Results
  import opened WorkCalendar

  /** The table entry of date d, if any. */
  function Lookup(cal: Calendar, d: int): Option<SpecialDay> {
    if d in cal then Some(cal[d]) else None
  }

  /** The comment an existing row keeps; a new row has none. */
  function CommentOf(cal: Calendar, d: int): Option<string> {
    if d in cal then cal[d].comment else None
  }

  /** A name can be published in the year unless one of its dates cannot be
      built: date(year, month, day) is only constructed when count > 0. */
  predicate Publishable(h: HolidayName, year: int) {
    h.count <= 0 || ValidDate(Date(year, h.month, h.day))
  }

  predicate AllPublishable(names: seq<HolidayName>, year: int) {
    forall i :: 0 <= i < |names| ==> Publishable(names[i], year)
  }

  /** The ordinal of the first day a name publishes. */
  function Base(h: HolidayName, year: int): int
    requires ValidDate(Date(year, h.month, h.day))
  {
    Ordinal(Date(year, h.month, h.day))
  }

  /** The name marks date d in the year: d is one of its count days. */
  predicate Covers(h: HolidayName, year: int, d: int) {
    h.count > 0 && ValidDate(Date(year, h.month, h.day)) && Base(h, year) <= d < Base(h, year) + h.count
  }

  /** SpecialDay.objects.update_or_create(date=d, defaults={daytype: HOLIDAY, dayname: h}). */
  function Upsert(cal: Calendar, d: int, h: HolidayName): (r: Calendar)
    ensures r.Keys == cal.Keys + {d}
    ensures Lookup(r, d) == Some(SpecialDay(Holiday, Some(h), CommentOf(cal, d)))
    ensures forall e :: e != d ==> Lookup(r, e) == Lookup(cal, e)
  {
    cal[d := SpecialDay(Holiday, Some(h), CommentOf(cal, d))]
  }

  /** The first n days of the name upserted in order. */
  function PublishDays(cal: Calendar, h: HolidayName, year: int, n: int): Calendar
    requires n > 0 ==> ValidDate(Date(year, h.month, h.day))
    decreases n
  {
    if n <= 0 then cal else Upsert(PublishDays(cal, h, year, n - 1), Base(h, year) + n - 1, h)
  }

  /** All count days of one name. */
  function PublishName(cal: Calendar, h: HolidayName, year: int): Calendar
    requires Publishable(h, year)
  {
    PublishDays(cal, h, year, h.count)
  }

  /** The names published one after the other, in queryset order. */
  function Publish(cal: Calendar, names: seq<HolidayName>, year: int): Calendar
    requires AllPublishable(names, year)
    decreases |names|
  {
    if |names| == 0 then cal
    else
      var p := names[..|names| - 1];
      assert AllPublishable(p, year) by {
        forall i | 0 <= i < |p| ensures Publishable(p[i], year) {
          assert p[i] == names[i];
        }
      }
      PublishName(Publish(cal, p, year), names[|names| - 1], year)
  }

  /** The last name of the sequence that covers d, if any: the one whose write lands last. */
  function LastCover(names: seq<HolidayName>, year: int, d: int): Option<HolidayName>
    decreases |names|
  {
    if |names| == 0 then None
    else if Covers(names[|names| - 1], year, d) then Some(names[|names| - 1])
    else LastCover(names[..|names| - 1], year, d)
  }

  /** What publishing makes of date d: a holiday named by the last covering
      name, keeping the existing row's comment, or the entry d had before. */
  function PublishedEntry(cal: Calendar, names: seq<HolidayName>, year: int, d: int): Option<SpecialDay> {
    match LastCover(names, year, d)
    case Some(h) => Some(SpecialDay(Holiday, Some(h), CommentOf(cal, d)))
    case None => Lookup(cal, d)
  }

  /** The rows of the SpecialDay table, updated in place by the admin actions. */
  class SpecialDayTable {
    var days: Calendar

    constructor()
      ensures days == map[]
    {
      days := map[];
    }

    /** The inner loop of make_published_year for one name: update_or_create
        for each of its count dates; false when its first date cannot be built,
        in which case nothing has been written yet. */
    method PublishOne(h: HolidayName, year: int) returns (ok: bool)
      modifies this
      ensures ok <==> Publishable(h, year)
      ensures ok ==> days == PublishName(old(days), h, year)
      ensures !ok ==> days == old(days)
    {
      var n := 0;
      while n < h.count
        invariant 0 <= n <= if h.count > 0 then h.count else 0
        invariant n > 0 ==> ValidDate(Date(year, h.month, h.day))
        invariant days == PublishDays(old(days), h, year, n)
      {
        if !ValidDate(Date(year, h.month, h.day)) {
          return false;
        }
        days := Upsert(days, Ordinal(Date(year, h.month, h.day)) + n, h);
        n := n + 1;
      }
      return true;
    }

    /** make_published_year: the names published in order inside one
        transaction; a date that cannot be built raises ValueError and the
        transaction leaves the table as it was. */
    method MakePublishedYear(names: seq<HolidayName>, year: int) returns (r: Result<(), CalendarError>)
      modifies this
      ensures r.Success? <==> AllPublishable(names, year)
      ensures r.Success? ==> days == Publish(old(days), names, year)
      ensures r.Failure? ==> r.error == ValueError && days == old(days)
    {
      var snapshot := days;
      var i := 0;
      while i < |names|
        invariant 0 <= i <= |names|
        invariant AllPublishable(names[..i], year)
        invariant days == Publish(snapshot, names[..i], year)
      {
        var ok := PublishOne(names[i], year);
        if !ok {
          days := snapshot;
          return Failure(ValueError);
        }
        PrefixStep(snapshot, names, year, i);
        i := i + 1;
      }
      assert names[..|names|] == names;
      return Success(());
    }

    /** make_published: the current year of the given date. */
    method MakePublished(names: seq<HolidayName>, now: Date) returns (r: Result<(), CalendarError>)
      modifies this
      ensures r.Success? <==> AllPublishable(names, now.year)
      ensures r.Success? ==> days == Publish(old(days), names, now.year)
      ensures r.Failure? ==> days == old(days)
    {
      r := MakePublishedYear(names, now.year);
    }

    /** make_published_next: the year after the current one. */
    method MakePublishedNext(names: seq<HolidayName>, now: Date) returns (r: Result<(), CalendarError>)
      modifies this
      ensures r.Success? <==> AllPublishable(names, now.year + 1)
      ensures r.Success? ==> days == Publish(old(days), names, now.year + 1)
      ensures r.Failure? ==> days == old(days)
    {
      r := MakePublishedYear(names, now.year + 1);
    }
  }

  /** Publishing one more name of the sequence extends the published prefix. */
  lemma PrefixStep(cal: Calendar, names: seq<HolidayName>, year: int, i: int)
    requires 0 <= i < |names|
    requires AllPublishable(names[..i], year) && Publishable(names[i], year)
    ensures AllPublishable(names[..i + 1], year)
    ensures Publish(cal, names[..i + 1], year) == PublishName(Publish(cal, names[..i], year), names[i], year)
  {
    var s := names[..i + 1];
    assert s[..i] == names[..i] && s[i] == names[i];
    forall j | 0 <= j < |s| ensures Publishable(s[j], year) {
      if j < i {
        assert s[j] == names[..i][j];
      }
    }
  }

  /** The days of one name become holidays of that name; every other date keeps its entry. */
  lemma {:induction false} PublishDaysAt(cal: Calendar, h: HolidayName, year: int, n: int, d: int)
    requires n > 0 ==> ValidDate(Date(year, h.month, h.day))
    requires n <= h.count || n <= 0
    ensures Lookup(PublishDays(cal, h, year, n), d) ==
      if n > 0 && Base(h, year) <= d < Base(h, year) + n
      then Some(SpecialDay(Holiday, Some(h), CommentOf(cal, d)))
      else Lookup(cal, d)
    decreases n
  {
    if n > 0 {
      PublishDaysAt(cal, h, year, n - 1, d);
      var prev := PublishDays(cal, h, year, n - 1);
      if d == Base(h, year) + n - 1 {
        assert CommentOf(prev, d) == CommentOf(cal, d);
      }
    }
  }

  /** PublishName as a whole: exactly the covered dates change. */
  lemma PublishNameAt(cal: Calendar, h: HolidayName, year: int, d: int)
    requires Publishable(h, year)
    ensures Lookup(PublishName(cal, h, year), d) ==
      if Covers(h, year, d) then Some(SpecialDay(Holiday, Some(h), CommentOf(cal, d))) else Lookup(cal, d)
  {
    PublishDaysAt(cal, h, year, h.count, d);
  }

  /** Publishing agrees with the reference description date by date: a covered
      date holds a holiday named by the last name covering it, whatever its
      previous type; any other date keeps its entry (or its absence). */
  lemma {:induction false} PublishAt(cal: Calendar, names: seq<HolidayName>, year: int, d: int)
    requires AllPublishable(names, year)
    ensures Lookup(Publish(cal, names, year), d) == PublishedEntry(cal, names, year, d)
    decreases |names|
  {
    if |names| > 0 {
      var p := names[..|names| - 1];
      var h := names[|names| - 1];
      assert AllPublishable(p, year) by {
        forall i | 0 <= i < |p| ensures Publishable(p[i], year) {
          assert p[i] == names[i];
        }
      }
      assert Publishable(h, year);
      PublishAt(cal, p, year, d);
      var mid := Publish(cal, p, year);
      PublishNameAt(mid, h, year, d);
      assert CommentOf(mid, d) == CommentOf(cal, d);
    }
  }

  /** The reference picks the latest covering name; no covering name at all means None. */
  lemma {:induction false} LastCoverIsLatest(names: seq<HolidayName>, year: int, d: int, i: int)
    requires 0 <= i < |names| && Covers(names[i], year, d)
    requires forall j :: i < j < |names| ==> !Covers(names[j], year, d)
    ensures LastCover(names, year, d) == Some(names[i])
    decreases |names|
  {
    if i < |names| - 1 {
      var p := names[..|names| - 1];
      assert p[i] == names[i];
      forall j | i < j < |p| ensures !Covers(p[j], year, d) {
        assert p[j] == names[j];
      }
      LastCoverIsLatest(p, year, d, i);
    }
  }

  lemma {:induction false} LastCoverNone(names: seq<HolidayName>, year: int, d: int)
    requires forall j :: 0 <= j < |names| ==> !Covers(names[j], year, d)
    ensures LastCover(names, year, d) == None
    decreases |names|
  {
    if |names| > 0 {
      var p := names[..|names| - 1];
      forall j | 0 <= j < |p| ensures !Covers(p[j], year, d) {
        assert p[j] == names[j];
      }
      LastCoverNone(p, year, d);
    }
  }

  /** When two names cover the same date, the later one in queryset order wins. */
  lemma LaterNameWins(cal: Calendar, names: seq<HolidayName>, year: int, d: int, i: int)
    requires AllPublishable(names, year)
    requires 0 <= i < |names| && Covers(names[i], year, d)
    requires forall j :: i < j < |names| ==> !Covers(names[j], year, d)
    ensures d in Publish(cal, names, year)
    ensures Publish(cal, names, year)[d] == SpecialDay(Holiday, Some(names[i]), CommentOf(cal, d))
  {
    LastCoverIsLatest(names, year, d, i);
    PublishAt(cal, names, year, d);
  }

  /** A date no name covers is left exactly as it was. */
  lemma UncoveredUnchanged(cal: Calendar, names: seq<HolidayName>, year: int, d: int)
    requires AllPublishable(names, year)
    requires forall j :: 0 <= j < |names| ==> !Covers(names[j], year, d)
    ensures d in Publish(cal, names, year) <==> d in cal
    ensures d in cal ==> Publish(cal, names, year)[d] == cal[d]
  {
    LastCoverNone(names, year, d);
    PublishAt(cal, names, year, d);
  }

  /** Two tables with the same entry at every date are the same table. */
  lemma LookupExtensional(a: Calendar, b: Calendar)
    requires forall d :: Lookup(a, d) == Lookup(b, d)
    ensures a == b
  {
    assert a.Keys == b.Keys by {
      forall d ensures d in a <==> d in b {
        assert Lookup(a, d) == Lookup(b, d);
      }
    }
    forall d | d in a ensures a[d] == b[d] {
      assert Lookup(a, d) == Lookup(b, d);
    }
  }

  /** Publishing the same names twice gives the table publishing them once gives. */
  lemma PublishIdempotent(cal: Calendar, names: seq<HolidayName>, year: int)
    requires AllPublishable(names, year)
    ensures Publish(Publish(cal, names, year), names, year) == Publish(cal, names, year)
  {
    var once := Publish(cal, names, year);
    forall d ensures Lookup(Publish(once, names, year), d) == Lookup(once, d) {
      PublishAt(cal, names, year, d);
      PublishAt(once, names, year, d);
    }
    LookupExtensional(Publish(once, names, year), once);
  }

  /** A name that passed HolidayName.clean in some year can be published in
      every year, except a 29th of February in a common year. */
  lemma CleanedNamePublishable(h: HolidayName, cleanYear: int, year: int)
    requires cleanYear >= 1 && year >= 1
    requires CleanHolidayName(h, cleanYear).Success?
    ensures Publishable(h, year) <==> h.count <= 0 || !(h.month == 2 && h.day == 29 && !IsLeap(year))
  {
  }

  /** The 29th of February passes clean in 2024 yet cannot be published for 2025. */
  lemma LeapDayNotPublishableNextYear()
    ensures CleanHolidayName(HolidayName("leap day", 2, 29, 1), 2024).Success?
    ensures !Publishable(HolidayName("leap day", 2, 29, 1), 2025)
  {
  }
}
