/** The Jira side (jiradata/models.py): hours of a worklog or an issue, the
    value of a custom field, and the actual-workload report of one user
    (WorklogReport.QuerySet.get_workload): the user's worklogs over a month
    list, summed per project budget and month, with a total row. */
module Worklogs {
  import opened Dates
  import opened Results
  import opened Aggregation
  import ReportParams

  /** A datetime to the second: the date and the seconds since midnight. */
  datatype Stamp = Stamp(date: Date, second: int)

  /** datetime <= datetime. */
  predicate StampLe(x: Stamp, y: Stamp) {
    DateLe(x.date, y.date) && (x.date == y.date ==> x.second <= y.second)
  }

  /** Midnight of a month's first day: a first-of-month date compared with a datetime. */
  function Midnight(m: Month): Stamp {
    Stamp(FirstDay(m), 0)
  }

  /** A worklog row: its issue, author, start time and seconds worked (NULL as None). */
  datatype Worklog = Worklog(issue: int, author: string, start: Stamp, timeworked: Option<int>)

  /** Worklog.hours and JiraIssue.hours: (seconds or 0) / 3600. */
  function Hours(seconds: Option<int>): (h: real)
    ensures h * 3600.0 == if seconds.Some? then seconds.value as real else 0.0
  {
    (if seconds.Some? then seconds.value as real else 0.0) / 3600.0
  }

  /** Hours add up as the seconds do, a NULL counts as no time at all and
      time worked is never negative hours; an hour is 3600 seconds. */
  lemma HoursAdditive(a: int, b: int)
    ensures Hours(Some(a)) + Hours(Some(b)) == Hours(Some(a + b))
    ensures Hours(None) == 0.0 == Hours(Some(0))
    ensures a >= 0 ==> Hours(Some(a)) >= 0.0
    ensures Hours(Some(3600)) == 1.0
  {
  }

  // ---------------------------------------------------------------------------
  // CustomfieldValue.value

  /** What a custom field value row holds. */
  datatype FieldRow = FieldRow(numbervalue: Option<int>, stringvalue: Option<string>, datevalue: Option<Stamp>, textvalue: Option<string>)

  /** The value of `a or b or c or d`. */
  datatype FieldValue = Number(n: int) | Text(s: string) | When(t: Stamp) | Null

  predicate NumberTruthy(v: Option<int>) {
    v.Some? && v.value != 0
  }

  predicate StringTruthy(v: Option<string>) {
    v.Some? && v.value != ""
  }

  /** CustomfieldValue.value: the first truthy of the number, string and date
      fields, or else the text field as it is (None or "" included). */
  function Value(row: FieldRow): (v: FieldValue)
    ensures NumberTruthy(row.numbervalue) ==> v == Number(row.numbervalue.value)
    ensures !NumberTruthy(row.numbervalue) && StringTruthy(row.stringvalue) ==> v == Text(row.stringvalue.value)
    ensures !NumberTruthy(row.numbervalue) && !StringTruthy(row.stringvalue) && row.datevalue.Some? ==>
      v == When(row.datevalue.value)
    ensures !NumberTruthy(row.numbervalue) && !StringTruthy(row.stringvalue) && row.datevalue.None? ==>
      v == (if row.textvalue.Some? then Text(row.textvalue.value) else Null)
  {
    if NumberTruthy(row.numbervalue) then Number(row.numbervalue.value)
    else if StringTruthy(row.stringvalue) then Text(row.stringvalue.value)
    else if row.datevalue.Some? then When(row.datevalue.value)
    else if row.textvalue.Some? then Text(row.textvalue.value)
    else Null
  }

  /** The value is always one of the row's own fields, and it is falsy only
      when every field is. */
  lemma ValueIsAField(row: FieldRow)
    ensures Value(row) == Null ||
      (Value(row).Number? && row.numbervalue == Some(Value(row).n)) ||
      (Value(row).Text? && (row.stringvalue == Some(Value(row).s) || row.textvalue == Some(Value(row).s))) ||
      (Value(row).When? && row.datevalue == Some(Value(row).t))
    ensures (Value(row) == Null || Value(row) == Text("")) <==>
      !NumberTruthy(row.numbervalue) && !StringTruthy(row.stringvalue) && row.datevalue.None? && !StringTruthy(row.textvalue)
  {
  }

  // ---------------------------------------------------------------------------
  // get_workload

  /** startdate__range=(month_list[0], month_list[-1] + monthdelta(1)) and author=user. */
  predicate Selected(w: Worklog, ml: seq<Month>, user: string)
    requires |ml| > 0
  {
    w.author == user && StampLe(Midnight(ml[0]), w.start) && StampLe(w.start, Midnight(NextMonth(ml[|ml| - 1])))
  }

  function Kept(ws: seq<Worklog>, ml: seq<Month>, user: string): (r: seq<Worklog>)
    requires |ml| > 0
    ensures forall w :: w in r <==> w in ws && Selected(w, ml, user)
  {
    if |ws| == 0 then []
    else
      var w := ws[|ws| - 1];
      var rest := Kept(ws[..|ws| - 1], ml, user);
      assert forall x :: x in ws <==> x in ws[..|ws| - 1] || x == w;
      if Selected(w, ml, user) then rest + [w] else rest
  }

  /** Every selected worklog is kept as many times as ws holds it, and nothing else. */
  lemma {:induction false} KeptCounts(ws: seq<Worklog>, ml: seq<Month>, user: string)
    requires |ml| > 0
    ensures forall w :: multiset(Kept(ws, ml, user))[w] == if Selected(w, ml, user) then multiset(ws)[w] else 0
  {
    if |ws| > 0 {
      var init := ws[..|ws| - 1];
      KeptCounts(init, ml, user);
      assert ws == init + [ws[|ws| - 1]];
    }
  }

  /** Norms of working hours per month, none of them zero (a zero norm is a
      division by zero in the source). */
  predicate NonzeroNorms(norms: map<Month, real>) {
    forall m :: m in norms ==> norms[m] != 0.0
  }

  /** The load column: hours / norm * 100 for a month with a norm; for a
      month without one the default -hours*100 makes it -1, the error mark,
      and 0 for a worklog without hours. */
  function Load(h: real, norms: map<Month, real>, m: Month): (l: real)
    requires NonzeroNorms(norms)
    ensures m !in norms ==> (l == -1.0 <==> h != 0.0) && (l == 0.0 <==> h == 0.0)
  {
    if m in norms then h / norms[m] * 100.0
    else if h == 0.0 then 0.0
    else -1.0
  }

  /** The measures of one worklog: hours, and its load when a norm map is given
      (`if month_hours:` skips an empty one; the load column then stays 0). */
  function Measure(w: Worklog, norms: map<Month, real>): Cell
    requires NonzeroNorms(norms)
  {
    var h := Hours(w.timeworked);
    Cell(h, if |norms| > 0 then Load(h, norms, MonthOf(w.start.date)) else 0.0)
  }

  /** The worklogs whose issue has a budget: the others drop out of the grouping by budget. */
  function Budgeted(ws: seq<Worklog>, budget: int -> Option<string>): (r: seq<Worklog>)
    ensures forall w :: w in r <==> w in ws && budget(w.issue).Some?
  {
    if |ws| == 0 then []
    else
      var w := ws[|ws| - 1];
      var rest := Budgeted(ws[..|ws| - 1], budget);
      assert forall x :: x in ws <==> x in ws[..|ws| - 1] || x == w;
      if budget(w.issue).Some? then rest + [w] else rest
  }

  /** Every worklog with a budget is kept as many times as ws holds it, and nothing else. */
  lemma {:induction false} BudgetedCounts(ws: seq<Worklog>, budget: int -> Option<string>)
    ensures forall w :: multiset(Budgeted(ws, budget))[w] == if budget(w.issue).Some? then multiset(ws)[w] else 0
  {
    if |ws| > 0 {
      var init := ws[..|ws| - 1];
      BudgetedCounts(init, budget);
      assert ws == init + [ws[|ws| - 1]];
    }
  }

  /** The frame grouped by budget and month. */
  function BudgetFacts(ws: seq<Worklog>, budget: int -> Option<string>, norms: map<Month, real>): (facts: seq<Fact<string, Month>>)
    requires NonzeroNorms(norms)
    ensures var bw := Budgeted(ws, budget);
      |facts| == |bw| &&
      forall i :: 0 <= i < |bw| ==>
        budget(bw[i].issue) == Some(facts[i].key) && facts[i].col == MonthOf(bw[i].start.date) && facts[i].cell == Measure(bw[i], norms)
  {
    var bw := Budgeted(ws, budget);
    assert forall i :: 0 <= i < |bw| ==> bw[i] in bw;
    seq(|bw|, i requires 0 <= i < |bw| => Fact(budget(bw[i].issue).value, MonthOf(bw[i].start.date), Measure(bw[i], norms)))
  }

  /** get_workload's result: the budget rows and the total row. */
  datatype Workload = Workload(rows: seq<Row<string>>, total: Option<seq<Cell>>)

  /** WorklogReport.QuerySet.get_workload: ([], None) when the user has no
      worklog in the range; otherwise one row per distinct budget of those
      worklogs, entry i holding the hours and load of the budget in month
      month_list[i] (zeros where there are none), and a total row whose
      entry i sums the budget rows' entry i. */
  function GetWorkload(ws: seq<Worklog>, ml: seq<Month>, user: string, budget: int -> Option<string>,
                       norms: map<Month, real>): (r: Workload)
    requires |ml| > 0 && NonzeroNorms(norms)
    ensures Kept(ws, ml, user) == [] <==> r == Workload([], None)
    ensures Kept(ws, ml, user) != [] ==> r.total.Some?
    ensures forall j, j' :: 0 <= j < j' < |r.rows| ==> r.rows[j].key != r.rows[j'].key
    ensures forall j :: 0 <= j < |r.rows| ==>
      |r.rows[j].cells| == |ml| &&
      forall i :: 0 <= i < |ml| ==>
        r.rows[j].cells[i] == CellSum(BudgetFacts(Kept(ws, ml, user), budget, norms), r.rows[j].key, ml[i])
    ensures r.total.Some? ==>
      |r.total.value| == |ml| && forall i :: 0 <= i < |ml| ==> r.total.value[i] == SumColumn(r.rows, i)
  {
    var kept := Kept(ws, ml, user);
    if |kept| == 0 then Workload([], None)
    else
      var facts := BudgetFacts(kept, budget, norms);
      var rows := Summary(facts, ml);
      SummaryShape(facts, ml);
      TotalRowAddsUp(facts, ml);
      Workload(rows, Some(Totals(facts, ml)))
  }

  /** The exception get_workload as written raises. */
  datatype WorkloadError = TypeError

  /** get_workload as written: the load column is built by an apply whose
      axis keyword is misspelt, and apply hands the unknown keyword on to the
      lambda, which accepts none; so a non-empty frame meeting a non-empty
      norm map raises TypeError, and the report is produced only without
      norms. */
  function GetWorkloadAsWritten(ws: seq<Worklog>, ml: seq<Month>, user: string, budget: int -> Option<string>,
                                norms: map<Month, real>): (r: Result<Workload, WorkloadError>)
    requires |ml| > 0 && NonzeroNorms(norms)
    ensures r.Failure? <==> Kept(ws, ml, user) != [] && |norms| > 0
    ensures r.Success? ==> r.value == GetWorkload(ws, ml, user, budget, norms)
  {
    if Kept(ws, ml, user) != [] && |norms| > 0 then Failure(TypeError)
    else Success(GetWorkload(ws, ml, user, budget, norms))
  }

  /** Four hours logged in January 2020 against a norm of 8 hours: the
      intended report shows the budget at a load of 50 per cent, while the
      code as written raises. */
  lemma LoadColumnRaises(budget: int -> Option<string>)
    requires budget(7) == Some("B")
    ensures var ml := [Month(2020, 1)];
      var w := Worklog(7, "u", Stamp(Date(2020, 1, 10), 0), Some(14400));
      var norms := map[Month(2020, 1) := 8.0];
      && GetWorkloadAsWritten([w], ml, "u", budget, norms).Failure?
      && GetWorkload([w], ml, "u", budget, norms).rows == [Row("B", [Cell(4.0, 50.0)])]
  {
    var ml := [Month(2020, 1)];
    var w := Worklog(7, "u", Stamp(Date(2020, 1, 10), 0), Some(14400));
    var norms := map[Month(2020, 1) := 8.0];
    assert Selected(w, ml, "u");
    assert Kept([w], ml, "u") == [w] by {
      assert [w][..0] == [];
    }
    assert Budgeted([w], budget) == [w] by {
      assert [w][..0] == [];
    }
    var facts := BudgetFacts([w], budget, norms);
    assert Measure(w, norms) == Cell(4.0, 50.0);
    assert facts == [Fact("B", Month(2020, 1), Cell(4.0, 50.0))];
    assert facts[..0] == [];
    assert Keys(facts) == ["B"];
    assert CellSum(facts, "B", Month(2020, 1)) == Cell(4.0, 50.0);
    assert Reindex(facts, "B", ml) == [Cell(4.0, 50.0)];
    assert Summary(facts, ml) == [Row("B", [Cell(4.0, 50.0)])];
  }

  /** get_workload has a row for each budget of the kept worklogs' issues, and no other. */
  lemma WorkloadBudgets(ws: seq<Worklog>, ml: seq<Month>, user: string, budget: int -> Option<string>, norms: map<Month, real>)
    requires |ml| > 0 && NonzeroNorms(norms)
    ensures var r := GetWorkload(ws, ml, user, budget, norms);
      (forall w :: w in Kept(ws, ml, user) && budget(w.issue).Some? ==>
        exists j :: 0 <= j < |r.rows| && r.rows[j].key == budget(w.issue).value) &&
      (forall j :: 0 <= j < |r.rows| ==> exists w :: w in Kept(ws, ml, user) && budget(w.issue) == Some(r.rows[j].key))
  {
    var kept := Kept(ws, ml, user);
    var facts := BudgetFacts(kept, budget, norms);
    assert GetWorkload(ws, ml, user, budget, norms).rows == Summary(facts, ml);
    BudgetRows(kept, budget, norms, ml);
  }

  /** The budget rows of the frame: one for each budget of the worklogs' issues, and no other. */
  lemma BudgetRows(ws: seq<Worklog>, budget: int -> Option<string>, norms: map<Month, real>, ml: seq<Month>)
    requires NonzeroNorms(norms)
    ensures var rows := Summary(BudgetFacts(ws, budget, norms), ml);
      (forall w :: w in ws && budget(w.issue).Some? ==> exists j :: 0 <= j < |rows| && rows[j].key == budget(w.issue).value) &&
      (forall j :: 0 <= j < |rows| ==> exists w :: w in ws && budget(w.issue) == Some(rows[j].key))
  {
    var bw := Budgeted(ws, budget);
    var facts := BudgetFacts(ws, budget, norms);
    var rows := Summary(facts, ml);
    SummaryShape(facts, ml);
    forall w | w in ws && budget(w.issue).Some?
      ensures exists j :: 0 <= j < |rows| && rows[j].key == budget(w.issue).value
    {
      assert w in bw;
      var n :| 0 <= n < |bw| && bw[n] == w;
      assert HasKey(facts, budget(w.issue).value) by {
        assert facts[n].key == budget(w.issue).value;
      }
    }
    forall j | 0 <= j < |rows|
      ensures exists w :: w in ws && budget(w.issue) == Some(rows[j].key)
    {
      assert HasKey(facts, rows[j].key);
      var n :| 0 <= n < |facts| && facts[n].key == rows[j].key;
      assert bw[n] in bw;
    }
  }

  /** The range filter keeps every worklog of the user in a listed month of
      a consecutive month list. */
  lemma ListedMonthsAreKept(w: Worklog, ml: seq<Month>, user: string)
    requires |ml| > 0 && ReportParams.Consecutive(ml)
    requires w.author == user && ValidDate(w.start.date) && 0 <= w.start.second
    requires MonthOf(w.start.date) in ml
    ensures Selected(w, ml, user)
  {
    var m := MonthOf(w.start.date);
    var i :| 0 <= i < |ml| && ml[i] == m;
    assert Index(ml[0]) <= Index(m) <= Index(ml[|ml| - 1]);
    var n := NextMonth(ml[|ml| - 1]);
    assert Index(m) < Index(n);
  }

  /** Conversely, a kept worklog lies in a listed month, unless it starts
      exactly at midnight on the first day after the list: the range is
      closed at its upper end. */
  lemma KeptAreListedOrBoundary(w: Worklog, ml: seq<Month>, user: string)
    requires |ml| > 0 && ReportParams.Consecutive(ml)
    requires ValidDate(w.start.date) && 0 <= w.start.second
    requires Selected(w, ml, user)
    ensures MonthOf(w.start.date) in ml || w.start == Midnight(NextMonth(ml[|ml| - 1]))
  {
    var m := MonthOf(w.start.date);
    var n := NextMonth(ml[|ml| - 1]);
    if Index(m) <= Index(ml[|ml| - 1]) {
      ReportParams.WindowIsListed(ml, m);
    } else {
      IndexInjective(m, n);
    }
  }

  /** The boundary worklog counts in no listed month: its month is the one
      after the list. */
  lemma BoundaryWorklogCountsNowhere(ml: seq<Month>)
    requires |ml| > 0 && ReportParams.Consecutive(ml)
    ensures NextMonth(ml[|ml| - 1]) !in ml
  {
    assert forall i :: 0 <= i < |ml| ==> Index(ml[i]) < Index(NextMonth(ml[|ml| - 1]));
  }

  /** Every record of month m has load * n == hours * 100. */
  predicate LoadsMatch(facts: seq<Fact<string, Month>>, m: Month, n: real) {
    forall i :: 0 <= i < |facts| && facts[i].col == m ==> facts[i].cell.b * n == facts[i].cell.a * 100.0
  }

  /** When every record of month m has load * n == hours * 100, so do the
      sums: loads add up like hours. */
  lemma {:induction false} LoadIsHoursOverNorm(facts: seq<Fact<string, Month>>, k: string, m: Month, n: real)
    requires LoadsMatch(facts, m, n)
    ensures CellSum(facts, k, m).b * n == CellSum(facts, k, m).a * 100.0
  {
    if |facts| > 0 {
      var p := facts[..|facts| - 1];
      assert forall i :: 0 <= i < |p| ==> p[i] == facts[i];
      assert LoadsMatch(p, m, n);
      LoadIsHoursOverNorm(p, k, m, n);
      var f := facts[|facts| - 1];
      if f.key == k && f.col == m {
        LoadStep(CellSum(p, k, m), f.cell, n);
      }
    }
  }

  lemma LoadStep(c: Cell, d: Cell, n: real)
    requires c.b * n == c.a * 100.0 && d.b * n == d.a * 100.0
    ensures (c.b + d.b) * n == (c.a + d.a) * 100.0
  {
  }

  /** The worklog measures of the report carry load * norm == hours * 100
      in every month with a norm; by LoadIsHoursOverNorm so do their sums
      per budget, which are the report's cells. */
  lemma EachFactCarriesLoad(ws: seq<Worklog>, budget: int -> Option<string>, norms: map<Month, real>, m: Month)
    requires NonzeroNorms(norms) && |norms| > 0 && m in norms
    ensures LoadsMatch(BudgetFacts(ws, budget, norms), m, norms[m])
  {
    var bw := Budgeted(ws, budget);
    var facts := BudgetFacts(ws, budget, norms);
    forall i | 0 <= i < |facts| && facts[i].col == m
      ensures facts[i].cell.b * norms[m] == facts[i].cell.a * 100.0
    {
      MeasureLoad(bw[i], norms, m);
    }
  }

  /** One worklog of a month with a norm: load * norm == hours * 100. */
  lemma MeasureLoad(w: Worklog, norms: map<Month, real>, m: Month)
    requires NonzeroNorms(norms) && |norms| > 0 && m in norms && MonthOf(w.start.date) == m
    ensures Measure(w, norms).b * norms[m] == Measure(w, norms).a * 100.0
  {
    var h := Hours(w.timeworked);
    assert Measure(w, norms) == Cell(h, Load(h, norms, m));
    LoadOverNorm(h, norms[m]);
  }

  /** hours / norm * 100, multiplied back by the norm, is hours * 100. */
  lemma LoadOverNorm(h: real, n: real)
    requires n != 0.0
    ensures h / n * 100.0 * n == h * 100.0
  {
  }
}
