/** The booking reports: the month summary per employee
    (get_booking_summary in pplan/admin.py, MonthBookingSummary in
    pstat/models.py), the project summary per employee with its optional
    salary cost (get_booking_projects, ProjectBooking), the month summary of
    one employee per project with its total row (MonthBookingEmployee), and
    the month totals of one employee (EmployeeBooking.booking).  Each reads
    MonthBooking rows joined with their booking's member. */
module Reports {
  import opened Dates
  import opened Results
  import opened Aggregation
  import Staff
  import ReportParams

  /** A MonthBooking row as the reports read it: the member's employee (id
      and display name) and project short name, the month, the load and the volume. */
  datatype Entry = Entry(employee: int, name: string, project: string, month: Month, load: real, volume: real)

  function Measures(e: Entry): Cell {
    Cell(e.load, e.volume)
  }

  /** The frame keyed by employee name and month. */
  function ByEmployeeMonth(es: seq<Entry>): (facts: seq<Fact<string, Month>>)
    ensures |facts| == |es|
  {
    seq(|es|, i requires 0 <= i < |es| => Fact(es[i].name, es[i].month, Measures(es[i])))
  }

  /** The frame keyed by employee name and project. */
  function ByEmployeeProject(es: seq<Entry>): (facts: seq<Fact<string, string>>)
    ensures |facts| == |es|
  {
    seq(|es|, i requires 0 <= i < |es| => Fact(es[i].name, es[i].project, Measures(es[i])))
  }

  /** The frame keyed by project and month. */
  function ByProjectMonth(es: seq<Entry>): (facts: seq<Fact<string, Month>>)
    ensures |facts| == |es|
  {
    seq(|es|, i requires 0 <= i < |es| => Fact(es[i].project, es[i].month, Measures(es[i])))
  }

  /** The frame keyed by employee id and month. */
  function ByEmployeeIdMonth(es: seq<Entry>): (facts: seq<Fact<int, Month>>)
    ensures |facts| == |es|
  {
    seq(|es|, i requires 0 <= i < |es| => Fact(es[i].employee, es[i].month, Measures(es[i])))
  }

  predicate HasName(es: seq<Entry>, k: string) {
    exists i :: 0 <= i < |es| && es[i].name == k
  }

  predicate HasProject(es: seq<Entry>, p: string) {
    exists i :: 0 <= i < |es| && es[i].project == p
  }

  /** Entries whose month lies in month__range=(lo, hi). */
  function InWindow(es: seq<Entry>, lo: Month, hi: Month): (r: seq<Entry>)
    ensures forall e :: e in r <==> e in es && Index(lo) <= Index(e.month) <= Index(hi)
  {
    if |es| == 0 then []
    else
      var e := es[|es| - 1];
      var rest := InWindow(es[..|es| - 1], lo, hi);
      assert forall x :: x in es <==> x in es[..|es| - 1] || x == e;
      if Index(lo) <= Index(e.month) <= Index(hi) then rest + [e] else rest
  }

  /** The window keeps every entry of its months as many times as es holds it, and nothing else. */
  lemma {:induction false} InWindowCounts(es: seq<Entry>, lo: Month, hi: Month)
    ensures forall e :: multiset(InWindow(es, lo, hi))[e] == if Index(lo) <= Index(e.month) <= Index(hi) then multiset(es)[e] else 0
  {
    if |es| > 0 {
      var init := es[..|es| - 1];
      InWindowCounts(init, lo, hi);
      assert es == init + [es[|es| - 1]];
    }
  }

  /** Entries of one employee. */
  function OfEmployee(es: seq<Entry>, emp: int): (r: seq<Entry>)
    ensures forall e :: e in r <==> e in es && e.employee == emp
  {
    if |es| == 0 then []
    else
      var e := es[|es| - 1];
      var rest := OfEmployee(es[..|es| - 1], emp);
      assert forall x :: x in es <==> x in es[..|es| - 1] || x == e;
      if e.employee == emp then rest + [e] else rest
  }

  /** Every entry of the employee is kept as many times as es holds it, and nothing else. */
  lemma {:induction false} OfEmployeeCounts(es: seq<Entry>, emp: int)
    ensures forall e :: multiset(OfEmployee(es, emp))[e] == if e.employee == emp then multiset(es)[e] else 0
  {
    if |es| > 0 {
      var init := es[..|es| - 1];
      OfEmployeeCounts(init, emp);
      assert es == init + [es[|es| - 1]];
    }
  }

  // ---------------------------------------------------------------------------
  // Month summary per employee

  lemma NamesAreKeys(es: seq<Entry>)
    ensures forall k :: HasName(es, k) <==> HasKey(ByEmployeeMonth(es), k)
    ensures forall k :: HasName(es, k) <==> HasKey(ByEmployeeProject(es), k)
  {
    forall k | HasName(es, k)
      ensures HasKey(ByEmployeeMonth(es), k) && HasKey(ByEmployeeProject(es), k)
    {
      var i :| 0 <= i < |es| && es[i].name == k;
      assert ByEmployeeMonth(es)[i].key == k;
      assert ByEmployeeProject(es)[i].key == k;
    }
  }

  /** get_booking_summary and MonthBookingSummary.get_booking: no rows for
      no records; otherwise one row per distinct employee, each employee of
      the records has one, and entry i of a row holds the employee's load
      and volume summed over the records of month monthList[i]. */
  function MonthSummary(es: seq<Entry>, monthList: seq<Month>): (rows: seq<Row<string>>)
    ensures |es| == 0 ==> rows == []
    ensures forall k :: HasName(es, k) <==> exists j :: 0 <= j < |rows| && rows[j].key == k
    ensures forall j, j' :: 0 <= j < j' < |rows| ==> rows[j].key != rows[j'].key
    ensures forall j :: 0 <= j < |rows| ==>
      |rows[j].cells| == |monthList| &&
      forall i :: 0 <= i < |monthList| ==> rows[j].cells[i] == CellSum(ByEmployeeMonth(es), rows[j].key, monthList[i])
  {
    var facts := ByEmployeeMonth(es);
    SummaryShape(facts, monthList);
    NamesAreKeys(es);
    Summary(facts, monthList)
  }

  /** An employee without records in a month gets zeros there. */
  lemma MonthSummaryZeroFill(es: seq<Entry>, k: string, m: Month)
    requires forall i :: 0 <= i < |es| ==> !(es[i].name == k && es[i].month == m)
    ensures CellSum(ByEmployeeMonth(es), k, m) == Zero
  {
    var facts := ByEmployeeMonth(es);
    assert forall i :: 0 <= i < |facts| ==> facts[i].key == es[i].name && facts[i].col == es[i].month;
    CellSumZero(facts, k, m);
  }

  /** A record of a month outside the list changes no row, for an employee
      that already has a row. */
  lemma MonthSummaryIgnoresOtherMonths(es: seq<Entry>, e: Entry, monthList: seq<Month>)
    requires e.month !in monthList && HasName(es, e.name)
    ensures MonthSummary(es + [e], monthList) == MonthSummary(es, monthList)
  {
    var facts := ByEmployeeMonth(es);
    var f := Fact(e.name, e.month, Measures(e));
    assert ByEmployeeMonth(es + [e]) == facts + [f];
    NamesAreKeys(es);
    KeysSpec(facts);
    OutsideColumnIgnored(facts, f, monthList);
  }

  /** MonthBookingAdmin.changelist_view: the 18-month window and the summary
      of the records in it. */
  function MonthReport(es: seq<Entry>, year: Option<int>, today: Date): (r: (seq<Month>, seq<Row<string>>))
    ensures r.0 == ReportParams.MonthList(year, today)
  {
    var ml := ReportParams.MonthList(year, today);
    (ml, MonthSummary(InWindow(es, ml[0], ml[|ml| - 1]), ml))
  }

  /** Records kept by the range filter of a consecutive month list fall in listed months. */
  lemma WindowRecordsListed(es: seq<Entry>, kept: seq<Entry>, ml: seq<Month>)
    requires |ml| > 0 && ReportParams.Consecutive(ml)
    requires forall i :: 0 <= i < |es| ==> 1 <= es[i].month.month <= 12
    requires forall e :: e in kept ==> e in es && Index(ml[0]) <= Index(e.month) <= Index(ml[|ml| - 1])
    ensures forall i :: 0 <= i < |kept| ==> kept[i].month in ml
  {
    forall i | 0 <= i < |kept|
      ensures kept[i].month in ml
    {
      assert kept[i] in es;
      ReportParams.WindowIsListed(ml, kept[i].month);
    }
  }

  /** Nothing the window keeps is lost: each row's entries add up to all
      the load and volume of that employee within the window. */
  lemma MonthReportKeepsTotals(es: seq<Entry>, year: Option<int>, today: Date)
    requires forall i :: 0 <= i < |es| ==> 1 <= es[i].month.month <= 12
    ensures var ml := ReportParams.MonthList(year, today);
      var kept := InWindow(es, ml[0], ml[|ml| - 1]);
      var rows := MonthReport(es, year, today).1;
      forall j :: 0 <= j < |rows| ==> SumCells(rows[j].cells) == KeySum(ByEmployeeMonth(kept), rows[j].key)
  {
    var ml := ReportParams.MonthList(year, today);
    var kept := InWindow(es, ml[0], ml[|ml| - 1]);
    var facts := ByEmployeeMonth(kept);
    var rows := MonthReport(es, year, today).1;
    ReportParams.ConsecutiveDistinct(ml);
    WindowRecordsListed(es, kept, ml);
    assert forall i :: 0 <= i < |facts| ==> facts[i].col == kept[i].month;
    forall j | 0 <= j < |rows|
      ensures SumCells(rows[j].cells) == KeySum(facts, rows[j].key)
    {
      assert rows[j].cells == Reindex(facts, rows[j].key, ml);
      KeyTotalIsRowSum(facts, rows[j].key, ml);
    }
  }

  // ---------------------------------------------------------------------------
  // Project summary per employee

  /** The salary column of a project row: cost per listed project and in total. */
  datatype CostColumn = CostColumn(cells: seq<real>, total: real)

  /** One row of get_booking_projects: the employee, load and volume per
      listed project, the employee's total, and the cost when a salary
      month was given. */
  datatype ProjectRow = ProjectRow(name: string, booking: seq<Cell>, total: Cell, cost: Option<CostColumn>)

  /** amount * business_k of the salary row in force in month m: the latest
      one starting on or before the month's first day. */
  function Rate(salaries: seq<Staff.Salary>, businessK: map<int, real>, emp: int, m: Month): Option<real> {
    var s := Staff.LatestSalary(salaries, emp, Some(FirstDay(m)));
    if s.Some? && s.value.employee in businessK then Some(SalaryRate(s.value, businessK[s.value.employee])) else None
  }

  /** amount * business_k of one salary row, given the employee's business_k. */
  function SalaryRate(s: Staff.Salary, k: real): real {
    s.amount as real * k
  }

  /** The rate of every employee in month m. */
  function RatesIn(salaries: seq<Staff.Salary>, businessK: map<int, real>, m: Month): int -> Option<real> {
    emp => Rate(salaries, businessK, emp, m)
  }

  /** df['cost'] of one record, given the rate of each employee:
      load * rate / 100; a record whose employee has no salary in force adds
      nothing to the sums. */
  function Cost(e: Entry, rate: int -> Option<real>): real {
    var r := rate(e.employee);
    if r.Some? then e.load * r.value / 100.0 else 0.0
  }

  /** The cost column keyed like ByEmployeeProject. */
  function CostFacts(es: seq<Entry>, rate: int -> Option<real>): (facts: seq<Fact<string, string>>)
    ensures |facts| == |es|
  {
    seq(|es|, i requires 0 <= i < |es| => Fact(es[i].name, es[i].project, Cell(Cost(es[i], rate), 0.0)))
  }

  function ProjectRowFor(facts: seq<Fact<string, string>>, costs: Option<seq<Fact<string, string>>>, k: string, projects: seq<string>): ProjectRow {
    ProjectRow(k, Reindex(facts, k, projects), KeySum(facts, k),
      if costs.Some? then
        Some(CostColumn(seq(|projects|, i requires 0 <= i < |projects| => CellSum(costs.value, k, projects[i]).a), KeySum(costs.value, k).a))
      else None)
  }

  /** get_booking_projects and ProjectBooking.get_booking: no rows for no
      records; otherwise one row per distinct employee, with load and volume
      per listed project (zeros where there are none), the total over all
      the employee's records, and a cost column exactly when a salary month
      is given. */
  function ProjectReport(es: seq<Entry>, projects: seq<string>, salaryMonth: Option<Month>,
                         salaries: seq<Staff.Salary>, businessK: map<int, real>): (rows: seq<ProjectRow>)
    ensures |es| == 0 ==> rows == []
    ensures forall k :: HasName(es, k) <==> exists j :: 0 <= j < |rows| && rows[j].name == k
    ensures forall j, j' :: 0 <= j < j' < |rows| ==> rows[j].name != rows[j'].name
    ensures forall j :: 0 <= j < |rows| ==>
      && |rows[j].booking| == |projects|
      && (forall i :: 0 <= i < |projects| ==> rows[j].booking[i] == CellSum(ByEmployeeProject(es), rows[j].name, projects[i]))
      && rows[j].total == KeySum(ByEmployeeProject(es), rows[j].name)
      && (rows[j].cost.Some? <==> salaryMonth.Some?)
    ensures salaryMonth.Some? ==>
      var costs := CostFacts(es, RatesIn(salaries, businessK, salaryMonth.value));
      forall j :: 0 <= j < |rows| ==>
        && rows[j].cost.Some?
        && |rows[j].cost.value.cells| == |projects|
        && (forall i :: 0 <= i < |projects| ==> rows[j].cost.value.cells[i] == CellSum(costs, rows[j].name, projects[i]).a)
        && rows[j].cost.value.total == KeySum(costs, rows[j].name).a
  {
    if |es| == 0 then []
    else
      var facts := ByEmployeeProject(es);
      var costs := if salaryMonth.Some? then Some(CostFacts(es, RatesIn(salaries, businessK, salaryMonth.value))) else None;
      var ks := Keys(facts);
      KeysSpec(facts);
      NamesAreKeys(es);
      var rows := seq(|ks|, j requires 0 <= j < |ks| => ProjectRowFor(facts, costs, ks[j], projects));
      assert forall j :: 0 <= j < |rows| ==> rows[j].name == ks[j];
      rows
  }

  /** When the listed projects are distinct and include every project of
      the records, an employee's total is the sum of its row. */
  lemma ProjectTotalIsRowSum(es: seq<Entry>, projects: seq<string>, salaryMonth: Option<Month>,
                             salaries: seq<Staff.Salary>, businessK: map<int, real>)
    requires Distinct(projects)
    requires forall i :: 0 <= i < |es| ==> es[i].project in projects
    ensures var rows := ProjectReport(es, projects, salaryMonth, salaries, businessK);
      forall j :: 0 <= j < |rows| ==> rows[j].total == SumCells(rows[j].booking)
  {
    var facts := ByEmployeeProject(es);
    var rows := ProjectReport(es, projects, salaryMonth, salaries, businessK);
    assert forall i :: 0 <= i < |facts| ==> facts[i].col == es[i].project;
    forall j | 0 <= j < |rows|
      ensures rows[j].total == SumCells(rows[j].booking)
    {
      assert rows[j].booking == Reindex(facts, rows[j].name, projects);
      KeyTotalIsRowSum(facts, rows[j].name, projects);
    }
  }

  /** The cost of an employee's records in a project is its load there
      times the employee's rate / 100, when all records under the name
      belong to one employee with a salary in force. */
  lemma CostIsLoadTimesRate(es: seq<Entry>, k: string, p: string, emp: int, rate: int -> Option<real>, r: real)
    requires forall i :: 0 <= i < |es| && es[i].name == k ==> es[i].employee == emp
    requires rate(emp) == Some(r)
    ensures ScaledBy(CellSum(ByEmployeeProject(es), k, p).a, CellSum(CostFacts(es, rate), k, p).a, r / 100.0)
    ensures CellSum(CostFacts(es, rate), k, p).a == CellSum(ByEmployeeProject(es), k, p).a * (r / 100.0)
  {
    var f := ByEmployeeProject(es);
    var g := CostFacts(es, rate);
    var s := r / 100.0;
    forall i | 0 <= i < |f|
      ensures ScaledAt(f, g, k, s, i)
    {
      PercentOf(es[i].load, r);
    }
    ScaledSums(f, g, k, p, s);
  }

  /** The rate in force is the latest salary's amount times the employee's business_k. */
  lemma RateOfLatest(salaries: seq<Staff.Salary>, businessK: map<int, real>, emp: int, m: Month, s: Staff.Salary)
    requires Staff.LatestSalary(salaries, emp, Some(FirstDay(m))) == Some(s) && emp in businessK
    ensures s.employee == emp
    ensures RatesIn(salaries, businessK, m)(emp) == Some(SalaryRate(s, businessK[emp]))
  {
    Staff.LatestSalarySpec(salaries, emp, Some(FirstDay(m)));
  }

  /** The cost column of an employee's row: when all records under the name
      belong to one employee whose latest salary row starting on or before
      the salary month's first day is s, each listed project's cost is the
      load there times amount * business_k / 100. */
  lemma ProjectCostIsLoadTimesSalary(es: seq<Entry>, projects: seq<string>, m: Month,
                                     salaries: seq<Staff.Salary>, businessK: map<int, real>,
                                     j: int, emp: int, s: Staff.Salary)
    requires var rows := ProjectReport(es, projects, Some(m), salaries, businessK);
      0 <= j < |rows| && forall i :: 0 <= i < |es| && es[i].name == rows[j].name ==> es[i].employee == emp
    requires Staff.LatestSalary(salaries, emp, Some(FirstDay(m))) == Some(s) && emp in businessK
    ensures var rows := ProjectReport(es, projects, Some(m), salaries, businessK);
      forall i :: 0 <= i < |projects| ==>
        ScaledBy(rows[j].booking[i].a, rows[j].cost.value.cells[i], SalaryRate(s, businessK[emp]) / 100.0)
  {
    var rows := ProjectReport(es, projects, Some(m), salaries, businessK);
    var rate := RatesIn(salaries, businessK, m);
    var costs := CostFacts(es, rate);
    var r := SalaryRate(s, businessK[emp]);
    RateOfLatest(salaries, businessK, emp, m, s);
    forall i | 0 <= i < |projects|
      ensures ScaledBy(rows[j].booking[i].a, rows[j].cost.value.cells[i], r / 100.0)
    {
      var load := CellSum(ByEmployeeProject(es), rows[j].name, projects[i]);
      var cost := CellSum(costs, rows[j].name, projects[i]).a;
      assert rows[j].cost.value.cells[i] == cost;
      assert rows[j].booking[i] == load;
      CostIsLoadTimesRate(es, rows[j].name, projects[i], emp, rate, r);
    }
  }

  lemma PercentOf(l: real, r: real)
    ensures l * r / 100.0 == l * (r / 100.0)
  {
  }

  /** ProjectBookingAdmin.changelist_view: the records of the selected
      month, its sorted distinct projects, and their report with cost. */
  function ProjectMonthReport(es: seq<Entry>, year: Option<string>, monthNum: Option<string>, today: Date,
                              salaries: seq<Staff.Salary>, businessK: map<int, real>)
    : (r: Result<(Month, seq<string>, seq<ProjectRow>), ReportParams.ParamError>)
    requires 1 <= today.month <= 12
    ensures r.Failure? <==> ReportParams.SelectedMonth(year, monthNum, today).Failure?
    ensures r.Success? ==> Success(r.value.0) == ReportParams.SelectedMonth(year, monthNum, today)
    ensures r.Success? ==> forall p :: p in r.value.1 <==> exists i :: 0 <= i < |es| && es[i].month == r.value.0 && es[i].project == p
    ensures r.Success? ==> ReportParams.StrictlySorted(r.value.1)
  {
    match ReportParams.SelectedMonth(year, monthNum, today)
    case Failure(e) => Failure(e)
    case Success(month) =>
      var kept := InMonth(es, month);
      var projects := ReportParams.SortedSet(ProjectsOf(kept));
      Success((month, projects, ProjectReport(kept, projects, Some(month), salaries, businessK)))
  }

  /** month__exact=month */
  function InMonth(es: seq<Entry>, m: Month): (r: seq<Entry>)
    ensures forall e :: e in r <==> e in es && e.month == m
  {
    if |es| == 0 then []
    else
      var e := es[|es| - 1];
      var rest := InMonth(es[..|es| - 1], m);
      assert forall x :: x in es <==> x in es[..|es| - 1] || x == e;
      if e.month == m then rest + [e] else rest
  }

  /** Every entry of the month is kept as many times as es holds it, and nothing else. */
  lemma {:induction false} InMonthCounts(es: seq<Entry>, m: Month)
    ensures forall e :: multiset(InMonth(es, m))[e] == if e.month == m then multiset(es)[e] else 0
  {
    if |es| > 0 {
      var init := es[..|es| - 1];
      InMonthCounts(init, m);
      assert es == init + [es[|es| - 1]];
    }
  }

  /** values_list of the project short names. */
  function ProjectsOf(es: seq<Entry>): (ps: seq<string>)
    ensures |ps| == |es| && forall i :: 0 <= i < |es| ==> ps[i] == es[i].project
  {
    seq(|es|, i requires 0 <= i < |es| => es[i].project)
  }

  /** In the admin's project report every row adds up to its total, since
      the project list is exactly the distinct projects of the month. */
  lemma ProjectMonthReportAddsUp(es: seq<Entry>, year: Option<string>, monthNum: Option<string>, today: Date,
                                 salaries: seq<Staff.Salary>, businessK: map<int, real>)
    requires 1 <= today.month <= 12
    ensures var r := ProjectMonthReport(es, year, monthNum, today, salaries, businessK);
      r.Success? ==> forall j :: 0 <= j < |r.value.2| ==> r.value.2[j].total == SumCells(r.value.2[j].booking) && r.value.2[j].cost.Some?
  {
    var selected := ReportParams.SelectedMonth(year, monthNum, today);
    if selected.Success? {
      var month := selected.value;
      var kept := InMonth(es, month);
      var projects := ReportParams.SortedSet(ProjectsOf(kept));
      ReportParams.SortedIsDistinct(projects);
      forall i | 0 <= i < |kept|
        ensures kept[i].project in projects
      {
        assert ProjectsOf(kept)[i] == kept[i].project;
      }
      ProjectTotalIsRowSum(kept, projects, Some(month), salaries, businessK);
    }
  }

  // ---------------------------------------------------------------------------
  // One employee, per project and month

  /** MonthBookingEmployee.get_booking's result: the project rows and the total row. */
  datatype EmployeeReport = EmployeeReport(rows: seq<Row<string>>, total: Option<seq<Cell>>)

  /** The records get_booking keeps: months within month__range=(monthList[0],
      monthList[-1]) and the given employee. */
  function EmployeeRecords(es: seq<Entry>, monthList: seq<Month>, emp: int): seq<Entry>
    requires |monthList| > 0
  {
    OfEmployee(InWindow(es, monthList[0], monthList[|monthList| - 1]), emp)
  }

  /** MonthBookingEmployee.get_booking: ([], None) when nothing is kept;
      otherwise one row per distinct project aligned with the month list,
      and a total row whose entry i is the sum of the project rows' entry i. */
  function EmployeeMonths(es: seq<Entry>, monthList: seq<Month>, emp: int): (r: EmployeeReport)
    requires |monthList| > 0
    ensures EmployeeRecords(es, monthList, emp) == [] <==> r == EmployeeReport([], None)
    ensures EmployeeRecords(es, monthList, emp) != [] ==> r.total.Some?
    ensures r.total.Some? ==>
      && |r.total.value| == |monthList|
      && (forall j :: 0 <= j < |r.rows| ==> |r.rows[j].cells| == |monthList|)
      && forall i :: 0 <= i < |monthList| ==> r.total.value[i] == SumColumn(r.rows, i)
    ensures forall j :: 0 <= j < |r.rows| ==>
      HasProject(EmployeeRecords(es, monthList, emp), r.rows[j].key) &&
      |r.rows[j].cells| == |monthList| &&
      forall i :: 0 <= i < |monthList| ==>
        r.rows[j].cells[i] == CellSum(ByProjectMonth(EmployeeRecords(es, monthList, emp)), r.rows[j].key, monthList[i])
    ensures forall p :: HasProject(EmployeeRecords(es, monthList, emp), p) ==> exists j :: 0 <= j < |r.rows| && r.rows[j].key == p
    ensures forall j, j' :: 0 <= j < j' < |r.rows| ==> r.rows[j].key != r.rows[j'].key
  {
    var kept := EmployeeRecords(es, monthList, emp);
    if |kept| == 0 then EmployeeReport([], None)
    else
      var facts := ByProjectMonth(kept);
      var rows := Summary(facts, monthList);
      SummaryShape(facts, monthList);
      ProjectSummaryCovers(kept, monthList);
      EmployeeReport(rows, Some(Totals(facts, monthList)))
  }

  /** The project rows of non-empty records: one per project of the records,
      each a project of the records, and the total row their column sums. */
  lemma ProjectSummaryCovers(kept: seq<Entry>, monthList: seq<Month>)
    requires |kept| > 0
    ensures var rows := Summary(ByProjectMonth(kept), monthList);
      && (forall i :: 0 <= i < |monthList| ==> Totals(ByProjectMonth(kept), monthList)[i] == SumColumn(rows, i))
      && (forall j :: 0 <= j < |rows| ==> HasProject(kept, rows[j].key))
      && (forall p :: HasProject(kept, p) ==> exists j :: 0 <= j < |rows| && rows[j].key == p)
  {
    var facts := ByProjectMonth(kept);
    var rows := Summary(facts, monthList);
    SummaryShape(facts, monthList);
    assert HasKey(facts, facts[0].key);
    forall i | 0 <= i < |monthList|
      ensures Totals(facts, monthList)[i] == SumColumn(rows, i)
    {
      TotalsAreRowSums(facts, monthList, i);
    }
    forall j | 0 <= j < |rows|
      ensures HasProject(kept, rows[j].key)
    {
      assert HasKey(facts, rows[j].key);
      var n :| 0 <= n < |facts| && facts[n].key == rows[j].key;
      assert kept[n].project == rows[j].key;
    }
    forall p | HasProject(kept, p)
      ensures exists j :: 0 <= j < |rows| && rows[j].key == p
    {
      var n :| 0 <= n < |kept| && kept[n].project == p;
      assert facts[n].key == p;
      assert HasKey(facts, p);
    }
  }

  // ---------------------------------------------------------------------------
  // EmployeeBooking.booking

  /** month_list, or the current month when it is missing or empty. */
  function MonthsOrCurrent(monthList: seq<Month>, today: Date): (ml: seq<Month>)
    ensures |ml| > 0
  {
    if |monthList| == 0 then [MonthOf(today)] else monthList
  }

  /** EmployeeBooking.booking: for each listed month, the employee's load
      and volume summed over its records of that month within the list's
      range, zeros where there are none. */
  function EmployeeMonthTotals(es: seq<Entry>, emp: int, monthList: seq<Month>, today: Date): (cells: seq<Cell>)
    ensures var ml := MonthsOrCurrent(monthList, today);
      |cells| == |ml| &&
      forall i :: 0 <= i < |ml| ==>
        cells[i] == CellSum(ByEmployeeIdMonth(OfEmployee(InWindow(es, ml[0], ml[|ml| - 1]), emp)), emp, ml[i])
  {
    var ml := MonthsOrCurrent(monthList, today);
    Reindex(ByEmployeeIdMonth(OfEmployee(InWindow(es, ml[0], ml[|ml| - 1]), emp)), emp, ml)
  }

  /** For a list of consecutive months, the month totals add up to all the
      employee's load and volume in the range. */
  lemma EmployeeMonthTotalsAddUp(es: seq<Entry>, emp: int, monthList: seq<Month>, today: Date)
    requires ReportParams.Consecutive(MonthsOrCurrent(monthList, today))
    requires forall i :: 0 <= i < |es| ==> 1 <= es[i].month.month <= 12
    ensures var ml := MonthsOrCurrent(monthList, today);
      var kept := OfEmployee(InWindow(es, ml[0], ml[|ml| - 1]), emp);
      SumCells(EmployeeMonthTotals(es, emp, monthList, today)) == KeySum(ByEmployeeIdMonth(kept), emp)
  {
    var ml := MonthsOrCurrent(monthList, today);
    var kept := OfEmployee(InWindow(es, ml[0], ml[|ml| - 1]), emp);
    var window := InWindow(es, ml[0], ml[|ml| - 1]);
    var facts := ByEmployeeIdMonth(kept);
    assert EmployeeMonthTotals(es, emp, monthList, today) == Reindex(facts, emp, ml);
    ReportParams.ConsecutiveDistinct(ml);
    assert forall e :: e in kept ==> e in window;
    WindowRecordsListed(es, kept, ml);
    assert forall i :: 0 <= i < |facts| ==> facts[i].col == kept[i].month;
    KeyTotalIsRowSum(facts, emp, ml);
  }
}
