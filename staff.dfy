/** The staff records of pplan/models.py: the staffing table with its
    occupied and vacant counts, the checks Employee.clean and Salary.clean
    run before a record is saved, and the current salary of an employee.
    Dates compare the way Python compares date objects, field by field;
    the current date is a parameter. */
module Staff {
  import opened Dates
  import opened Results

  /** A (division, position) pair of the staffing table; both are unique
      names, so they are modelled as identifiers. */
  datatype Slot = Slot(division: int, position: int)

  /** An Employee row; a missing fire date means the employee is still on the staff. */
  datatype Employee = Employee(
    id: int,
    division: Option<int>,
    position: Option<int>,
    hire: Date,
    fire: Option<Date>,
    birthday: Option<Date>,
    businessK: real)

  /** A Salary row: the amount paid to an employee from its start date on. */
  datatype Salary = Salary(employee: int, amount: int, start: Date)

  /** The ValidationErrors the checks raise. */
  datatype Problem =
    | NoSuchPosition      // the staffing table has no row for the pair
    | PositionsTaken      // every position of the pair is occupied
    | FiredBeforeHired
    | BornAfterFired
    | BornAfterHired
    | SalaryBeforeHire
    | SalaryAfterFire

  /** a < c on dates. */
  predicate Before(a: Date, c: Date) {
    !DateLe(c, a)
  }

  function SlotOf(e: Employee): Option<Slot> {
    if e.division.Some? && e.position.Some? then Some(Slot(e.division.value, e.position.value)) else None
  }

  /** Counted as working on day today: exclude(fire_date__lt=today()) keeps
      a null fire date and a fire date on or after today. */
  predicate Working(e: Employee, today: Date) {
    e.fire.None? || !Before(e.fire.value, today)
  }

  /** The stored employees StaffingTable.occupied counts for a slot. */
  function Holders(staff: map<int, Employee>, s: Slot, today: Date): set<int> {
    set id | id in staff && SlotOf(staff[id]) == Some(s) && Working(staff[id], today)
  }

  /** StaffingTable.occupied */
  function Occupied(staff: map<int, Employee>, s: Slot, today: Date): nat {
    |Holders(staff, s, today)|
  }

  /** StaffingTable.vacant: positions of the slot minus the employees holding one. */
  function Vacant(table: map<Slot, int>, staff: map<int, Employee>, s: Slot, today: Date): (v: int)
    requires s in table
    ensures v + Occupied(staff, s, today) == table[s]
  {
    table[s] - Occupied(staff, s, today)
  }

  // ---------------------------------------------------------------------------
  // Employee._validate_position

  /** 1 when the stored row with the employee's id already has the
      employee's division and position, else 0; a new employee has no
      stored row. */
  function StoredInSlot(staff: map<int, Employee>, e: Employee, s: Slot): nat {
    if e.id in staff && SlotOf(staff[e.id]) == Some(s) then 1 else 0
  }

  /** _validate_position as written: the stored row counts as already
      holding the slot even when that employee has been fired, although
      occupied does not count a fired employee. */
  function ValidatePosition(e: Employee, staff: map<int, Employee>, table: map<Slot, int>, today: Date): Option<Problem> {
    match SlotOf(e)
    case None => None
    case Some(s) =>
      if s !in table then Some(NoSuchPosition)
      else if Vacant(table, staff, s, today) + StoredInSlot(staff, e, s) > 0 then None
      else Some(PositionsTaken)
  }

  /** The check as intended: only an employee counted by occupied frees
      the position it is saved into. */
  function ValidatePositionFixed(e: Employee, staff: map<int, Employee>, table: map<Slot, int>, today: Date): Option<Problem> {
    match SlotOf(e)
    case None => None
    case Some(s) =>
      if s !in table then Some(NoSuchPosition)
      else if Vacant(table, staff, s, today) + (if e.id in Holders(staff, s, today) then 1 else 0) > 0 then None
      else Some(PositionsTaken)
  }

  /** No slot of the table holds more working employees than it has positions. */
  predicate WithinCapacity(staff: map<int, Employee>, table: map<Slot, int>, today: Date) {
    forall s :: s in table ==> Occupied(staff, s, today) <= table[s]
  }

  /** The table is within capacity exactly when no slot has a negative vacancy. */
  lemma CapacityIsNoNegativeVacancy(staff: map<int, Employee>, table: map<Slot, int>, today: Date)
    ensures WithinCapacity(staff, table, today) <==> forall s :: s in table ==> Vacant(table, staff, s, today) >= 0
  {
  }

  /** Saving a working employee into a slot it did not hold takes exactly
      one vacancy of that slot and leaves every other slot's vacancy alone
      when the employee held no slot before. */
  lemma {:induction false} VacantAfterHire(table: map<Slot, int>, staff: map<int, Employee>, e: Employee, s: Slot, today: Date)
    requires s in table && SlotOf(e) == Some(s) && Working(e, today)
    requires e.id !in Holders(staff, s, today)
    ensures Vacant(table, staff[e.id := e], s, today) == Vacant(table, staff, s, today) - 1
    ensures forall t :: t in table && t != s && (e.id in staff ==> SlotOf(staff[e.id]).None?) ==>
      Vacant(table, staff[e.id := e], t, today) == Vacant(table, staff, t, today)
  {
    assert Holders(staff[e.id := e], s, today) == Holders(staff, s, today) + {e.id};
    forall t | t in table && t != s && (e.id in staff ==> SlotOf(staff[e.id]).None?)
      ensures Vacant(table, staff[e.id := e], t, today) == Vacant(table, staff, t, today)
    {
      assert Holders(staff[e.id := e], t, today) == Holders(staff, t, today);
    }
  }

  /** The outcome of the position check: an employee without a division or
      a position always passes; otherwise the slot must exist, and the
      check passes exactly when a position is vacant or the stored row
      already occupies the slot. */
  lemma ValidatePositionSpec(e: Employee, staff: map<int, Employee>, table: map<Slot, int>, today: Date)
    ensures SlotOf(e).None? ==> ValidatePosition(e, staff, table, today).None?
    ensures SlotOf(e).Some? && SlotOf(e).value !in table ==> ValidatePosition(e, staff, table, today) == Some(NoSuchPosition)
    ensures SlotOf(e).Some? && SlotOf(e).value in table ==>
      (ValidatePosition(e, staff, table, today).None? <==>
        Occupied(staff, SlotOf(e).value, today) < table[SlotOf(e).value] ||
        (Occupied(staff, SlotOf(e).value, today) == table[SlotOf(e).value] && StoredInSlot(staff, e, SlotOf(e).value) == 1))
    ensures ValidatePosition(e, staff, table, today) != Some(FiredBeforeHired)
  {
  }

  /** A subset is no larger than its superset. */
  lemma SubsetCard(a: set<int>, b: set<int>)
    requires a <= b
    ensures |a| <= |b|
  {
    var rest := b - a;
    assert a + rest == b;
    assert a * rest == {};
  }

  /** Saving e changes only whether e.id holds a slot. */
  lemma HoldersAfterSave(staff: map<int, Employee>, e: Employee, s: Slot, today: Date)
    ensures Holders(staff[e.id := e], s, today) <= Holders(staff, s, today) + {e.id}
    ensures e.id in Holders(staff, s, today) ==> Holders(staff[e.id := e], s, today) <= Holders(staff, s, today)
    ensures SlotOf(e) != Some(s) ==> Holders(staff[e.id := e], s, today) <= Holders(staff, s, today)
  {
  }

  /** The intended check keeps the staffing table within capacity: if every
      slot was within its count before, it still is after saving an
      employee that passed the check. */
  lemma ValidatePositionFixedKeepsCapacity(e: Employee, staff: map<int, Employee>, table: map<Slot, int>, today: Date)
    requires WithinCapacity(staff, table, today)
    requires ValidatePositionFixed(e, staff, table, today).None?
    ensures WithinCapacity(staff[e.id := e], table, today)
  {
    var staff' := staff[e.id := e];
    forall s | s in table
      ensures Occupied(staff', s, today) <= table[s]
    {
      var h := Holders(staff, s, today);
      var h' := Holders(staff', s, today);
      HoldersAfterSave(staff, e, s, today);
      if SlotOf(e) == Some(s) && e.id !in h {
        SubsetCard(h', h + {e.id});
        assert |h + {e.id}| == |h| + 1;
      } else {
        SubsetCard(h', h);
      }
    }
  }

  /** The intended check is the stricter one, and the two disagree only
      when the stored row of the employee sits in the slot but is fired. */
  lemma ValidatePositionFixedIsStricter(e: Employee, staff: map<int, Employee>, table: map<Slot, int>, today: Date)
    ensures ValidatePositionFixed(e, staff, table, today).None? ==> ValidatePosition(e, staff, table, today).None?
    ensures ValidatePositionFixed(e, staff, table, today) != ValidatePosition(e, staff, table, today) ==>
      e.id in staff && SlotOf(staff[e.id]) == SlotOf(e) && !Working(staff[e.id], today)
  {
  }

  /** The check as written lets a full slot overflow: slot (1, 1) has one
      position, held by employee 1; employee 2 was in the same slot but
      fired in 2019.  Saving employee 2 with the fire date cleared passes
      the check, and the slot then has two working employees. */
  lemma ValidatePositionAdmitsOverflow()
    ensures var today := Date(2020, 6, 1);
      var s := Slot(1, 1);
      var table := map[s := 1];
      var y := Employee(1, Some(1), Some(1), Date(2019, 1, 10), None, None, 0.5);
      var x := Employee(2, Some(1), Some(1), Date(2018, 3, 1), Some(Date(2019, 1, 9)), None, 0.5);
      var staff := map[1 := y, 2 := x];
      var x' := x.(fire := None);
      && WithinCapacity(staff, table, today)
      && ValidatePosition(x', staff, table, today).None?
      && Occupied(staff[2 := x'], s, today) == 2 > table[s]
      && ValidatePositionFixed(x', staff, table, today) == Some(PositionsTaken)
  {
    var today := Date(2020, 6, 1);
    var s := Slot(1, 1);
    var table := map[s := 1];
    var y := Employee(1, Some(1), Some(1), Date(2019, 1, 10), None, None, 0.5);
    var x := Employee(2, Some(1), Some(1), Date(2018, 3, 1), Some(Date(2019, 1, 9)), None, 0.5);
    var staff := map[1 := y, 2 := x];
    var x' := x.(fire := None);
    assert Holders(staff, s, today) == {1};
    assert Holders(staff[2 := x'], s, today) == {1, 2};
    forall t | t in table
      ensures Occupied(staff, t, today) <= table[t]
    {
      assert t == s;
    }
  }

  // ---------------------------------------------------------------------------
  // Employee._validate_fire_date, _validate_birthday, clean

  /** fire_date < hire_date is an error; a missing fire date skips the check. */
  function ValidateFireDate(e: Employee): (p: Option<Problem>)
    ensures p.None? <==> e.fire.None? || DateLe(e.hire, e.fire.value)
  {
    if e.fire.Some? && Before(e.fire.value, e.hire) then Some(FiredBeforeHired) else None
  }

  /** A birthday after the fire date is an error, checked first; then a
      birthday after the hire date.  A missing date skips its check. */
  function ValidateBirthday(e: Employee): (p: Option<Problem>)
    ensures p.None? <==>
      (e.birthday.None? || (DateLe(e.birthday.value, e.hire) && (e.fire.None? || DateLe(e.birthday.value, e.fire.value))))
    ensures p == Some(BornAfterHired) ==> e.fire.None? || DateLe(e.birthday.value, e.fire.value)
  {
    if e.birthday.Some? && e.fire.Some? && Before(e.fire.value, e.birthday.value) then Some(BornAfterFired)
    else if e.birthday.Some? && Before(e.hire, e.birthday.value) then Some(BornAfterHired)
    else None
  }

  /** Employee.clean: the position check, then the fire date, then the
      birthday; the first failing check decides the error. */
  function Clean(e: Employee, staff: map<int, Employee>, table: map<Slot, int>, today: Date): Option<Problem> {
    var p := ValidatePosition(e, staff, table, today);
    if p.Some? then p
    else
      var f := ValidateFireDate(e);
      if f.Some? then f else ValidateBirthday(e)
  }

  /** A record that passes clean has its dates in life order: born no later
      than hired, hired no later than fired, and each present date on a
      valid day count no later than the next one. */
  lemma CleanOrdersDates(e: Employee, staff: map<int, Employee>, table: map<Slot, int>, today: Date)
    requires Clean(e, staff, table, today).None?
    requires ValidDate(e.hire)
    requires e.fire.Some? ==> ValidDate(e.fire.value)
    requires e.birthday.Some? ==> ValidDate(e.birthday.value)
    ensures e.fire.Some? ==> Ordinal(e.hire) <= Ordinal(e.fire.value)
    ensures e.birthday.Some? ==> Ordinal(e.birthday.value) <= Ordinal(e.hire)
  {
    if e.fire.Some? {
      DateLeIsOrdinalLe(e.hire, e.fire.value);
    }
    if e.birthday.Some? {
      DateLeIsOrdinalLe(e.birthday.value, e.hire);
    }
  }

  /** With no position to check, clean passes exactly when the dates are in
      life order; a record that fails reports the first check it fails. */
  lemma CleanDatesOnly(e: Employee, staff: map<int, Employee>, table: map<Slot, int>, today: Date)
    requires SlotOf(e).None?
    ensures Clean(e, staff, table, today).None? <==>
      (e.fire.None? || DateLe(e.hire, e.fire.value)) &&
      (e.birthday.None? || DateLe(e.birthday.value, e.hire))
    ensures e.fire.Some? && Before(e.fire.value, e.hire) ==> Clean(e, staff, table, today) == Some(FiredBeforeHired)
  {
  }

  // ---------------------------------------------------------------------------
  // Salary.clean and Employee.salary

  /** On the payroll of e on day d: hired on or before d and not fired on or before d. */
  predicate Employed(e: Employee, d: Date) {
    DateLe(e.hire, d) && (e.fire.None? || Before(d, e.fire.value))
  }

  /** Salary.clean: a start before the hire date is an error, checked
      first; then a start on or after the fire date, skipped when there is
      none. */
  function SalaryClean(s: Salary, e: Employee): (p: Option<Problem>)
    ensures p.None? <==> Employed(e, s.start)
    ensures p == Some(SalaryAfterFire) ==> DateLe(e.hire, s.start)
  {
    if Before(s.start, e.hire) then Some(SalaryBeforeHire)
    else if e.fire.Some? && !Before(s.start, e.fire.value) then Some(SalaryAfterFire)
    else None
  }

  /** An accepted salary starts while the employee is counted as working. */
  lemma AcceptedSalaryStartsWhileWorking(s: Salary, e: Employee)
    requires SalaryClean(s, e).None?
    ensures Working(e, s.start)
  {
  }

  /** Applies to employee emp and starts no later than until, when given. */
  predicate Eligible(s: Salary, emp: int, until: Option<Date>) {
    s.employee == emp && (until.None? || DateLe(s.start, until.value))
  }

  /** The salary row of emp with the latest start date (no later than until,
      when given): salary_set.latest(), or the first row per employee in
      the ('-start_date', 'employee') order after filtering start_date <= until.
      Start dates of one employee are unique. */
  function LatestSalary(salaries: seq<Salary>, emp: int, until: Option<Date>): Option<Salary> {
    if |salaries| == 0 then None
    else
      var s := salaries[|salaries| - 1];
      var rest := LatestSalary(salaries[..|salaries| - 1], emp, until);
      if Eligible(s, emp, until) && (rest.None? || DateLe(rest.value.start, s.start)) then Some(s) else rest
  }

  /** The latest salary exists iff some row is eligible, is one of the
      eligible rows, and starts no earlier than any of them. */
  lemma {:induction false} LatestSalarySpec(salaries: seq<Salary>, emp: int, until: Option<Date>)
    ensures LatestSalary(salaries, emp, until).Some? <==> exists i :: 0 <= i < |salaries| && Eligible(salaries[i], emp, until)
    ensures LatestSalary(salaries, emp, until).Some? ==>
      LatestSalary(salaries, emp, until).value in salaries &&
      Eligible(LatestSalary(salaries, emp, until).value, emp, until) &&
      forall i :: 0 <= i < |salaries| && Eligible(salaries[i], emp, until) ==>
        DateLe(salaries[i].start, LatestSalary(salaries, emp, until).value.start)
  {
    if |salaries| > 0 {
      var p := salaries[..|salaries| - 1];
      LatestSalarySpec(p, emp, until);
      assert forall i :: 0 <= i < |p| ==> p[i] == salaries[i];
      var r := LatestSalary(salaries, emp, until);
      if exists i :: 0 <= i < |p| && Eligible(p[i], emp, until) {
        var i :| 0 <= i < |p| && Eligible(p[i], emp, until);
        assert salaries[i] == p[i];
      }
    }
  }

  /** Employee.salary: the amount of the latest salary row, or None. */
  function CurrentSalary(salaries: seq<Salary>, emp: int): (a: Option<int>)
    ensures a.Some? <==> exists i :: 0 <= i < |salaries| && salaries[i].employee == emp
    ensures a.Some? ==>
      exists i :: 0 <= i < |salaries| && salaries[i].employee == emp && a.value == salaries[i].amount &&
        forall j :: 0 <= j < |salaries| && salaries[j].employee == emp ==> DateLe(salaries[j].start, salaries[i].start)
  {
    LatestSalarySpec(salaries, emp, None);
    var s := LatestSalary(salaries, emp, None);
    if s.Some? then
      var i :| 0 <= i < |salaries| && salaries[i] == s.value;
      assert forall j :: 0 <= j < |salaries| && salaries[j].employee == emp ==> Eligible(salaries[j], emp, None);
      Some(s.value.amount)
    else None
  }
}
