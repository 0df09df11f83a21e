# Branch back-office: calendar, booking and workload model

This project models the computational core of a Django back-office that
plans people's work across projects. Dafny proves properties of the model.

- **Production calendar** (`workdays`): holidays, shortened days and working
  weekends override a Saturday/Sunday weekend. The calendar counts
  workdays, non-workdays and work hours over a date range, and builds the
  yearly norms report (12 months, 4 quarters and the year). The holiday
  reference publishes its holidays into the calendar of a year.
- **Planning** (`pplan`):
  - staff records and their validators;
  - the staffing table's vacancies;
  - salaries;
  - a project member's plan window, volume and percent;
  - the `update_month_booking` receiver, which rewrites the MonthBooking rows
    of a booking each time it is saved (one row per calendar month, holding
    the booking's working days, volume and load in that month);
  - an employee's month totals.
- **Reports** (`pplan/admin.py`, `pstat`): pandas group-sum-reindex reports
  over MonthBooking rows:
  - per employee and month;
  - per employee and project, with an optional salary cost;
  - per project and month for one employee, with a total row.
- **Jira workload** (`jiradata`): hours of worklogs, the value of a custom
  field, and one user's worklogs summed per budget and month, with a
  total row.

Dates are proleptic Gregorian day ordinals, as in Python's `date.toordinal()`.
A month is a (year, month) pair with a linear index. Numbers are
mathematical integers and reals.

| file | module | models |
|---|---|---|
| results.dfy | Results | `None`/values and raised exceptions |
| dates.dfy | Dates | `date`, `toordinal`, `weekday`, `monthdelta` on first-of-month dates |
| calendar.dfy | WorkCalendar | workdays/models.py, workdays/utils.py |
| publish.dfy | HolidayPublishing | workdays/admin.py (publishing holidays, in place) |
| plandays.dfy | PlanDays | pplan/datautils.py |
| monthbooking.dfy | MonthBookings | Booking, MonthBooking, `update_month_booking` (in place) |
| members.dfy | Members | ProjectMember plan summaries |
| staff.dfy | Staff | StaffingTable, Employee and Salary validators, current salary |
| aggregate.dfy | Aggregation | the shared group-sum-reindex pipeline |
| reportparams.dfy | ReportParams | month lists and filter values of the booking reports |
| reports.dfy | Reports | the booking reports and EmployeeBooking.booking |
| worklogs.dfy | Worklogs | jiradata/models.py |

The model follows the code where the code and its description disagree:

- `update_month_booking` counts working days with the weekend-only
  `workdays` of pplan/datautils.py. It does not consult the holiday calendar.
- No validator orders a booking's start and finish dates. The receiver is
  therefore modelled for any pair of dates, and `MonthBookings.ExpandReversed`
  states what it writes when they are reversed.
- A worklog whose issue has no budget is dropped by the grouping on budget.
  It does not form an "unassigned" group.

## Model

| member | source | states |
|---|---|---|
| Dates.DaysInMonth | workdays/models.py:27 | the number of days of a month is 28 to 31, and February has 29 exactly in a leap year |
| Dates.Weekday | workdays/utils.py:50 | `weekday()` is a day of the week, 0 (Monday) to 6 |
| Dates.WeekdayNext | workdays/utils.py:71 | the weekday advances by one each day and wraps from Sunday to Monday |
| Dates.DaysBeforeYearIsFormula | workdays/utils.py:53 | the year-by-year day count equals the closed formula of `toordinal`, so ordinal differences are `(todate - fromdate).days` |
| Dates.NextMonth | pplan/models.py:489 | `month + monthdelta(1)` is the month whose linear index is one more, and it is a valid month |
| Dates.AddMonths | pplan/models.py:485 | `start_month + monthdelta(i)` is i months later by linear index, and it is a valid month |
| Dates.ShiftMonths | pplan/admin.py:207 | `monthdelta(k)` for any k, negative included, moves the linear index by k |
| Dates.Last | workdays/utils.py:98 | `month + monthdelta(1) - timedelta(days=1)` is the month's last date, so the month spans exactly its number of days |
| Dates.NextMonthFirst | pplan/models.py:489 | the day after a month's tail is the first day of the next month |
| Dates.MonthOrder | pplan/models.py:485-489 | a month with a larger index lies entirely after an earlier month |
| Dates.DateLeIsOrdinalLe | pplan/models.py:491-492 | comparing dates field by field is comparing their ordinals |
| Dates.DateInMonth | pplan/models.py:481-482 | a date lies between the first and the last day of `date.replace(day=1)`'s month |
| WorkCalendar.CleanHolidayName | workdays/models.py:25-29 | clean succeeds exactly when (month, day) is a date of the current year |
| WorkCalendar.DayTriple | workdays/models.py:59-65 | a special day is a workday or a holiday, never both; HL is the holiday; SH works hours - 1 and WK works hours |
| WorkCalendar.RangeStatBounds | workdays/utils.py:55-79 | over a range, workdays + non-workdays = days(from, to), both are non-negative, and hours lie between 7 and 8 per workday |
| WorkCalendar.WorkdayHolidayHours | workdays/utils.py:55-79 | fails (the IndexError of an empty zip) exactly when from > to; otherwise the counts add up to the range's days, within the hour bounds |
| WorkCalendar.Workdays | workdays/utils.py:81-82 | defined exactly when from <= to, and then between 0 and the number of days |
| WorkCalendar.Holidays | workdays/utils.py:84-85 | defined exactly when from <= to; holidays + workdays = days |
| WorkCalendar.Workhours | workdays/utils.py:87-88 | defined exactly when from <= to; between 7 and 8 hours per workday |
| WorkCalendar.HolidayIffNoWorkday | workdays/utils.py:45-50 | `is_holiday(d)` holds exactly when d counts no workday in `workdays(d, d)` |
| WorkCalendar.RangeSplit | workdays/utils.py:55-79 | the sums over a range are the sums over its two parts |
| WorkCalendar.NoOverridesAgree | workdays/utils.py:67-72 | without special days, the workdays agree with pplan's weekend-only count, at 8 hours each |
| WorkCalendar.DayStatOfBounds | workdays/utils.py:64-72 | every day counts as exactly one workday or one non-workday, with 7 to 8 work hours per workday and none otherwise |
| WorkCalendar.SumSplit | workdays/utils.py:74-77 | the sums of the per-day triples over a range are the sums over its two parts, for any per-day triples |
| WorkCalendar.QuarterAfterIsAddMonths | workdays/utils.py:99 | three single-month steps are `+ monthdelta(3)` |
| WorkCalendar.RangesAt | workdays/utils.py:98-100 | the chained ranges are the twelve months in order, then the quarters from January, April, July and October, then the year |
| WorkCalendar.QuarterIsItsMonths | workdays/utils.py:98-99 | a quarter's range is its three months' ranges laid end to end |
| WorkCalendar.QuarterRangeForward | workdays/utils.py:99 | a quarter range holds at least one day |
| WorkCalendar.QuarterStep | workdays/utils.py:99 | each quarter starts on the day after the previous quarter ends |
| WorkCalendar.LastQuarterEndsYear | workdays/utils.py:99-100 | the October quarter ends on the last day of the year |
| WorkCalendar.YearIsItsQuartersAt | workdays/utils.py:99-100 | the year range is the four quarter ranges laid end to end |
| WorkCalendar.YearRangeLength | workdays/utils.py:100 | the year row spans exactly the days of the year |
| WorkCalendar.RangesTile | workdays/utils.py:96-100 | in every year's chained ranges, each quarter is its three months end to end and the year its four quarters end to end |
| WorkCalendar.ThreeRows | workdays/utils.py:102-107 | the row of three ranges laid end to end adds up their rows, in days and in every sum |
| WorkCalendar.FourRows | workdays/utils.py:102-107 | the row of four ranges laid end to end adds up their rows, in days and in every sum |
| WorkCalendar.TiledRowsAddUp | workdays/utils.py:102-107 | over ranges that nest, whatever the per-day triples, each quarter row adds up its months' rows and the year row its quarters' rows |
| WorkCalendar.RowBalanced | workdays/utils.py:105 | in the row of a range, workdays and holidays add up to its days |
| WorkCalendar.MonthRowAt | workdays/utils.py:98-105 | month row i is named by month i + 1, counts its days, and holds `workdayholidayhours` of that month |
| WorkCalendar.YearRowAt | workdays/utils.py:100-105 | the last row is the year period and counts the days of the year |
| WorkCalendar.StandardsReportAddsUp | workdays/utils.py:96-107 | in the norms report, each quarter row is the sum of its three month rows and the year row the sum of its four quarter rows, in days, workdays, holidays and hours |
| WorkCalendar.StandardsReport | workdays/utils.py:96-107 | a ValueError exactly for a year below 1; otherwise 17 rows, each adding up to its days; the month rows are the months in order with their `workdayholidayhours`, the quarter rows are named by their first months, and the year row counts the days of the year |
| HolidayPublishing.Upsert | workdays/admin.py:23-29 | `update_or_create` makes date d a holiday of that name, keeps its comment, and leaves every other date unchanged |
| HolidayPublishing.SpecialDayTable.PublishOne | workdays/admin.py:22-29 | succeeds exactly when the name's first date exists in the year (or its count is not positive), and then publishes all its days; otherwise the table is unchanged |
| HolidayPublishing.SpecialDayTable.MakePublishedYear | workdays/admin.py:19-30 | succeeds exactly when every name can be published; then the table is the names published in queryset order, otherwise a ValueError and the table as before (the atomic rollback) |
| HolidayPublishing.SpecialDayTable.MakePublished | workdays/admin.py:32-33 | MakePublishedYear for the current year |
| HolidayPublishing.SpecialDayTable.MakePublishedNext | workdays/admin.py:36-37 | MakePublishedYear for the next year |
| HolidayPublishing.PublishDaysAt | workdays/admin.py:22-29 | the first n days of a name become holidays of that name, and every other date keeps its entry |
| HolidayPublishing.PublishNameAt | workdays/admin.py:22-29 | publishing a name makes exactly the dates it covers holidays of that name, keeping their comments; every other date keeps its entry |
| HolidayPublishing.PublishAt | workdays/admin.py:21-29 | publishing agrees date by date with the reference: the last covering name wins, and uncovered dates are kept |
| HolidayPublishing.LastCoverIsLatest | workdays/admin.py:21-29 | the reference picks the latest covering name in queryset order |
| HolidayPublishing.LastCoverNone | workdays/admin.py:21-29 | with no covering name, the reference picks none |
| HolidayPublishing.LaterNameWins | workdays/admin.py:21-29 | when two names cover a date, the later one names the holiday |
| HolidayPublishing.UncoveredUnchanged | workdays/admin.py:21-29 | a date no name covers is present and equal after publishing exactly as before |
| HolidayPublishing.PublishIdempotent | workdays/admin.py:21-29 | publishing the same names twice gives the same table as publishing them once |
| HolidayPublishing.CleanedNamePublishable | workdays/admin.py:24 | a name that passed clean can be published in a year unless it is 29 February in a non-leap year |
| HolidayPublishing.LeapDayNotPublishableNextYear | workdays/admin.py:24 | 29 February passes clean in 2024 but cannot be published for 2025 |
| PlanDays.Workdays | pplan/datautils.py:11-13 | the count is at most the number of days in the range, and 0 for an empty range |
| PlanDays.WorkdaysIsCount | pplan/datautils.py:11-13 | the count equals the size of the set of non-weekend days in the range |
| PlanDays.WorkdaysSplit | pplan/datautils.py:11-13 | splitting a range splits its count |
| PlanDays.WorkdaysMonotone | pplan/datautils.py:11-13 | a sub-range has no more working days |
| PlanDays.WeekHasFiveWorkdays | pplan/datautils.py:11-13 | any 7 consecutive days hold exactly 5 working days under the default weekend |
| PlanDays.MonthHasWorkdays | pplan/datautils.py:11-13 | every month has at least 20 working days |
| PlanDays.Volume | pplan/datautils.py:16-17 | with a load in 0..100, the volume lies between 0 and the number of working days |
| PlanDays.VolumeAdditive | pplan/datautils.py:16-17 | the volume is additive in the number of working days |
| MonthBookings.MonthCount | pplan/models.py:485 | at least one month for an ordered booking, and no month exactly when the finish month precedes the start month |
| MonthBookings.RowIn | pplan/models.py:489-504 | a saved row belongs to the booking and the month, and its volume is `volume(days, load)` |
| MonthBookings.SpanRow | pplan/models.py:489-504 | row i is for month start_month + i, and its volume is `volume(days, load)` |
| MonthBookings.SpanRows | pplan/models.py:485-504 | one row per month of the generator |
| MonthBookings.RowsOf | pplan/models.py:478 | `filter(booking=id)` holds a row exactly when the table holds it with that booking |
| MonthBookings.RowsOfCounts | pplan/models.py:478 | `filter(booking=id)` keeps every row of the booking as many times as the table holds it, and no other row |
| MonthBookings.Without | pplan/models.py:478 | after the delete, the table holds a row exactly when it held it before and the row is of another booking |
| MonthBookings.WithoutCounts | pplan/models.py:478 | the delete keeps every row of another booking as many times as the table held it, and no row of the booking |
| MonthBookings.MonthBookingTable.DeleteBookingRows | pplan/models.py:478 | the table becomes the old table without the booking's rows |
| MonthBookings.MonthBookingTable.SaveMonthRows | pplan/models.py:487-505 | the loop appends exactly the rows for the months of the generator, in order |
| MonthBookings.MonthBookingTable.UpdateMonthBooking | pplan/models.py:472-505 | the table becomes the old table without the booking's rows, followed by its expansion |
| MonthBookings.SpanRowsStep | pplan/models.py:487-505 | the row saved in step k is row k, and the month and first day advance to step k + 1 |
| MonthBookings.MonthDaysPositive | pplan/models.py:496 | the divisor `workdays(month, monthtail)` is never zero |
| MonthBookings.RowBounds | pplan/models.py:489-496 | a month row has no more days than its month has working days, and its load lies between 0 and the booking load |
| MonthBookings.ShareBounds | pplan/models.py:496 | a share of at most the whole, times a non-negative load, is at most that load |
| MonthBookings.WindowWithinMonth | pplan/models.py:491-494 | a window inside a month has no more working days than the month |
| MonthBookings.SpanOfBooking | pplan/models.py:481-485 | the start lies in the start month, and the finish lies no later than the last month's tail |
| MonthBookings.FinishInLastMonth | pplan/models.py:482-485 | the finish date lies in the last generated month |
| MonthBookings.ExpandRowIsRow | pplan/models.py:487-504 | row i is the booking clipped to the window of month start_month + i |
| MonthBookings.SpanRowIsWindow | pplan/models.py:489-494 | the i-th window the loop walks is the whole of calendar month start_month + i |
| MonthBookings.ExpandMonths | pplan/models.py:481-485 | one row per month, from `start_date.replace(day=1)` to `finish_date.replace(day=1)`, in consecutive order |
| MonthBookings.ExpandDays | pplan/models.py:485-494 | the rows' days add up to `workdays(start_date, finish_date)` |
| MonthBookings.SumVolumeOfDays | pplan/models.py:495 | rows of one load have volumes adding up to the volume of their days |
| MonthBookings.ExpandVolume | pplan/models.py:494-495 | the rows' volumes add up to the booking's volume |
| MonthBookings.ExpandLoads | pplan/models.py:496 | each row is its month's window, and each month load lies between 0 and the booking load |
| MonthBookings.ExpandBookings | pplan/models.py:499-504 | every row saved belongs to the booking |
| MonthBookings.ExpandReversed | pplan/models.py:485-494 | a booking finishing before it starts gets one zero-day, zero-volume row when both dates share a month, and no row otherwise |
| MonthBookings.WithoutKeepsOthers | pplan/models.py:478 | the delete leaves every other booking's rows, in order |
| MonthBookings.UpdatedRows | pplan/models.py:472-505 | after the receiver, the booking's rows are exactly its expansion, and other bookings' rows are unchanged |
| MonthBookings.WithoutUpdated | pplan/models.py:478 | deleting the booking's rows after the receiver gives the table without them as before |
| MonthBookings.UpdateIdempotent | pplan/models.py:472-505 | running the receiver twice on an unchanged booking gives the same table as running it once |
| MonthBookings.WithoutTwice | pplan/models.py:478 | deleting twice is deleting once |
| Members.WindowDated | pplan/models.py:374-386 | the start and finish dates, when they exist, are dates of bookings |
| Members.StartDateSpec | pplan/models.py:374-379 | a start date exists exactly when there is a plan booking, and it is the earliest start of the member's plan bookings |
| Members.FinishDateSpec | pplan/models.py:381-386 | a finish date exists exactly when there is a plan booking, and it is the latest finish of the member's plan bookings |
| Members.WindowExists | pplan/models.py:346-352 | both ends of the window exist exactly when there is a plan booking |
| Members.WindowOrdered | pplan/models.py:346-352 | with ordered plan bookings, start_date() <= finish_date() |
| Members.MemberVolumeIsMonthVolume | pplan/models.py:388-390 | the member's volume is the volume of the month rows of its plan bookings |
| Members.PercentWithoutPlan | pplan/models.py:358-362 | without plan bookings, the TypeError makes the percent 0 |
| Members.PercentWithPlan | pplan/models.py:358-362 | with plan bookings, the percent fails exactly when the window has no working day, and is otherwise volume / workdays * 100 |
| Members.VolumeShare | pplan/datautils.py:16-17 | a volume spread back over its own working days gives its load |
| Members.PercentOfSingleBooking | pplan/models.py:358-362 | a member with one plan booking that has working days is loaded at that booking's load |
| Staff.Vacant | pplan/models.py:82-83 | vacancies plus occupied positions equal the positions of the slot |
| Staff.CapacityIsNoNegativeVacancy | pplan/models.py:82-83 | no slot holds more working employees than its positions exactly when no slot has a negative vacancy |
| Staff.VacantAfterHire | pplan/models.py:77-83 | saving a working employee into a slot it did not hold takes exactly one vacancy of that slot, and no other slot's vacancy changes when it held no slot before |
| Staff.ValidatePositionSpec | pplan/models.py:143-154 | an employee without a division or position passes; a slot missing from the table gives the no-such-position error; otherwise the check passes exactly when a position is vacant, or the slot is exactly full and the stored row is already in the slot; it never reports a date error |
| Staff.HoldersAfterSave | pplan/models.py:77-79 | saving an employee changes only whether that employee holds a slot |
| Staff.ValidatePositionFixedKeepsCapacity | pplan/models.py:143-154 | the corrected check never lets a slot hold more working employees than it has positions |
| Staff.ValidatePositionFixedIsStricter | pplan/models.py:148-151 | the corrected check passes only when the written one does, and they differ only for a stored row that is in the slot but fired |
| Staff.ValidatePositionAdmitsOverflow | pplan/models.py:149-151 | re-hiring a fired employee into a full slot passes the written check and overfills the slot |
| Staff.ValidateFireDate | pplan/models.py:156-161 | passes exactly when there is no fire date or it is not before the hire date |
| Staff.ValidateBirthday | pplan/models.py:163-173 | passes exactly when the birthday, if any, is after neither the fire date nor the hire date; the fire-date error comes first |
| Staff.CleanOrdersDates | pplan/models.py:138-141 | a record that passes clean is born no later than hired, and hired no later than fired |
| Staff.CleanDatesOnly | pplan/models.py:138-141 | without a slot, clean passes exactly when the dates are ordered, and reports a fire date before the hire date first |
| Staff.SalaryClean | pplan/models.py:196-205 | passes exactly when the start date is on or after the hire date and before the fire date |
| Staff.AcceptedSalaryStartsWhileWorking | pplan/models.py:196-205 | an accepted salary starts while the employee is counted as working |
| Staff.LatestSalarySpec | pplan/models.py:121-126 | the latest salary exists exactly when some row applies; it is such a row, and no applicable row starts later |
| Staff.CurrentSalary | pplan/models.py:121-126 | `salary()` is a value exactly when the employee has a salary row, and then it is the amount of a row of the employee that no other row of the employee starts after |
| Aggregation.Reindex | pplan/admin.py:246 | `reindex` gives one cell per listed column |
| Aggregation.RowsFor | pplan/admin.py:242-255 | one output row per key |
| Aggregation.Totals | pstat/models.py:216 | the total row has one cell per listed month |
| Aggregation.KeysSpec | pplan/admin.py:254 | the groups are the distinct keys of the records, each exactly once |
| Aggregation.CellSumZero | pplan/admin.py:246 | a (key, column) pair with no records reads as the fill value 0 |
| Aggregation.CellSumAppend | pplan/admin.py:236 | a record counts in its own (key, column) sum and in no other |
| Aggregation.SummaryShape | pplan/admin.py:233-255 | no rows for no records; otherwise one row per distinct key, each key of the records has a row, and cell i is the key's sum in column i |
| Aggregation.OutsideColumnIgnored | pplan/admin.py:246 | a record in a column outside the list changes no row |
| Aggregation.KeysPartitionColumn | pstat/models.py:216 | over distinct keys that cover the records, the keys' cells of a column add up to the column's total |
| Aggregation.TotalsAreRowSums | pstat/models.py:214-217 | entry i of the total row is the sum of entry i over all rows |
| Aggregation.TotalRowAddsUp | pstat/models.py:214-217 | every row has one cell per listed month, and every entry of the total row is its column sum |
| Aggregation.ColsPartitionKey | pplan/admin.py:373 | over distinct columns that cover the records, a key's cells add up to the key's total |
| Aggregation.KeyTotalIsRowSum | pplan/admin.py:372-373 | with distinct columns covering every record, a key's `booking.sum()` is the sum of its reindexed row |
| Aggregation.KeyTotalCountsUnlisted | pplan/admin.py:372-373 | a record outside the listed columns counts in the key's total but in none of its row's cells |
| Aggregation.ScaledSums | pplan/admin.py:352-360 | when each record of a key has its first measure scaled by s, that key's sum in every column is scaled by s |
| Reports.InWindow | pplan/admin.py:212 | `month__range=(first, last)` keeps exactly the records whose month lies between the two, inclusive |
| Reports.InWindowCounts | pplan/admin.py:212 | the range filter keeps each record of the window as many times as the table holds it, and nothing else |
| Reports.OfEmployee | pstat/models.py:178-181 | keeps exactly the records of the employee |
| Reports.OfEmployeeCounts | pstat/models.py:178-181 | keeps each record of the employee as many times as the table holds it, and nothing else |
| Reports.InMonth | pplan/admin.py:313 | `month__exact` keeps exactly the records of that month |
| Reports.InMonthCounts | pplan/admin.py:313 | keeps each record of the month as many times as the table holds it, and nothing else |
| Reports.MonthSummary | pplan/admin.py:222-255 | no rows for no records; otherwise one row per distinct employee, every employee has one, and entry i sums the employee's load and volume in month_list[i] |
| Reports.MonthSummaryZeroFill | pplan/admin.py:246 | an employee with no records in a month gets zeros there |
| Reports.MonthSummaryIgnoresOtherMonths | pplan/admin.py:246 | a record of an unlisted month changes no row of an employee that already has one |
| Reports.MonthReport | pplan/admin.py:191-219 | the report's columns are the 18-month list of the year filter, or the one around today |
| Reports.WindowRecordsListed | pplan/admin.py:209-212 | the records the range filter keeps all fall in listed months |
| Reports.MonthReportKeepsTotals | pplan/admin.py:204-215 | each employee row adds up to all of that employee's load and volume within the window |
| Reports.ProjectReport | pplan/admin.py:324-375 | no rows for no records; otherwise one row per distinct employee, with load and volume per listed project, the employee's total, and a cost column exactly when a salary month is given, holding per project and in total the sum of each record's cost at its employee's salary rate for that month |
| Reports.ProjectTotalIsRowSum | pplan/admin.py:367-375 | with distinct listed projects that cover the records, each total is the sum of its row |
| Reports.CostIsLoadTimesRate | pplan/admin.py:338-360 | an employee's cost in a project is its load there times amount * business_k / 100 |
| Reports.RateOfLatest | pplan/admin.py:340-352 | the rate joined to an employee's records is the amount of the latest salary row starting on or before the salary month, times the employee's business_k |
| Reports.ProjectCostIsLoadTimesSalary | pplan/admin.py:338-375 | when a row's records are one employee's, each listed project's cost is the load there times amount * business_k / 100 of the latest salary row on or before the salary month |
| Reports.ProjectMonthReport | pplan/admin.py:285-321 | an OverflowError of the month selection escapes the report; otherwise the month is the one the filters select, and the project list holds exactly that month's projects, sorted and without repeats |
| Reports.ProjectMonthReportAddsUp | pplan/admin.py:312-318 | in the admin's project report, when it is produced, every row adds up to its total, and every row carries a cost |
| Reports.EmployeeMonths | pstat/models.py:176-217 | ([], None) exactly when nothing is kept; otherwise a total row and one row per distinct project of the kept records, no project twice, each holding its sums per listed month; the total row's entry i sums entry i over the rows |
| Reports.ProjectSummaryCovers | pstat/models.py:190-217 | every row is a project of the kept records, every project of the records has a row, and the total row is the column sums of the rows |
| Reports.MonthsOrCurrent | pplan/models.py:540 | the month list used is never empty |
| Reports.EmployeeMonthTotals | pplan/models.py:539-554 | one entry per listed month, holding the employee's load and volume in that month within the range, 0 where there are none |
| Reports.EmployeeMonthTotalsAddUp | pplan/models.py:542-554 | for consecutive months, the entries add up to everything the employee has within the range |
| ReportParams.MonthList | pplan/admin.py:204-209 | 18 consecutive months: from January of the filtered year, or from six months before the current month |
| ReportParams.MonthListPlacesToday | pplan/admin.py:207-209 | without a year filter, the current month is the seventh column |
| ReportParams.WindowIsListed | pplan/admin.py:209-212 | for a consecutive list, lying within `month__range=(first, last)` is being listed |
| ReportParams.ConsecutiveDistinct | pplan/admin.py:209 | the month list repeats no month |
| ReportParams.ToAscii | pplan/admin.py:303 | `int()` reads every character as an ASCII one, and an ASCII character as itself |
| ReportParams.ParseIntRoundTrip | pplan/admin.py:303 | `int(str(n)) == n` for every integer of at most 4300 digits |
| ReportParams.ParseIntRejects | pplan/admin.py:303-304 | a character that belongs to no number (in any script), or the absence of any decimal digit, raises ValueError |
| ReportParams.ParseIntOtherScript | pplan/admin.py:303 | Arabic-Indic digits are read by their values: two, zero, two, zero in that script is 2020 |
| ReportParams.ParseIntSkipsBlanks | pplan/admin.py:303 | whitespace of any script around a value does not change what `int()` reads |
| ReportParams.ParseIntGrouping | pplan/admin.py:303 | a single underscore between two runs of digits is skipped |
| ReportParams.ParseIntDoubleUnderscore | pplan/admin.py:303-304 | two underscores in a row raise ValueError |
| ReportParams.Replacement | pplan/admin.py:302-305 | OverflowError exactly when `int()` reads a number outside the C int range; otherwise the field is replaced exactly when `int()` reads a number within the field's range, and by that number |
| ReportParams.SelectedMonth | pplan/admin.py:299-310 | OverflowError exactly when either filter reads as a number outside the C int range; otherwise a real month |
| ReportParams.SelectedMonthOfRendered | pplan/admin.py:302-310 | filter values rendered from a year and a month select that month |
| ReportParams.SelectedMonthFallsBack | pplan/admin.py:302-310 | when no OverflowError escapes, each field is its filter's number if that is usable (year 1..9999, month 1..12), and otherwise the current month's |
| ReportParams.SelectedMonthOverflow | pplan/admin.py:302-305 | a year filter of 2147483648 escapes as OverflowError, while 2147483647 (a ValueError) leaves the current month |
| ReportParams.LessIrreflexive | pplan/admin.py:314 | no string sorts before itself |
| ReportParams.LessTransitive | pplan/admin.py:314 | the string order is transitive |
| ReportParams.LessTotal | pplan/admin.py:314 | of two different strings, one sorts first |
| ReportParams.InsertSpec | pplan/admin.py:314 | inserting keeps the list strictly sorted, with the old elements and the new one |
| ReportParams.SortedSet | pplan/admin.py:314-315 | `sorted(set(xs))` is strictly sorted and holds exactly the elements of xs |
| ReportParams.SortedIsDistinct | pplan/admin.py:314-315 | a strictly sorted list repeats nothing |
| Worklogs.Hours | jiradata/models.py:147-148 | hours * 3600 is the seconds worked, and 0 for NULL |
| Worklogs.HoursAdditive | jiradata/models.py:147-148 | hours add up as the seconds do, NULL and 0 seconds are 0 hours, non-negative seconds give non-negative hours, and 3600 seconds are one hour |
| Worklogs.Value | jiradata/models.py:204-206 | the first truthy of number, string and date, else the text field as it is |
| Worklogs.ValueIsAField | jiradata/models.py:204-206 | the value is one of the row's own fields, and it is falsy exactly when every field is |
| Worklogs.Kept | jiradata/models.py:269-272 | keeps exactly the user's worklogs from the first month to the first day after the last month |
| Worklogs.KeptCounts | jiradata/models.py:269-272 | keeps each selected worklog as many times as the table holds it, and nothing else |
| Worklogs.Load | jiradata/models.py:299-305 | in a month without a norm, a worklog's load is -1 (the error mark) exactly when it has hours, and 0 otherwise |
| Worklogs.Budgeted | jiradata/models.py:286-310 | keeps exactly the worklogs whose issue has a budget |
| Worklogs.BudgetedCounts | jiradata/models.py:286-310 | keeps each worklog with a budget as many times as the table holds it, and nothing else |
| Worklogs.BudgetFacts | jiradata/models.py:293-310 | each record carries its issue's budget, its month and its measures |
| Worklogs.GetWorkload | jiradata/models.py:267-330 | ([], None) exactly when no worklog is kept, and a total row whenever one is; distinct budget rows whose entry i sums hours and load in month_list[i]; the total row's entry i is the column sum |
| Worklogs.GetWorkloadAsWritten | jiradata/models.py:301-305 | as written, the call raises TypeError exactly when worklogs are kept and a norm map is given; otherwise it is the report |
| Worklogs.LoadColumnRaises | jiradata/models.py:301-305 | 4 hours against a norm of 8 is intended to read 50 %, but the written code raises |
| Worklogs.WorkloadBudgets | jiradata/models.py:310-325 | there is a row for each budget of the kept worklogs' issues, and for no other |
| Worklogs.BudgetRows | jiradata/models.py:310-324 | the frame's rows are exactly the budgets of the worklogs' issues |
| Worklogs.ListedMonthsAreKept | jiradata/models.py:269-272 | every worklog of the user in a listed month is kept |
| Worklogs.KeptAreListedOrBoundary | jiradata/models.py:269-272 | a kept worklog lies in a listed month, or exactly at midnight after the last one |
| Worklogs.BoundaryWorklogCountsNowhere | jiradata/models.py:269-272 | the boundary worklog's month is not listed, so it counts only in the total of no row |
| Worklogs.LoadIsHoursOverNorm | jiradata/models.py:301-310 | if every record of month m has load * norm = hours * 100, so does every budget's sum |
| Worklogs.EachFactCarriesLoad | jiradata/models.py:301-305 | with a norm for month m, every record of m has load * norm = hours * 100 |
| Worklogs.MeasureLoad | jiradata/models.py:303 | one worklog of a month with a norm has load * norm = hours * 100 |

## Left out

- The ORM, the admin screens, templates, permissions and list filters are
  not modelled. Queries are sequences of records, and the clock (`today()`,
  `timezone.now()`) is a parameter.
- The Jira database lookups are a parameter:
  - `BudgetCustomField.budget_name` and `option_value` are a function from
    issue id to an optional budget name;
  - `Worklog.issue` is not modelled.
- Floats are modelled as mathematical reals, and pandas NaN is not modelled.
  A salary missing in the salary month leaves a record's cost NaN, which
  pandas' sum skips; the model gives that record a cost of 0.
- Aggregation.Keys: pandas `groupby` sorts the group keys. The model keeps
  the order of first appearance, so the rows are the same but not in the
  same order.
- Reports: employees are grouped by their display name, as in the source.
  Two employees with the same full name therefore share a row there as here.
- Dates.ValidDate: the upper year bound 9999 of `date` is not modelled.
  The exception is `SelectedMonth`: there `replace(year=…)` with a value
  outside 1..9999 but within the C int range is a caught ValueError, and a
  value beyond the C int range an uncaught OverflowError.
- Reports.MonthReport: takes the year filter already parsed. A value that
  `int()` rejects, or a year outside 1..9999, raises in the source and is
  not modelled.
- ReportParams.ToAscii: the digit and whitespace tables are those of
  Unicode 15.0 (Python 3.12). Older Pythons know fewer digits.
- ReportParams.ParseInt: the limit of 4300 digits is the default of Python
  3.11 and later, which can be changed at run time; the model fixes it.
- ReportParams.Replacement: the C implementation of `datetime` is assumed.
  The pure-Python one raises ValueError, not OverflowError, for a field
  beyond the C int range.
- MonthBookings.MonthLoad: the guard against a zero divisor never decides
  anything for a real month (MonthBookings.MonthDaysPositive). The source
  has no guard.
- MonthBookings.ExpandDays, MonthBookings.ExpandVolume and
  Members.MemberVolumeIsMonthVolume assume bookings that start no later
  than they finish. Reversed bookings are covered only by
  MonthBookings.ExpandReversed.
- Members.Percent: a window without working days is returned as
  ZeroDivisionError. The rendering in `__str__` is left out.
- Worklogs.NonzeroNorms: a norm of 0 hours is a division by zero in the
  source. The model excludes it by precondition.
- Worklogs.Load: a worklog without hours in a month without a norm divides
  0 by 0 in the source. The model gives it a load of 0.
- Worklogs.Kept, Worklogs.BudgetFacts: one clock is modelled, and a
  worklog's start is a calendar day. The source runs with time zone support
  on (Europe/Moscow by default, primetver/settings.py:116-122). There the
  range filter bounds the start at local midnight, while the month column
  is taken from the datetime as read back, which can be in UTC. A worklog
  in the first hours of a month can then count in the previous month's
  column, and this is not modelled.
- Worklogs.Measure: without a norm map, the source has no load column. The
  model sums a load of 0.
- Employee.if_fired, Employee.info, `full_name`, the `__str__` methods,
  Project.lead and Project.member_count are not modelled. They are
  formatting or single lookups.
- Division.occupied and Position.occupied are not modelled. They are the
  same count as StaffingTable.occupied over a coarser key.
- The year lookups of the list filters are not modelled.
- The commented-out first version of EmployeeBooking.booking is not
  modelled.

## Findings

| source | as written | input that shows it | evidently intended | confidence | as-written member | corrected member |
|---|---|---|---|---|---|---|
| pplan/models.py:149-151 | the stored row of the employee counts as already holding the slot even when that employee is fired, although `occupied` does not count fired employees | slot with 1 position held by a working employee; re-hire a fired former holder of the slot (fire date cleared) | only an employee that `occupied` counts frees the position it is saved into, so no slot is overfilled | high, not executed | Staff.ValidatePositionAdmitsOverflow | Staff.ValidatePositionFixedKeepsCapacity |
| jiradata/models.py:302-305 | the load column is computed by `apply(..., asix=1)`; apply passes the unknown keyword to the lambda, which takes none, so it raises TypeError | one worklog of 4 hours in January 2020, with the norm map {January 2020: 8} | load = hours / norm * 100 per worklog, -1 where the month has no norm | high, not executed | Worklogs.LoadColumnRaises | Worklogs.EachFactCarriesLoad |
