/** Payroll processing (`src/controllers/payroll_controller.py`): the week a
    date falls in, time-entry submission and deletion behind the period
    lock, the weekly pay calculation that writes a pay detail and assigns
    the week's entries to the period, the run over every employee,
    approval, and the auto-fill of a salaried employee's working days.

    The four tables the controller touches form one `State`; each operation
    takes a state and returns the next one with its outcome. */
module PayrollController {
  import opened Wrappers
  import opened Constants
  import opened Dates
  import TE = TimeEntries
  import Emp = Employees
  import Per = Periods
  import Det = Details
  import Calc = PayrollCalculator
  import Money
  import Text

  datatype State = State(
    employees: seq<Emp.Employee>,
    entries: seq<TE.TimeEntry>,
    periods: seq<Per.Period>,
    details: Det.Store)

  /** The table constraints every operation keeps: one employee per id, one
      entry per (employee, date), period ids counting up from 1, and each
      pay detail filed under its (period, employee) pair. */
  predicate Good(s: State) {
    && Emp.UniqueIds(s.employees)
    && TE.UniqueKeys(s.entries)
    && Per.Numbered(s.periods)
    && Det.Consistent(s.details)
  }

  // ---------------------------------------------------------------------------
  // The week containing a date
  // ---------------------------------------------------------------------------

  /** `get_period_for_date`: the Monday and Sunday of the date's week as
      `YYYY-MM-DD` text. `None` is the `ValueError` of a malformed date, or
      the `OverflowError` of the Sunday after 9999-12-31. */
  function GetPeriodForDate(date: string): (r: Option<(string, string)>)
    ensures ParseIsoDate(date).None? ==> r.None?
    ensures r.Some? ==> ParseIsoDate(date).Some? && ParseIsoDate(r.value.0).Some? && ParseIsoDate(r.value.1).Some?
    ensures r.Some? ==>
      var n := ToOrdinal(ParseIsoDate(date).value);
      var monday := ToOrdinal(ParseIsoDate(r.value.0).value);
      && Weekday(monday) == 0
      && monday <= n <= monday + 6
      && ToOrdinal(ParseIsoDate(r.value.1).value) == monday + 6
    ensures ParseIsoDate(date).Some? ==>
      (r.None? <==> var n := ToOrdinal(ParseIsoDate(date).value); n - Weekday(n) + 6 > MaxOrdinal)
  {
    match ParseIsoDate(date)
    case None => None
    case Some(c) => Per.GetCurrentPeriod(ToOrdinal(c))
  }

  /** A formatted day gives the week of its day number. */
  lemma PeriodOfFormatted(n: int)
    requires 1 <= n <= MaxOrdinal
    ensures GetPeriodForDate(Format(FromOrdinal(n))) == Per.GetCurrentPeriod(n)
  {
    ParseFormat(FromOrdinal(n));
  }

  lemma SameWeekFormatted(a: int, b: int)
    requires 1 <= a <= MaxOrdinal && 1 <= b <= MaxOrdinal
    requires Per.Week(a) == Per.Week(b)
    ensures GetPeriodForDate(Format(FromOrdinal(a))) == Per.GetCurrentPeriod(b)
  {
    Per.SameWeekSamePeriod(a, b);
    PeriodOfFormatted(a);
  }

  /** Every day of a week, the Monday included, gives that same week. */
  lemma PeriodOfEveryDay(n: int, k: int)
    requires 1 <= n <= MaxOrdinal && Per.Week(n).Some?
    requires 0 <= k <= 6
    ensures GetPeriodForDate(Format(FromOrdinal(Per.Week(n).value.0 + k))) == Per.GetCurrentPeriod(n)
  {
    var m := Per.Week(n).value.0;
    Per.WeekOfEveryDay(n, k);
    SameWeekFormatted(m + k, n);
  }

  /** Applied to the Monday it returns, the week comes back unchanged. */
  lemma PeriodForDateIdempotent(date: string)
    requires GetPeriodForDate(date).Some?
    ensures GetPeriodForDate(GetPeriodForDate(date).value.0) == GetPeriodForDate(date)
  {
    var n := ToOrdinal(ParseIsoDate(date).value);
    assert GetPeriodForDate(date) == Per.GetCurrentPeriod(n);
    Per.PeriodOfMonday(n);
  }

  // ---------------------------------------------------------------------------
  // Time entries
  // ---------------------------------------------------------------------------

  /** Why a time-entry operation refused. `BadDate` is the `ValueError` a
      malformed date raises when a new entry is built. */
  datatype EntryRefusal =
    | EmployeeNotFound
    | EmployeeNotActive
    | PeriodLocked
    | Invalid(errors: seq<TE.EntryError>)
    | BadDate
    | NoEntry

  /** `if entry.payroll_id:` and the period it names is locked. */
  predicate InLockedPeriod(periods: seq<Per.Period>, x: TE.TimeEntry)
    requires Per.Numbered(periods)
  {
    && x.payrollId.Some? && x.payrollId.value != 0
    && Per.GetById(periods, x.payrollId.value).Some?
    && Per.Locked(Per.GetById(periods, x.payrollId.value).value)
  }

  /** The entry `submit_time_entry` would save: the stored one with the new
      hours, PTO and notes, or a freshly built one. */
  function Candidate(entries: seq<TE.TimeEntry>, employeeId: string, date: string,
                     hours: real, pto: real, notes: Option<string>): Option<TE.TimeEntry>
  {
    match TE.FindEntry(entries, employeeId, date)
    case Some(x) => Some(x.(hoursWorked := hours, ptoHours := pto, notes := notes))
    case None => TE.CreateEntry(employeeId, date, hours, pto, notes)
  }

  /** The employee may record time: on file and active. */
  predicate MayRecord(employees: seq<Emp.Employee>, employeeId: string) {
    Emp.GetById(employees, employeeId).Some? && Emp.IsActive(Emp.GetById(employees, employeeId).value)
  }

  /** The stored entry for the day sits in a locked period. */
  predicate Frozen(s: State, employeeId: string, date: string)
    requires Good(s)
  {
    TE.FindEntry(s.entries, employeeId, date).Some? && InLockedPeriod(s.periods, TE.FindEntry(s.entries, employeeId, date).value)
  }

  /** `submit_time_entry`: refused, in this order, when the employee is not on
      file, is not active, when the day's stored entry is in a locked period,
      when a new entry's date does not parse, and when the entry fails
      validation. Otherwise the stored entry is overwritten with the new
      hours, PTO and notes, or a new entry is inserted. A refusal writes
      nothing. */
  function SubmitTimeEntry(s: State, employeeId: string, date: string,
                           hours: real, pto: real, notes: Option<string>): (r: (State, Result<TE.TimeEntry, EntryRefusal>))
    requires Good(s)
    ensures Good(r.0)
    ensures r.1.Err? ==> r.0 == s
    ensures r.0 == s.(entries := r.0.entries)
    ensures r.1 == Err(EmployeeNotFound) <==> !Emp.HasId(s.employees, employeeId)
    ensures r.1 == Err(EmployeeNotActive) <==>
      Emp.HasId(s.employees, employeeId) && !MayRecord(s.employees, employeeId)
    ensures r.1 == Err(PeriodLocked) <==> MayRecord(s.employees, employeeId) && Frozen(s, employeeId, date)
    ensures r.1 == Err(BadDate) <==>
      && MayRecord(s.employees, employeeId) && !Frozen(s, employeeId, date)
      && Candidate(s.entries, employeeId, date, hours, pto, notes).None?
    ensures r.1.Err? && r.1.error.Invalid? <==>
      && MayRecord(s.employees, employeeId) && !Frozen(s, employeeId, date)
      && Candidate(s.entries, employeeId, date, hours, pto, notes).Some?
      && !TE.IsValid(Candidate(s.entries, employeeId, date, hours, pto, notes).value)
    ensures r.1.Ok? ==>
      && Candidate(s.entries, employeeId, date, hours, pto, notes) == Some(r.1.value)
      && TE.WellFormed(r.1.value)
      && TE.Key(r.1.value) == (employeeId, date)
      && r.1.value.hoursWorked == hours && r.1.value.ptoHours == pto && r.1.value.notes == notes
    ensures r.1.Ok? ==> forall x :: x in r.0.entries <==> x == r.1.value || (x in s.entries && TE.Key(x) != (employeeId, date))
  {
    match Emp.GetById(s.employees, employeeId)
    case None => (s, Err(EmployeeNotFound))
    case Some(employee) =>
      if !Emp.IsActive(employee) then (s, Err(EmployeeNotActive))
      else
        var existing := TE.FindEntry(s.entries, employeeId, date);
        if existing.Some? && InLockedPeriod(s.periods, existing.value) then (s, Err(PeriodLocked))
        else
          match Candidate(s.entries, employeeId, date, hours, pto, notes)
          case None => (s, Err(BadDate))
          case Some(e) =>
            var errors := TE.Validate(e);
            if |errors| > 0 then (s, Err(Invalid(errors)))
            else
              TE.ValidIffWellFormed(e);
              var (rows, saved) := TE.Save(s.entries, e, existing.None?);
              assert saved;
              (s.(entries := rows), Ok(e))
  }

  /** `delete_time_entry`: refused when the day has no entry and when its
      entry sits in a locked period; otherwise exactly that entry goes. */
  function DeleteTimeEntry(s: State, employeeId: string, date: string): (r: (State, Result<(), EntryRefusal>))
    requires Good(s)
    ensures Good(r.0)
    ensures r.1.Err? ==> r.0 == s
    ensures r.0 == s.(entries := r.0.entries)
    ensures r.1 == Err(NoEntry) <==> !TE.HasKey(s.entries, employeeId, date)
    ensures r.1 == Err(PeriodLocked) <==> Frozen(s, employeeId, date)
    ensures r.1.Ok? <==> TE.HasKey(s.entries, employeeId, date) && !Frozen(s, employeeId, date)
    ensures r.1.Ok? ==> forall x :: x in r.0.entries <==> x in s.entries && TE.Key(x) != (employeeId, date)
  {
    match TE.FindEntry(s.entries, employeeId, date)
    case None => (s, Err(NoEntry))
    case Some(x) =>
      if InLockedPeriod(s.periods, x) then (s, Err(PeriodLocked))
      else
        var (rows, deleted) := TE.Delete(s.entries, employeeId, date);
        (s.(entries := rows), Ok(()))
  }

  /** An entry in a locked period can be neither edited nor deleted: both
      operations leave the state as it was. */
  lemma LockedEntryIsFrozen(s: State, employeeId: string, date: string, hours: real, pto: real, notes: Option<string>)
    requires Good(s) && Frozen(s, employeeId, date)
    ensures SubmitTimeEntry(s, employeeId, date, hours, pto, notes).0 == s
    ensures DeleteTimeEntry(s, employeeId, date) == (s, Err(PeriodLocked))
  {
  }

  // ---------------------------------------------------------------------------
  // Weekly pay
  // ---------------------------------------------------------------------------

  /** Why a pay calculation refused. */
  datatype PayRefusal =
    | EmployeeMissing
    | NoBaseSalary
    | NoHourlyRate
    | UnknownSalaryType(salaryType: Option<string>)

  /** The hour buckets of a week of entries, as `calculate_hourly_pay` fills them. */
  function WeekBuckets(entries: seq<TE.TimeEntry>): Calc.Buckets {
    Calc.Buckets(Calc.SumOf(entries, Calc.WeekdayRegular), Calc.SumOf(entries, Calc.WeekdayOvertime),
                 Calc.SumOf(entries, Calc.SaturdayWorked), Calc.SumOf(entries, Calc.Pto))
  }

  /** The pay dispatch on the salary type: a salaried employee needs a base
      salary, an hourly one an hourly rate, and any other type is refused. */
  function PayOf(employee: Emp.Employee, entries: seq<TE.TimeEntry>): (r: Result<Calc.PayBreakdown, PayRefusal>)
    ensures r == Err(NoBaseSalary) <==> Emp.IsSalaried(employee) && employee.baseSalary.None?
    ensures r == Err(NoHourlyRate) <==> employee.salaryType == Some(SalaryTypeHourly) && employee.hourlyRate.None?
    ensures r.Err? && r.error.UnknownSalaryType? <==>
      employee.salaryType != Some(SalaryTypeSalary) && employee.salaryType != Some(SalaryTypeHourly)
    ensures r.Ok? && Emp.IsSalaried(employee) ==> r.value == Calc.CalculateSalaryPay(employee.baseSalary.value)
    ensures r.Ok? && !Emp.IsSalaried(employee) ==>
      r.value == Calc.Price(WeekBuckets(entries), employee.hourlyRate.value)
  {
    if employee.salaryType == Some(SalaryTypeSalary) then
      if employee.baseSalary.None? then Err(NoBaseSalary)
      else Ok(Calc.CalculateSalaryPay(employee.baseSalary.value))
    else if employee.salaryType == Some(SalaryTypeHourly) then
      if employee.hourlyRate.None? then Err(NoHourlyRate)
      else Ok(Calc.Price(WeekBuckets(entries), employee.hourlyRate.value))
    else Err(UnknownSalaryType(employee.salaryType))
  }

  /** `employee.medical_type or "Single"`. */
  function MedicalTypeOf(employee: Emp.Employee): (t: string)
    ensures Emp.Truthy(employee.medicalType) ==> t == employee.medicalType.value
    ensures !Emp.Truthy(employee.medicalType) ==> t == MedicalSingle
  {
    if Emp.Truthy(employee.medicalType) then employee.medicalType.value else MedicalSingle
  }

  /** The field updates of `calculate_weekly_pay`: the hours and pay come from
      the pay breakdown; gross adds the dependent stipend; taxable income is
      gross less the medical deduction, not rounded; taxes are computed on
      it and net pay is what `calculate_net_pay` returns. The row's key and
      its total employee deductions are not written. */
  function Fill(d: Det.Detail, pay: Calc.PayBreakdown, stipend: real, medical: real): (r: Det.Detail)
    ensures Det.KeyOf(r) == Det.KeyOf(d) && r.totalEmployeeDeductions == d.totalEmployeeDeductions
    ensures r.regularHours == pay.regularHours && r.overtimeHours == pay.overtimeHours
    ensures r.saturdayHours == pay.saturdayHours && r.ptoHours == pay.ptoHours && r.totalHours == pay.totalHours
    ensures r.basePay == pay.basePay && r.overtimePay == pay.overtimePay && r.saturdayPay == pay.saturdayPay
    ensures r.dependentStipend == stipend && r.medicalDeduction == medical
    ensures r.grossPay - r.dependentStipend == pay.grossPay
    ensures r.taxableIncome + r.medicalDeduction == r.grossPay
    ensures r.taxes == Calc.CalculateTaxes(r.taxableIncome)
    ensures r.netPay == Calc.CalculateNetPay(r.grossPay, r.medicalDeduction, r.taxes.totalEmployee).netPay
    ensures Money.Dist(r.netPay, r.taxableIncome - r.taxes.totalEmployee) <= Money.HalfUnit(Money.TwoPlaces)
  {
    var gross := pay.grossPay + stipend;
    var taxable := gross - medical;
    var taxes := Calc.CalculateTaxes(taxable);
    var net := Calc.CalculateNetPay(gross, medical, taxes.totalEmployee);
    d.(regularHours := pay.regularHours, overtimeHours := pay.overtimeHours,
       saturdayHours := pay.saturdayHours, ptoHours := pay.ptoHours, totalHours := pay.totalHours,
       basePay := pay.basePay, overtimePay := pay.overtimePay, saturdayPay := pay.saturdayPay,
       grossPay := gross, medicalDeduction := medical, dependentStipend := stipend,
       taxableIncome := taxable, taxes := taxes, netPay := net.netPay)
  }

  /** The period `calculate_weekly_pay` files the week under. */
  function PeriodFor(s: State, start: string, end: string): Per.Period
    requires Good(s)
  {
    Per.GetOrCreate(s.periods, start, end).1
  }

  /** The stored detail for the employee in that period, if any. */
  function Existing(s: State, employeeId: string, start: string, end: string): Option<Det.Detail>
    requires Good(s)
  {
    Det.GetByPayrollAndEmployee(s.details, PeriodFor(s, start, end).payrollId, employeeId)
  }

  /** A detail already stored in a locked period: returned as it is. */
  predicate AlreadyFinal(s: State, employeeId: string, start: string, end: string)
    requires Good(s)
  {
    Existing(s, employeeId, start, end).Some? && Per.Locked(PeriodFor(s, start, end))
  }

  /** The employee's entries in the week, the ones the hourly pay sums. */
  function WeekEntries(s: State, employeeId: string, start: string, end: string): seq<TE.TimeEntry>
    requires Good(s)
  {
    TE.GetByEmployee(s.entries, employeeId, Some(start), Some(end))
  }

  /** `calculate_weekly_pay`. An employee not on file is refused before
      anything is written; the employee's status is not checked. The period
      for the dates is fetched or created, and stays created whatever
      follows. A detail already stored in a locked period is returned
      unchanged. Otherwise pay is dispatched on the salary type, the stored
      detail (or a new one) is overwritten with the week's figures and saved,
      and only then are the employee's unassigned entries in the range
      assigned to the period. */
  method CalculateWeeklyPay(s: State, employeeId: string, start: string, end: string)
    returns (next: State, r: Result<Det.Detail, PayRefusal>)
    requires Good(s)
    ensures Good(next)
    ensures next.employees == s.employees
    ensures Per.LocksKept(s.periods, next.periods)
    ensures r == Err(EmployeeMissing) <==> !Emp.HasId(s.employees, employeeId)
    ensures r == Err(EmployeeMissing) ==> next == s
    ensures r != Err(EmployeeMissing) ==> next.periods == Per.GetOrCreate(s.periods, start, end).0
    ensures r.Err? ==> next.entries == s.entries && next.details == s.details
    ensures Emp.HasId(s.employees, employeeId) && AlreadyFinal(s, employeeId, start, end) ==>
      && r == Ok(Existing(s, employeeId, start, end).value)
      && next.entries == s.entries && next.details == s.details
    ensures Emp.HasId(s.employees, employeeId) && !AlreadyFinal(s, employeeId, start, end) ==>
      var employee := Emp.GetById(s.employees, employeeId).value;
      var pay := PayOf(employee, WeekEntries(s, employeeId, start, end));
      && (r.Err? <==> pay.Err?)
      && (r.Err? ==> r.error == pay.error)
      && (r.Ok? ==>
        var p := PeriodFor(s, start, end);
        && r.value == Fill(Existing(s, employeeId, start, end).GetOr(Det.NewDetail(p.payrollId, employeeId)),
                           pay.value,
                           Calc.CalculateDependentStipend(employee.numDependents),
                           Calc.CalculateMedicalDeduction(MedicalTypeOf(employee)))
        && next.details == s.details[(p.payrollId, employeeId) := Det.AsStored(r.value)]
        && next.entries == TE.AssignToPayroll(s.entries, employeeId, start, end, p.payrollId).0)
    ensures r.Ok? ==> Det.KeyOf(r.value) == (PeriodFor(s, start, end).payrollId, employeeId)
    ensures r.Ok? ==> Det.KeyOf(r.value) in next.details && next.details[Det.KeyOf(r.value)] == Det.AsStored(r.value)
  {
    var found := Emp.GetById(s.employees, employeeId);
    if found.None? {
      return s, Err(EmployeeMissing);
    }
    var employee := found.value;
    var (periods, p) := Per.GetOrCreate(s.periods, start, end);
    Per.NothingUnlocks(s.periods, start, end, 0, "", "");
    next := s.(periods := periods);
    var existing := Det.GetByPayrollAndEmployee(s.details, p.payrollId, employeeId);
    if existing.Some? && Per.Locked(p) {
      return next, Ok(existing.value);
    }
    var entries := TE.GetByEmployee(s.entries, employeeId, Some(start), Some(end));
    var pay: Calc.PayBreakdown;
    if employee.salaryType == Some(SalaryTypeSalary) {
      if employee.baseSalary.None? {
        return next, Err(NoBaseSalary);
      }
      pay := Calc.CalculateSalaryPay(employee.baseSalary.value);
    } else if employee.salaryType == Some(SalaryTypeHourly) {
      if employee.hourlyRate.None? {
        return next, Err(NoHourlyRate);
      }
      pay := Calc.CalculateHourlyPay(entries, employee.hourlyRate.value);
    } else {
      return next, Err(UnknownSalaryType(employee.salaryType));
    }
    var stipend := Calc.CalculateDependentStipend(employee.numDependents);
    var medical := Calc.CalculateMedicalDeduction(MedicalTypeOf(employee));
    var detail := Fill(existing.GetOr(Det.NewDetail(p.payrollId, employeeId)), pay, stipend, medical);
    var (store, saved) := Det.Save(s.details, detail, existing.None?);
    assert saved;
    var (rows, count) := TE.AssignToPayroll(s.entries, employeeId, start, end, p.payrollId);
    next := State(s.employees, rows, periods, store);
    r := Ok(detail);
  }

  predicate HasResult(results: seq<Det.Detail>, employeeId: string) {
    exists d :: d in results && d.employeeId == employeeId
  }

  predicate HasFailure(failed: seq<(string, PayRefusal)>, employeeId: string) {
    exists f :: f in failed && f.0 == employeeId
  }

  predicate Listed(employees: seq<Emp.Employee>, employeeId: string) {
    exists e :: e in employees && e.employeeId == employeeId
  }

  /** What the run over every employee needs of one weekly calculation. */
  method PayOne(s: State, employeeId: string, start: string, end: string)
    returns (next: State, r: Result<Det.Detail, PayRefusal>)
    requires Good(s)
    ensures Good(next) && next.employees == s.employees
    ensures Per.LocksKept(s.periods, next.periods)
    ensures r.Ok? ==> r.value.employeeId == employeeId
  {
    next, r := CalculateWeeklyPay(s, employeeId, start, end);
  }

  lemma LocksKeptTransitive(a: seq<Per.Period>, b: seq<Per.Period>, c: seq<Per.Period>)
    requires Per.LocksKept(a, b) && Per.LocksKept(b, c)
    ensures Per.LocksKept(a, c)
  {
  }

  /** The loop of `calculate_all_payroll` over a list of employee ids. */
  method PayEach(s: State, ids: seq<string>, start: string, end: string)
    returns (next: State, results: seq<Det.Detail>, failed: seq<(string, PayRefusal)>)
    requires Good(s)
    ensures Good(next) && next.employees == s.employees
    ensures Per.LocksKept(s.periods, next.periods)
    ensures |results| + |failed| == |ids|
    ensures forall d :: d in results ==> d.employeeId in ids
    ensures forall f :: f in failed ==> f.0 in ids
    ensures forall k :: 0 <= k < |ids| ==> HasResult(results, ids[k]) || HasFailure(failed, ids[k])
  {
    next := s;
    results := [];
    failed := [];
    var i := 0;
    while i < |ids|
      invariant 0 <= i <= |ids|
      invariant Good(next) && next.employees == s.employees
      invariant Per.LocksKept(s.periods, next.periods)
      invariant |results| + |failed| == i
      invariant forall d :: d in results ==> exists k :: 0 <= k < i && ids[k] == d.employeeId
      invariant forall f :: f in failed ==> exists k :: 0 <= k < i && ids[k] == f.0
      invariant forall k :: 0 <= k < i ==> HasResult(results, ids[k]) || HasFailure(failed, ids[k])
    {
      var before := next.periods;
      var r;
      next, r := PayOne(next, ids[i], start, end);
      LocksKeptTransitive(s.periods, before, next.periods);
      if r.Ok? {
        results := results + [r.value];
      } else {
        failed := failed + [(ids[i], r.error)];
      }
      i := i + 1;
    }
  }

  /** The ids of a list of employees, in list order. */
  function IdsOf(list: seq<Emp.Employee>): (ids: seq<string>)
    ensures |ids| == |list|
    ensures forall k :: 0 <= k < |list| ==> ids[k] == list[k].employeeId
  {
    seq(|list|, k requires 0 <= k < |list| => list[k].employeeId)
  }

  /** `calculate_all_payroll`: the weekly pay of every employee `get_all`
      lists (the active ones only, by default), one after the other against
      the state the previous one left. Each employee's outcome goes to the
      results or to the failures, and a failure never stops the run. */
  method CalculateAllPayroll(s: State, start: string, end: string, activeOnly: bool)
    returns (next: State, results: seq<Det.Detail>, failed: seq<(string, PayRefusal)>)
    requires Good(s)
    ensures Good(next) && next.employees == s.employees
    ensures Per.LocksKept(s.periods, next.periods)
    ensures |results| + |failed| == |Emp.GetAll(s.employees, !activeOnly)|
    ensures forall d :: d in results ==> Listed(Emp.GetAll(s.employees, !activeOnly), d.employeeId)
    ensures forall f :: f in failed ==> Listed(Emp.GetAll(s.employees, !activeOnly), f.0)
    ensures forall e :: e in Emp.GetAll(s.employees, !activeOnly) ==>
      HasResult(results, e.employeeId) || HasFailure(failed, e.employeeId)
    ensures activeOnly ==> forall d :: d in results ==> MayRecord(s.employees, d.employeeId)
  {
    var list := Emp.GetAll(s.employees, !activeOnly);
    var ids := IdsOf(list);
    next, results, failed := PayEach(s, ids, start, end);
    forall e | e in list ensures HasResult(results, e.employeeId) || HasFailure(failed, e.employeeId) {
      var k :| 0 <= k < |list| && list[k] == e;
      assert ids[k] == e.employeeId;
    }
    forall id | id in ids ensures Listed(list, id) {
      var k :| 0 <= k < |ids| && ids[k] == id;
      assert list[k] in list;
    }
    if activeOnly {
      forall d | d in results ensures MayRecord(s.employees, d.employeeId) {
        var e :| e in list && e.employeeId == d.employeeId;
        Emp.GetByIdUnique(s.employees, e);
      }
    }
  }

  // ---------------------------------------------------------------------------
  // Auto-fill for salaried employees
  // ---------------------------------------------------------------------------

  /** Why `auto_fill_salaried_hours` reports failure: no such employee, an
      employee who is not salaried, a start or end that does not parse, or
      stepping past 9999-12-31 (Python's `OverflowError`, caught by the
      generic handler after the earlier days were saved). */
  datatype FillRefusal = NoSuchEmployee | NotSalaried | MalformedDate | PastLastDate

  const AutoFillNote: string := "Auto-filled for salaried employee"

  /** `day_name in SALARIED_WORK_DAYS` holds on Monday to Friday only. */
  lemma WorkDayName(n: int)
    ensures DayName(n) in SalariedWorkDays <==> Weekday(n) < 5
  {
    var w := Weekday(n);
    assert DayName(n) == DaysOfWeek[w];
    if w == 5 {
      assert DaysOfWeek[5] == "Saturday";
      assert forall k :: 0 <= k < 5 ==> SalariedWorkDays[k] != "Saturday" by {
        assert SalariedWorkDays[0][0] != 'S' && SalariedWorkDays[1][0] != 'S' && SalariedWorkDays[2][0] != 'S';
        assert SalariedWorkDays[3][0] != 'S' && SalariedWorkDays[4][0] != 'S';
      }
    } else if w == 6 {
      assert DaysOfWeek[6] == "Sunday";
      assert forall k :: 0 <= k < 5 ==> SalariedWorkDays[k] != "Sunday" by {
        assert SalariedWorkDays[0][0] != 'S' && SalariedWorkDays[1][0] != 'S' && SalariedWorkDays[2][0] != 'S';
        assert SalariedWorkDays[3][0] != 'S' && SalariedWorkDays[4][0] != 'S';
      }
    } else {
      assert DaysOfWeek[w] == SalariedWorkDays[w];
    }
  }

  /** Every Monday-to-Friday day from `a` to `b` has an entry for the employee. */
  predicate WorkDaysFilled(entries: seq<TE.TimeEntry>, employeeId: string, a: int, b: int) {
    forall j :: 1 <= a <= j <= b && j <= MaxOrdinal && Weekday(j) < 5 ==>
      TE.HasKey(entries, employeeId, Format(FromOrdinal(j)))
  }

  /** An entry auto-fill writes: eight hours, no PTO, unassigned, on a
      Monday-to-Friday day from `a` to `b`. */
  predicate AutoFilled(x: TE.TimeEntry, employeeId: string, a: int, b: int) {
    && x.employeeId == employeeId
    && x.hoursWorked == SalariedAutoHoursPerDay && x.ptoHours == 0.0
    && x.payrollId.None? && x.notes == Some(AutoFillNote)
    && ParseIsoDate(x.date).Some?
    && a <= ToOrdinal(ParseIsoDate(x.date).value) <= b
    && Weekday(ToOrdinal(ParseIsoDate(x.date).value)) < 5
  }

  /** `auto_fill_salaried_hours`. Refused, in this order, for an employee not
      on file, one who is not salaried, and a start or end date that does not
      parse. Then each day from start to end is visited; on Monday to Friday,
      a day without an entry for the employee gets an eight-hour entry with
      no PTO, if it saves. Stepping past 9999-12-31 raises, which ends the run
      with the entries so far already saved. */
  method AutoFillSalariedHours(s: State, employeeId: string, start: string, end: string)
    returns (next: State, r: Result<seq<TE.TimeEntry>, FillRefusal>)
    requires Good(s)
    ensures Good(next) && next == s.(entries := next.entries)
    ensures r == Err(NoSuchEmployee) <==> !Emp.HasId(s.employees, employeeId)
    ensures r == Err(NotSalaried) <==>
      Emp.HasId(s.employees, employeeId) && !Emp.IsSalaried(Emp.GetById(s.employees, employeeId).value)
    ensures r == Err(MalformedDate) <==>
      && Emp.HasId(s.employees, employeeId) && Emp.IsSalaried(Emp.GetById(s.employees, employeeId).value)
      && (ParseIsoDate(start).None? || ParseIsoDate(end).None?)
    ensures r.Err? && r.error != PastLastDate ==> next == s
    ensures r.Ok? ==> next.entries == s.entries + r.value
    ensures |s.entries| <= |next.entries| && next.entries[..|s.entries|] == s.entries
    ensures (r.Ok? || r == Err(PastLastDate)) ==>
      var a := ToOrdinal(ParseIsoDate(start).value);
      var b := ToOrdinal(ParseIsoDate(end).value);
      && (forall x :: x in next.entries[|s.entries|..] ==>
            AutoFilled(x, employeeId, a, b) && !TE.HasKey(s.entries, employeeId, x.date))
      && (r.Ok? && !Text.IsBlank(employeeId) ==> WorkDaysFilled(next.entries, employeeId, a, b))
      && (WorkDaysFilled(s.entries, employeeId, a, b) ==> next == s && (r.Ok? ==> r.value == []))
    ensures r == Err(PastLastDate) ==> ToOrdinal(ParseIsoDate(end).value) == MaxOrdinal
  {
    next := s;
    var found := Emp.GetById(s.employees, employeeId);
    if found.None? {
      return s, Err(NoSuchEmployee);
    }
    if !Emp.IsSalaried(found.value) {
      return s, Err(NotSalaried);
    }
    var first := ParseIsoDate(start);
    var last := ParseIsoDate(end);
    if first.None? || last.None? {
      return s, Err(MalformedDate);
    }
    var a := ToOrdinal(first.value);
    var b := ToOrdinal(last.value);
    var created: seq<TE.TimeEntry> := [];
    var d := a;
    while d <= b
      invariant a <= d <= MaxOrdinal
      invariant a <= b ==> d <= b + 1
      invariant Good(next) && next == s.(entries := next.entries)
      invariant next.entries == s.entries + created
      invariant forall x :: x in created ==> AutoFilled(x, employeeId, a, d - 1) && !TE.HasKey(s.entries, employeeId, x.date)
      invariant !Text.IsBlank(employeeId) ==> WorkDaysFilled(next.entries, employeeId, a, d - 1)
      invariant WorkDaysFilled(s.entries, employeeId, a, b) ==> created == []
    {
      var rows;
      rows, created := FillDay(s.entries, next.entries, created, employeeId, a, b, d);
      next := next.(entries := rows);
      var following := AddDays(d, 1);
      if following.None? {
        r := Err(PastLastDate);
        assert next.entries[|s.entries|..] == created;
        return;
      }
      d := following.value;
    }
    assert next.entries[|s.entries|..] == created;
    r := Ok(created);
  }

  /** The entry auto-fill writes on ordinal day `d` always builds, and it is
      storable exactly when the employee id is not blank. */
  lemma AutoEntry(employeeId: string, d: int)
    requires 1 <= d <= MaxOrdinal
    ensures ParseIsoDate(Format(FromOrdinal(d))) == Some(FromOrdinal(d))
    ensures TE.CreateEntry(employeeId, Format(FromOrdinal(d)), SalariedAutoHoursPerDay, 0.0, Some(AutoFillNote)).Some?
    ensures var e := TE.CreateEntry(employeeId, Format(FromOrdinal(d)), SalariedAutoHoursPerDay, 0.0, Some(AutoFillNote)).value;
      TE.IsValid(e) <==> !Text.IsBlank(employeeId)
  {
    ParseFormat(FromOrdinal(d));
    var date := Format(FromOrdinal(d));
    var e := TE.CreateEntry(employeeId, date, SalariedAutoHoursPerDay, 0.0, Some(AutoFillNote)).value;
    TE.ValidIffWellFormed(e);
  }

  /** A key present in a table is present in any extension of it. */
  lemma HasKeyExtended(rows: seq<TE.TimeEntry>, more: seq<TE.TimeEntry>, employeeId: string, date: string)
    requires |rows| <= |more| && more[..|rows|] == rows
    requires TE.HasKey(rows, employeeId, date)
    ensures TE.HasKey(more, employeeId, date)
  {
    var i :| 0 <= i < |rows| && TE.Key(rows[i]) == (employeeId, date);
    assert more[i] == rows[i];
  }

  /** Filling day `d` extends the filled range by one day. */
  lemma FilledExtended(rows: seq<TE.TimeEntry>, more: seq<TE.TimeEntry>, employeeId: string, a: int, d: int)
    requires |rows| <= |more| && more[..|rows|] == rows
    requires WorkDaysFilled(rows, employeeId, a, d - 1)
    requires 1 <= d <= MaxOrdinal
    requires Weekday(d) < 5 ==> TE.HasKey(more, employeeId, Format(FromOrdinal(d)))
    ensures WorkDaysFilled(more, employeeId, a, d)
  {
    forall j | 1 <= a <= j <= d && j <= MaxOrdinal && Weekday(j) < 5
      ensures TE.HasKey(more, employeeId, Format(FromOrdinal(j)))
    {
      if j < d {
        HasKeyExtended(rows, more, employeeId, Format(FromOrdinal(j)));
      } else {
        assert j == d;
      }
    }
  }

  /** Widening the day range keeps an entry auto-filled. */
  lemma AutoFilledWiden(created: seq<TE.TimeEntry>, employeeId: string, a: int, d: int)
    requires forall x :: x in created ==> AutoFilled(x, employeeId, a, d - 1)
    ensures forall x :: x in created ==> AutoFilled(x, employeeId, a, d)
  {
  }

  /** What the auto-fill loop keeps after visiting days `a` to `d`: the table
      is the starting table plus the created entries, keys stay unique, every
      created entry is an auto-filled entry for a day not in the starting
      table, every work day so far has an entry when the id is not blank, and
      nothing is created when the starting table already covered the range. */
  predicate FillInvariant(base: seq<TE.TimeEntry>, cur: seq<TE.TimeEntry>, created: seq<TE.TimeEntry>,
                          employeeId: string, a: int, b: int, d: int) {
    && TE.UniqueKeys(cur)
    && cur == base + created
    && (forall x :: x in created ==> AutoFilled(x, employeeId, a, d) && !TE.HasKey(base, employeeId, x.date))
    && (!Text.IsBlank(employeeId) ==> WorkDaysFilled(cur, employeeId, a, d))
    && (WorkDaysFilled(base, employeeId, a, b) ==> created == [])
  }

  /** One day of the auto-fill loop, on the entries table: `base` is the
      table the run started from and `cur` the table so far. */
  method FillDay(base: seq<TE.TimeEntry>, cur: seq<TE.TimeEntry>, created: seq<TE.TimeEntry>,
                 employeeId: string, a: int, b: int, d: int)
    returns (next: seq<TE.TimeEntry>, created': seq<TE.TimeEntry>)
    requires TE.UniqueKeys(cur)
    requires 1 <= a <= d <= b && b <= MaxOrdinal
    requires cur == base + created
    requires forall x :: x in created ==> AutoFilled(x, employeeId, a, d - 1) && !TE.HasKey(base, employeeId, x.date)
    requires !Text.IsBlank(employeeId) ==> WorkDaysFilled(cur, employeeId, a, d - 1)
    requires WorkDaysFilled(base, employeeId, a, b) ==> created == []
    ensures TE.UniqueKeys(next)
    ensures next == base + created'
    ensures forall x :: x in created' ==> AutoFilled(x, employeeId, a, d) && !TE.HasKey(base, employeeId, x.date)
    ensures !Text.IsBlank(employeeId) ==> WorkDaysFilled(next, employeeId, a, d)
    ensures WorkDaysFilled(base, employeeId, a, b) ==> created' == []
  {
    next, created' := cur, created;
    var date := Format(FromOrdinal(d));
    FillDayFacts(base, cur, created, employeeId, a, b, d);
    var dayName := TE.GetDayOfWeek(date);
    if dayName.value in SalariedWorkDays && TE.FindEntry(cur, employeeId, date).None? {
      var entry := TE.CreateEntry(employeeId, date, SalariedAutoHoursPerDay, 0.0, Some(AutoFillNote)).value;
      var (rows, saved) := TE.Save(cur, entry, true);
      if saved {
        next := rows;
        created' := created + [entry];
        SavedAutoEntry(base, cur, created, employeeId, a, b, d, entry, rows);
      } else {
        NothingSaved(base, cur, created, employeeId, a, b, d);
      }
    } else {
      NothingSaved(base, cur, created, employeeId, a, b, d);
    }
  }

  /** What one day of the auto-fill loop relies on: the day's name is a work
      day exactly from Monday to Friday, the entry for it builds, earlier
      auto-filled entries stay within the widened range, and a day the table
      already covered is still covered. */
  lemma FillDayFacts(base: seq<TE.TimeEntry>, cur: seq<TE.TimeEntry>, created: seq<TE.TimeEntry>,
                     employeeId: string, a: int, b: int, d: int)
    requires 1 <= a <= d <= b && b <= MaxOrdinal
    requires cur == base + created
    requires forall x :: x in created ==> AutoFilled(x, employeeId, a, d - 1)
    ensures var dayName := TE.GetDayOfWeek(Format(FromOrdinal(d)));
      dayName.Some? && (dayName.value in SalariedWorkDays <==> Weekday(d) < 5)
    ensures TE.CreateEntry(employeeId, Format(FromOrdinal(d)), SalariedAutoHoursPerDay, 0.0, Some(AutoFillNote)).Some?
    ensures var e := TE.CreateEntry(employeeId, Format(FromOrdinal(d)), SalariedAutoHoursPerDay, 0.0, Some(AutoFillNote)).value;
      TE.IsValid(e) <==> !Text.IsBlank(employeeId)
    ensures forall x :: x in created ==> AutoFilled(x, employeeId, a, d)
    ensures Weekday(d) < 5 && WorkDaysFilled(base, employeeId, a, b) ==>
      TE.HasKey(cur, employeeId, Format(FromOrdinal(d)))
  {
    AutoEntry(employeeId, d);
    WorkDayName(d);
    AutoFilledWiden(created, employeeId, a, d);
    assert cur[..|base|] == base;
    if Weekday(d) < 5 && WorkDaysFilled(base, employeeId, a, b) {
      HasKeyExtended(base, cur, employeeId, Format(FromOrdinal(d)));
    }
  }

  /** Appending one element to a table that extends `base`. */
  lemma AppendOne<T>(base: seq<T>, created: seq<T>, x: T)
    ensures (base + created)[..|base|] == base
    ensures ((base + created) + [x])[..|base + created|] == base + created
    ensures ((base + created) + [x])[|base + created|] == x
    ensures (base + created) + [x] == base + (created + [x])
    ensures forall y :: y in created + [x] <==> y in created || y == x
  {
  }

  /** A day on which nothing is saved (not a work day, already covered, or
      a blank id that fails validation) keeps the loop's invariant. */
  lemma NothingSaved(base: seq<TE.TimeEntry>, cur: seq<TE.TimeEntry>, created: seq<TE.TimeEntry>,
                     employeeId: string, a: int, b: int, d: int)
    requires 1 <= a <= d <= b && b <= MaxOrdinal
    requires FillInvariant(base, cur, created, employeeId, a, b, d - 1)
    requires Weekday(d) < 5 ==> TE.HasKey(cur, employeeId, Format(FromOrdinal(d))) || Text.IsBlank(employeeId)
    ensures FillInvariant(base, cur, created, employeeId, a, b, d)
  {
    AutoFilledWiden(created, employeeId, a, d);
    if !Text.IsBlank(employeeId) {
      FilledExtended(cur, cur, employeeId, a, d);
    }
  }

  /** The entry saved for work day `d` is an auto-filled entry new to the
      table the run started from, and the loop's invariant holds with it. */
  lemma SavedAutoEntry(base: seq<TE.TimeEntry>, cur: seq<TE.TimeEntry>, created: seq<TE.TimeEntry>,
                       employeeId: string, a: int, b: int, d: int, entry: TE.TimeEntry, rows: seq<TE.TimeEntry>)
    requires 1 <= a <= d <= b && b <= MaxOrdinal && Weekday(d) < 5
    requires FillInvariant(base, cur, created, employeeId, a, b, d - 1)
    requires TE.CreateEntry(employeeId, Format(FromOrdinal(d)), SalariedAutoHoursPerDay, 0.0, Some(AutoFillNote)).Some?
    requires entry == TE.CreateEntry(employeeId, Format(FromOrdinal(d)), SalariedAutoHoursPerDay, 0.0, Some(AutoFillNote)).value
    requires TE.FindEntry(cur, employeeId, entry.date).None?
    requires TE.UniqueKeys(rows) && rows == cur + [entry]
    ensures FillInvariant(base, rows, created + [entry], employeeId, a, b, d)
  {
    AutoEntry(employeeId, d);
    AutoFilledWiden(created, employeeId, a, d);
    AppendOne(base, created, entry);
    if TE.HasKey(base, employeeId, entry.date) {
      HasKeyExtended(base, cur, employeeId, entry.date);
    }
    assert TE.HasKey(rows, employeeId, entry.date);
    if !Text.IsBlank(employeeId) {
      FilledExtended(cur, rows, employeeId, a, d);
    }
    if WorkDaysFilled(base, employeeId, a, b) {
      HasKeyExtended(base, cur, employeeId, entry.date);
    }
  }

  // ---------------------------------------------------------------------------
  // Approval
  // ---------------------------------------------------------------------------

  datatype ApprovalRefusal = PeriodNotFound | AlreadyLocked

  /** `approve_payroll`: refused when no period has the id and when it is
      already locked; otherwise the period is locked and stamped with the
      approver and the time (`now`, the clock reading passed in). */
  function ApprovePayroll(s: State, payrollId: int, approvedBy: string, now: string): (r: (State, Result<(), ApprovalRefusal>))
    requires Good(s)
    ensures Good(r.0)
    ensures r.1.Err? ==> r.0 == s
    ensures r.0 == s.(periods := r.0.periods)
    ensures r.1 == Err(PeriodNotFound) <==> Per.GetById(s.periods, payrollId).None?
    ensures r.1 == Err(AlreadyLocked) <==>
      Per.GetById(s.periods, payrollId).Some? && Per.Locked(Per.GetById(s.periods, payrollId).value)
    ensures r.1.Ok? ==>
      && Per.GetById(r.0.periods, payrollId).Some?
      && Per.Locked(Per.GetById(r.0.periods, payrollId).value)
      && Per.GetById(r.0.periods, payrollId).value.processedBy == Some(approvedBy)
    ensures forall id :: id != payrollId ==> Per.GetById(r.0.periods, id) == Per.GetById(s.periods, id)
    ensures Per.LocksKept(s.periods, r.0.periods)
  {
    match Per.GetById(s.periods, payrollId)
    case None => (s, Err(PeriodNotFound))
    case Some(p) =>
      if Per.Locked(p) then (s, Err(AlreadyLocked))
      else
        var (rows, locked) := Per.Lock(s.periods, payrollId, approvedBy, now);
        (s.(periods := rows), Ok(()))
  }

  /** A period can be approved once: approving it again is refused. */
  lemma ApproveOnce(s: State, payrollId: int, approvedBy: string, now: string, again: string, later: string)
    requires Good(s)
    requires ApprovePayroll(s, payrollId, approvedBy, now).1.Ok?
    ensures var s1 := ApprovePayroll(s, payrollId, approvedBy, now).0;
      ApprovePayroll(s1, payrollId, again, later) == (s1, Err(AlreadyLocked))
  {
  }
}
