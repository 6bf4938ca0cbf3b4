/** Per-employee pay results (`PayrollDetail` in `src/models/payroll.py`):
    one row per (pay period, employee) holding the hours, pay, deductions,
    taxes and net pay of one calculation.

    The table is a map keyed by (payroll id, employee id), the pair the
    controller looks a detail up by. A detail without a row id is
    inserted; one read back from the table is updated in place. */
module Details {
  import opened Wrappers
  import opened PayrollCalculator

  datatype Detail = Detail(
    payrollId: int,
    employeeId: string,
    regularHours: real,
    overtimeHours: real,
    saturdayHours: real,
    ptoHours: real,
    totalHours: real,
    basePay: real,
    overtimePay: real,
    saturdayPay: real,
    dependentStipend: real,
    grossPay: real,
    medicalDeduction: real,
    totalEmployeeDeductions: real,
    taxableIncome: real,
    taxes: Taxes,
    netPay: real)

  type Key = (int, string)

  type Store = map<Key, Detail>

  function KeyOf(d: Detail): Key {
    (d.payrollId, d.employeeId)
  }

  /** A detail as the table gives it back. `_insert` and `_update` write
      every amount except the total employee deductions, which has no
      column of its own, and `_row_to_payroll_detail` fills that total in
      from the medical deduction. */
  function AsStored(d: Detail): (s: Detail)
    ensures s.totalEmployeeDeductions == s.medicalDeduction
    ensures s.(totalEmployeeDeductions := d.totalEmployeeDeductions) == d
    ensures KeyOf(s) == KeyOf(d)
  {
    d.(totalEmployeeDeductions := d.medicalDeduction)
  }

  /** Every row is filed under its own key and reads back with its total
      deductions equal to its medical deduction. */
  predicate Consistent(store: Store) {
    forall k :: k in store ==> KeyOf(store[k]) == k && store[k].totalEmployeeDeductions == store[k].medicalDeduction
  }

  /** A fresh detail: every amount at its constructor default of zero. */
  function NewDetail(payrollId: int, employeeId: string): (d: Detail)
    ensures KeyOf(d) == (payrollId, employeeId)
    ensures d.regularHours == 0.0 && d.overtimeHours == 0.0 && d.saturdayHours == 0.0
         && d.ptoHours == 0.0 && d.totalHours == 0.0
    ensures d.basePay == 0.0 && d.overtimePay == 0.0 && d.saturdayPay == 0.0
         && d.dependentStipend == 0.0 && d.grossPay == 0.0
    ensures d.medicalDeduction == 0.0 && d.totalEmployeeDeductions == 0.0 && d.taxableIncome == 0.0
    ensures d.taxes == Taxes(0.0, 0.0, 0.0, 0.0, 0.0, 0.0, 0.0, 0.0, 0.0)
    ensures d.netPay == 0.0
  {
    Detail(payrollId, employeeId, 0.0, 0.0, 0.0, 0.0, 0.0, 0.0, 0.0, 0.0, 0.0, 0.0, 0.0, 0.0, 0.0,
           Taxes(0.0, 0.0, 0.0, 0.0, 0.0, 0.0, 0.0, 0.0, 0.0), 0.0)
  }

  /** `get_by_payroll_and_employee`. */
  function GetByPayrollAndEmployee(store: Store, payrollId: int, employeeId: string): (r: Option<Detail>)
    requires Consistent(store)
    ensures r.Some? <==> (payrollId, employeeId) in store
    ensures r.Some? ==> r.value == store[(payrollId, employeeId)] && KeyOf(r.value) == (payrollId, employeeId)
    ensures r.Some? ==> r.value.totalEmployeeDeductions == r.value.medicalDeduction
  {
    if (payrollId, employeeId) in store then Some(store[(payrollId, employeeId)]) else None
  }

  /** `save`: a new detail is inserted, and the insert fails when its
      (period, employee) pair already has a row; an existing detail is
      updated, and the update fails when its row is gone. A failed save
      changes nothing; a successful one stores the row as the table holds
      it. */
  function Save(store: Store, d: Detail, isNew: bool): (r: (Store, bool))
    requires Consistent(store)
    ensures Consistent(r.0)
    ensures r.1 <==> (isNew != (KeyOf(d) in store))
    ensures !r.1 ==> r.0 == store
    ensures r.1 ==> KeyOf(d) in r.0 && r.0[KeyOf(d)] == AsStored(d)
    ensures r.1 ==> r.0.Keys == store.Keys + {KeyOf(d)}
    ensures forall k :: k != KeyOf(d) ==> (k in r.0 <==> k in store)
    ensures forall k :: k in store && k != KeyOf(d) ==> r.0[k] == store[k]
  {
    if isNew == (KeyOf(d) in store) then (store, false)
    else (store[KeyOf(d) := AsStored(d)], true)
  }

  /** Reading back after a successful save returns what was saved, except
      that the total deductions read back as the medical deduction; every
      other pair reads as before. */
  lemma SaveThenGet(store: Store, d: Detail, isNew: bool, payrollId: int, employeeId: string)
    requires Consistent(store)
    requires Save(store, d, isNew).1
    ensures var g := GetByPayrollAndEmployee(Save(store, d, isNew).0, d.payrollId, d.employeeId);
      && g.Some?
      && g.value.(totalEmployeeDeductions := d.totalEmployeeDeductions) == d
      && g.value.totalEmployeeDeductions == d.medicalDeduction
    ensures (payrollId, employeeId) != KeyOf(d) ==>
      GetByPayrollAndEmployee(Save(store, d, isNew).0, payrollId, employeeId)
        == GetByPayrollAndEmployee(store, payrollId, employeeId)
  {
  }

  /** Saving a detail read back from the table, unchanged, changes nothing. */
  lemma SaveUnchangedIsNoOp(store: Store, payrollId: int, employeeId: string)
    requires Consistent(store)
    requires GetByPayrollAndEmployee(store, payrollId, employeeId).Some?
    ensures var d := GetByPayrollAndEmployee(store, payrollId, employeeId).value;
      Save(store, d, false) == (store, true)
  {
    var d := GetByPayrollAndEmployee(store, payrollId, employeeId).value;
    assert AsStored(d) == d;
    assert store[KeyOf(d) := d] == store;
  }
}
