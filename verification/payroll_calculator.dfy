/** `PayrollCalculator` (`src/models/payroll.py`): the pure arithmetic of one
    weekly pay run. Hours are bucketed per entry, priced at the hourly rate
    with the overtime and Saturday multipliers, or replaced by a fifty-second
    of the annual salary; then come the medical deduction, the dependent
    stipend, seven flat taxes and net pay.

    Amounts are exact reals. Python's `round(x, n)` is `RoundHalfEven` and
    the `Decimal` quantisation of net pay is `RoundHalfUp` (see `Money`). */
module PayrollCalculator {
  import opened Constants
  import opened Money
  import opened TimeEntries

  /** The hours-and-pay dictionary both pay calculations return. */
  datatype PayBreakdown = PayBreakdown(
    regularHours: real,
    overtimeHours: real,
    saturdayHours: real,
    ptoHours: real,
    totalHours: real,
    basePay: real,
    overtimePay: real,
    saturdayPay: real,
    grossPay: real)

  /** The four hour buckets an hourly week is split into. */
  datatype Buckets = Buckets(regular: real, overtime: real, saturday: real, pto: real)

  // ---------------------------------------------------------------------------
  // What one entry contributes to each bucket
  // ---------------------------------------------------------------------------

  /** `is_saturday` is read for its truth value, so any non-zero flag counts. */
  predicate OnSaturday(e: TimeEntry) {
    e.isSaturday != 0
  }

  function Worked(e: TimeEntry): real {
    e.hoursWorked
  }

  function Pto(e: TimeEntry): real {
    e.ptoHours
  }

  /** A Saturday entry puts all its worked hours in the Saturday bucket. */
  function SaturdayWorked(e: TimeEntry): real {
    if OnSaturday(e) then e.hoursWorked else 0.0
  }

  /** Any other entry puts its first eight hours in the regular bucket ... */
  function WeekdayRegular(e: TimeEntry): real {
    if OnSaturday(e) then 0.0 else RegularHours(e)
  }

  /** ... and the rest in the overtime bucket. */
  function WeekdayOvertime(e: TimeEntry): real {
    if OnSaturday(e) then 0.0 else OvertimeHours(e)
  }

  /** The sum of `f` over the entries, added in list order. */
  function SumOf(s: seq<TimeEntry>, f: TimeEntry -> real): real
    decreases |s|
  {
    if |s| == 0 then 0.0 else SumOf(s[..|s| - 1], f) + f(s[|s| - 1])
  }

  lemma SumOfSnoc(s: seq<TimeEntry>, e: TimeEntry, f: TimeEntry -> real)
    ensures SumOf(s + [e], f) == SumOf(s, f) + f(e)
  {
    assert (s + [e])[..|s|] == s;
  }

  /** Every worked and PTO hour lands in exactly one bucket: the four buckets
      add up to the entries' `total_hours`, and the three worked buckets to
      the hours worked. */
  lemma {:induction false} BucketsCoverEveryHour(s: seq<TimeEntry>)
    ensures SumOf(s, WeekdayRegular) + SumOf(s, WeekdayOvertime) + SumOf(s, SaturdayWorked)
         == SumOf(s, Worked)
    ensures SumOf(s, WeekdayRegular) + SumOf(s, WeekdayOvertime) + SumOf(s, SaturdayWorked)
            + SumOf(s, Pto) == SumOf(s, TotalHours)
    decreases |s|
  {
    if |s| > 0 {
      var e := s[|s| - 1];
      BucketsCoverEveryHour(s[..|s| - 1]);
      DailySplit(e);
    }
  }

  /** A week of Saturday entries only has no regular or overtime hours: the
      Saturday hours are not split at eight. */
  lemma {:induction false} SaturdayHoursUnsplit(s: seq<TimeEntry>)
    requires forall i :: 0 <= i < |s| ==> OnSaturday(s[i])
    ensures SumOf(s, WeekdayRegular) == 0.0 && SumOf(s, WeekdayOvertime) == 0.0
    ensures SumOf(s, SaturdayWorked) == SumOf(s, Worked)
    decreases |s|
  {
    if |s| > 0 {
      SaturdayHoursUnsplit(s[..|s| - 1]);
    }
  }

  /** In every week, the regular hours add up to at most eight per entry. */
  lemma {:induction false} RegularCappedPerEntry(s: seq<TimeEntry>)
    ensures SumOf(s, WeekdayRegular) <= OvertimeThresholdDaily * |s| as real
    decreases |s|
  {
    if |s| > 0 {
      RegularCappedPerEntry(s[..|s| - 1]);
    }
  }

  // ---------------------------------------------------------------------------
  // Hourly pay
  // ---------------------------------------------------------------------------

  function Total(b: Buckets): real {
    b.regular + b.overtime + b.saturday + b.pto
  }

  /** The pay half of `calculate_hourly_pay`: PTO is paid at the plain rate
      with the regular hours, overtime and Saturday hours at one and a half
      times the rate; each amount is rounded to the cent, and the gross is the
      rounding of the unrounded sum, so it can differ from the sum of the
      rounded parts, though by no more than two cents. */
  function Price(b: Buckets, rate: real): (r: PayBreakdown)
    ensures r.regularHours == b.regular && r.overtimeHours == b.overtime
    ensures r.saturdayHours == b.saturday && r.ptoHours == b.pto
    ensures r.totalHours == Total(b)
    ensures RoundedHalfEven(r.basePay, (b.regular + b.pto) * rate, TwoPlaces)
    ensures RoundedHalfEven(r.overtimePay, b.overtime * rate * OvertimeMultiplier, TwoPlaces)
    ensures RoundedHalfEven(r.saturdayPay, b.saturday * rate * SaturdayMultiplier, TwoPlaces)
    ensures RoundedHalfEven(r.grossPay, (b.regular + b.pto) * rate + b.overtime * rate * OvertimeMultiplier
                                        + b.saturday * rate * SaturdayMultiplier, TwoPlaces)
    ensures Dist(r.grossPay, r.basePay + r.overtimePay + r.saturdayPay) <= 0.02
  {
    var base := (b.regular + b.pto) * rate;
    var overtime := b.overtime * rate * OvertimeMultiplier;
    var saturday := b.saturday * rate * SaturdayMultiplier;
    var basePay := RoundHalfEven(base, TwoPlaces);
    var overtimePay := RoundHalfEven(overtime, TwoPlaces);
    var saturdayPay := RoundHalfEven(saturday, TwoPlaces);
    var grossPay := RoundHalfEven(base + overtime + saturday, TwoPlaces);
    RoundedPartsNearGross(base, overtime, saturday, basePay, overtimePay, saturdayPay, grossPay, HalfUnit(TwoPlaces));
    PayBreakdown(b.regular, b.overtime, b.saturday, b.pto, Total(b), basePay, overtimePay, saturdayPay, grossPay)
  }

  /** Three amounts and their sum, each rounded with error at most `e`: the
      rounded sum is within `4e` of the sum of the rounded amounts. */
  lemma RoundedPartsNearGross(x: real, y: real, z: real, a: real, b: real, c: real, g: real, e: real)
    requires Dist(a, x) <= e && Dist(b, y) <= e && Dist(c, z) <= e
    requires Dist(g, x + y + z) <= e
    ensures Dist(g, a + b + c) <= 4.0 * e
  {
    DistAdd3(a, x, b, y, c, z, e);
  }

  /** `calculate_hourly_pay`: one pass over the entries fills the buckets,
      which are then priced. */
  method CalculateHourlyPay(entries: seq<TimeEntry>, rate: real) returns (r: PayBreakdown)
    ensures r.regularHours == SumOf(entries, WeekdayRegular)
    ensures r.overtimeHours == SumOf(entries, WeekdayOvertime)
    ensures r.saturdayHours == SumOf(entries, SaturdayWorked)
    ensures r.ptoHours == SumOf(entries, Pto)
    ensures r.totalHours == SumOf(entries, TotalHours)
    ensures r == Price(Buckets(r.regularHours, r.overtimeHours, r.saturdayHours, r.ptoHours), rate)
  {
    var regular, overtime, saturday, pto := 0.0, 0.0, 0.0, 0.0;
    var i := 0;
    while i < |entries|
      invariant 0 <= i <= |entries|
      invariant regular == SumOf(entries[..i], WeekdayRegular)
      invariant overtime == SumOf(entries[..i], WeekdayOvertime)
      invariant saturday == SumOf(entries[..i], SaturdayWorked)
      invariant pto == SumOf(entries[..i], Pto)
    {
      var e := entries[i];
      assert entries[..i + 1] == entries[..i] + [e];
      SumOfSnoc(entries[..i], e, WeekdayRegular);
      SumOfSnoc(entries[..i], e, WeekdayOvertime);
      SumOfSnoc(entries[..i], e, SaturdayWorked);
      SumOfSnoc(entries[..i], e, Pto);
      pto := pto + e.ptoHours;
      if e.isSaturday != 0 {
        saturday := saturday + e.hoursWorked;
      } else {
        regular := regular + RegularHours(e);
        overtime := overtime + OvertimeHours(e);
      }
      i := i + 1;
    }
    assert entries[..|entries|] == entries;
    BucketsCoverEveryHour(entries);
    r := Price(Buckets(regular, overtime, saturday, pto), rate);
  }

  /** The gross is not the sum of the rounded parts: at 10.01 an hour, 0.4
      weekday hours pay 4.004 and 0.2 Saturday hours pay 3.003; each part
      rounds down, but their sum 7.007 rounds up. */
  lemma GrossRoundsTheUnroundedSum()
    ensures Price(Buckets(0.4, 0.0, 0.2, 0.0), 10.01).basePay == 4.0
    ensures Price(Buckets(0.4, 0.0, 0.2, 0.0), 10.01).saturdayPay == 3.0
    ensures Price(Buckets(0.4, 0.0, 0.2, 0.0), 10.01).grossPay == 7.01
  {
    RoundHalfEvenUnique(4.004, TwoPlaces, 4.0);
    RoundHalfEvenUnique(3.003, TwoPlaces, 3.0);
    RoundHalfEvenUnique(7.007, TwoPlaces, 7.01);
  }

  // ---------------------------------------------------------------------------
  // Salary pay
  // ---------------------------------------------------------------------------

  /** `calculate_salary_pay`: a fifty-second of the annual salary, to the
      cent, for a standard forty-hour week with no overtime, Saturday or PTO
      hours. */
  function CalculateSalaryPay(annualSalary: real): (r: PayBreakdown)
    ensures r.regularHours == StandardWorkHoursPerWeek && r.totalHours == StandardWorkHoursPerWeek
    ensures r.overtimeHours == 0.0 && r.saturdayHours == 0.0 && r.ptoHours == 0.0
    ensures r.overtimePay == 0.0 && r.saturdayPay == 0.0
    ensures r.basePay == r.grossPay
    ensures RoundedHalfEven(r.grossPay, annualSalary / WeeksPerYear, TwoPlaces)
    ensures Dist(r.grossPay * WeeksPerYear, annualSalary) <= HalfUnit(TwoPlaces) * WeeksPerYear
  {
    var weekly := RoundHalfEven(annualSalary / WeeksPerYear, TwoPlaces);
    PayBreakdown(StandardWorkHoursPerWeek, 0.0, 0.0, 0.0, StandardWorkHoursPerWeek,
                 weekly, 0.0, 0.0, weekly)
  }

  /** A salary that is a whole number of cents per week is paid exactly. */
  lemma SalaryPayExact(annualSalary: real)
    requires HasPlaces(annualSalary / WeeksPerYear, TwoPlaces)
    ensures CalculateSalaryPay(annualSalary).grossPay * WeeksPerYear == annualSalary
  {
    RoundExact(annualSalary / WeeksPerYear, TwoPlaces);
  }

  // ---------------------------------------------------------------------------
  // Deduction and stipend
  // ---------------------------------------------------------------------------

  /** `calculate_medical_deduction`: the family rate for exactly the text
      "Family", the single rate for anything else. */
  function CalculateMedicalDeduction(medicalType: string): (d: real)
    ensures d == MedicalDeductionFamily <==> medicalType == MedicalFamily
    ensures d == MedicalDeductionSingle <==> medicalType != MedicalFamily
  {
    if medicalType == MedicalFamily then MedicalDeductionFamily else MedicalDeductionSingle
  }

  /** `calculate_dependent_stipend`: income added per dependent. */
  function CalculateDependentStipend(dependents: int): (s: real)
    ensures s / DependentStipendPerDependent == dependents as real
    ensures s >= 0.0 <==> dependents >= 0
    ensures HasPlaces(s, TwoPlaces)
  {
    IntegerHasPlaces(dependents * 45, TwoPlaces);
    dependents as real * DependentStipendPerDependent
  }

  // ---------------------------------------------------------------------------
  // Taxes
  // ---------------------------------------------------------------------------

  /** The tax dictionary: four employee amounts and their total, three
      employer amounts and theirs. */
  datatype Taxes = Taxes(
    stateTax: real,
    federalEmployee: real,
    socialSecurityEmployee: real,
    medicareEmployee: real,
    totalEmployee: real,
    federalEmployer: real,
    socialSecurityEmployer: real,
    medicareEmployer: real,
    totalEmployer: real)

  /** One flat tax, kept to four places. */
  function FlatTax(taxable: real, rate: real): (t: real)
    ensures RoundedHalfEven(t, taxable * rate, FourPlaces)
    ensures taxable >= 0.0 && rate >= 0.0 ==> t >= 0.0
  {
    if taxable >= 0.0 && rate >= 0.0 then
      RoundNonNegative(taxable * rate, FourPlaces);
      RoundHalfEven(taxable * rate, FourPlaces)
    else
      RoundHalfEven(taxable * rate, FourPlaces)
  }

  /** Four-place amounts add up to a four-place amount, which rounding keeps. */
  lemma ExactSum(a: real, b: real, c: real, d: real)
    requires HasPlaces(a, FourPlaces) && HasPlaces(b, FourPlaces)
    requires HasPlaces(c, FourPlaces) && HasPlaces(d, FourPlaces)
    ensures RoundHalfEven(a + b + c + d, FourPlaces) == a + b + c + d
    ensures RoundHalfEven(b + c + d, FourPlaces) == b + c + d
  {
    PlacesClosed(b, c, FourPlaces);
    PlacesClosed(b + c, d, FourPlaces);
    PlacesClosed(a, b + c + d, FourPlaces);
    assert a + (b + c + d) == a + b + c + d;
    RoundExact(a + b + c + d, FourPlaces);
    RoundExact(b + c + d, FourPlaces);
  }

  /** The employee's combined rate: state, federal, social security, Medicare. */
  const EmployeeRate: real := StateTaxRate + FederalTaxRateEmployee + SocialSecurityRateEmployee + MedicareRateEmployee
  /** The employer's combined rate: federal, social security, Medicare. */
  const EmployerRate: real := FederalTaxRateEmployer + SocialSecurityRateEmployer + MedicareRateEmployer

  /** `calculate_taxes`. The rounding of each total is exact, because each
      part already has four places; so the employee total is exactly its own
      four parts and the employer total exactly its three: no employer amount
      enters the employee total. The employer pays the same federal, social
      security and Medicare amounts as the employee. */
  function CalculateTaxes(taxable: real): (t: Taxes)
    ensures t.totalEmployee == t.stateTax + t.federalEmployee + t.socialSecurityEmployee + t.medicareEmployee
    ensures t.totalEmployer == t.federalEmployer + t.socialSecurityEmployer + t.medicareEmployer
    ensures RoundedHalfEven(t.stateTax, taxable * StateTaxRate, FourPlaces)
    ensures RoundedHalfEven(t.federalEmployee, taxable * FederalTaxRateEmployee, FourPlaces)
    ensures RoundedHalfEven(t.socialSecurityEmployee, taxable * SocialSecurityRateEmployee, FourPlaces)
    ensures RoundedHalfEven(t.medicareEmployee, taxable * MedicareRateEmployee, FourPlaces)
    ensures RoundedHalfEven(t.federalEmployer, taxable * FederalTaxRateEmployer, FourPlaces)
    ensures RoundedHalfEven(t.socialSecurityEmployer, taxable * SocialSecurityRateEmployer, FourPlaces)
    ensures RoundedHalfEven(t.medicareEmployer, taxable * MedicareRateEmployer, FourPlaces)
    ensures t.federalEmployer == t.federalEmployee
    ensures t.socialSecurityEmployer == t.socialSecurityEmployee
    ensures t.medicareEmployer == t.medicareEmployee
    ensures t.totalEmployer == t.totalEmployee - t.stateTax
    ensures HasPlaces(t.totalEmployee, FourPlaces) && HasPlaces(t.totalEmployer, FourPlaces)
    ensures taxable >= 0.0 ==> t.stateTax >= 0.0 && t.totalEmployer >= 0.0
  {
    var state := FlatTax(taxable, StateTaxRate);
    var federal := FlatTax(taxable, FederalTaxRateEmployee);
    var social := FlatTax(taxable, SocialSecurityRateEmployee);
    var medicare := FlatTax(taxable, MedicareRateEmployee);
    var federalEr := FlatTax(taxable, FederalTaxRateEmployer);
    var socialEr := FlatTax(taxable, SocialSecurityRateEmployer);
    var medicareEr := FlatTax(taxable, MedicareRateEmployer);
    ExactSum(state, federal, social, medicare);
    ExactSum(0.0, federalEr, socialEr, medicareEr);
    Taxes(
      state, federal, social, medicare,
      RoundHalfEven(state + federal + social + medicare, FourPlaces),
      federalEr, socialEr, medicareEr,
      RoundHalfEven(federalEr + socialEr + medicareEr, FourPlaces))
  }

  /** A total of four amounts, each within `e` of the taxable income times
      its rate, is within `4e` of the taxable income times the summed rate. */
  lemma TotalNearRate4(total: real, a: real, b: real, c: real, d: real,
                       t: real, r1: real, r2: real, r3: real, r4: real, rate: real, e: real)
    requires total == a + b + c + d && rate == r1 + r2 + r3 + r4
    requires Dist(a, t * r1) <= e && Dist(b, t * r2) <= e && Dist(c, t * r3) <= e && Dist(d, t * r4) <= e
    ensures Dist(total, t * rate) <= 4.0 * e
  {
    DistAdd4(a, t * r1, b, t * r2, c, t * r3, d, t * r4, e);
    assert t * r1 + t * r2 + t * r3 + t * r4 == t * rate;
  }

  /** The same for three amounts. */
  lemma TotalNearRate3(total: real, a: real, b: real, c: real,
                       t: real, r1: real, r2: real, r3: real, rate: real, e: real)
    requires total == a + b + c && rate == r1 + r2 + r3
    requires Dist(a, t * r1) <= e && Dist(b, t * r2) <= e && Dist(c, t * r3) <= e
    ensures Dist(total, t * rate) <= 3.0 * e
  {
    DistAdd3(a, t * r1, b, t * r2, c, t * r3, e);
    assert t * r1 + t * r2 + t * r3 == t * rate;
  }

  /** The employee total is within four half-units of the fourth place of
      the combined employee rate times the taxable income. */
  lemma EmployeeTaxNearCombinedRate(taxable: real)
    ensures Dist(CalculateTaxes(taxable).totalEmployee, taxable * EmployeeRate) <= 4.0 * HalfUnit(FourPlaces)
  {
    var t := CalculateTaxes(taxable);
    TotalNearRate4(t.totalEmployee, t.stateTax, t.federalEmployee, t.socialSecurityEmployee, t.medicareEmployee,
                   taxable, StateTaxRate, FederalTaxRateEmployee, SocialSecurityRateEmployee, MedicareRateEmployee,
                   EmployeeRate, HalfUnit(FourPlaces));
  }

  /** The employer total is within three half-units of the combined employer rate's amount. */
  lemma EmployerTaxNearCombinedRate(taxable: real)
    ensures Dist(CalculateTaxes(taxable).totalEmployer, taxable * EmployerRate) <= 3.0 * HalfUnit(FourPlaces)
  {
    var t := CalculateTaxes(taxable);
    TotalNearRate3(t.totalEmployer, t.federalEmployer, t.socialSecurityEmployer, t.medicareEmployer,
                   taxable, FederalTaxRateEmployer, SocialSecurityRateEmployer, MedicareRateEmployer,
                   EmployerRate, HalfUnit(FourPlaces));
  }

  // ---------------------------------------------------------------------------
  // Net pay
  // ---------------------------------------------------------------------------

  datatype NetPay = NetPay(taxableIncome: real, netPay: real)

  /** `calculate_net_pay`: taxable income is gross less the medical
      deduction, net pay is that less the employee taxes; both are returned
      to the cent, ties rounded away from zero. */
  function CalculateNetPay(grossPay: real, medicalDeduction: real, employeeTaxes: real): (r: NetPay)
    ensures HasPlaces(r.taxableIncome, TwoPlaces) && HasPlaces(r.netPay, TwoPlaces)
    ensures Dist(r.taxableIncome, grossPay - medicalDeduction) <= HalfUnit(TwoPlaces)
    ensures Dist(r.taxableIncome, grossPay - medicalDeduction) == HalfUnit(TwoPlaces)
            ==> Abs(r.taxableIncome) > Abs(grossPay - medicalDeduction)
    ensures Dist(r.netPay, grossPay - medicalDeduction - employeeTaxes) <= HalfUnit(TwoPlaces)
    ensures Dist(r.netPay, grossPay - medicalDeduction - employeeTaxes) == HalfUnit(TwoPlaces)
            ==> Abs(r.netPay) > Abs(grossPay - medicalDeduction - employeeTaxes)
  {
    var taxable := grossPay - medicalDeduction;
    NetPay(RoundHalfUp(taxable, TwoPlaces), RoundHalfUp(taxable - employeeTaxes, TwoPlaces))
  }

  /** With whole-cent gross pay and deduction the taxable income needs no
      rounding. */
  lemma NetPayOfWholeCents(grossPay: real, medicalDeduction: real, employeeTaxes: real)
    requires HasPlaces(grossPay, TwoPlaces) && HasPlaces(medicalDeduction, TwoPlaces)
    ensures CalculateNetPay(grossPay, medicalDeduction, employeeTaxes).taxableIncome
            == grossPay - medicalDeduction
  {
    PlacesClosed(grossPay, medicalDeduction, TwoPlaces);
    RoundExact(grossPay - medicalDeduction, TwoPlaces);
  }

  /** Net pay rounds half a cent up where Python's `round` would go to even:
      100.00 less 0.015 of tax nets 99.99, not the even 99.98. */
  lemma NetPayRoundsHalfUp()
    ensures CalculateNetPay(100.0, 0.0, 0.015).netPay == 99.99
    ensures RoundHalfEven(99.985, TwoPlaces) == 99.98
  {
    RoundHalfUpUnique(99.985, TwoPlaces, 99.99);
    RoundHalfEvenUnique(99.985, TwoPlaces, 99.98);
  }

  // ---------------------------------------------------------------------------
  // Two worked weeks
  // ---------------------------------------------------------------------------

  /** A salaried employee on 78,000 a year with single medical cover and no
      dependents: 1500.00 a week, 1450.00 taxable, employee taxes of
      45.675 + 110.925 + 89.90 + 21.025 = 267.525, and a net pay of 1182.48,
      the half cent of 1182.475 rounded up. */
  lemma SalariedWeek()
    ensures CalculateSalaryPay(78000.0).grossPay == 1500.0
    ensures CalculateMedicalDeduction(MedicalSingle) == 50.0
    ensures CalculateTaxes(1450.0).totalEmployee == 267.525
    ensures CalculateNetPay(1500.0, 50.0, 267.525) == NetPay(1450.0, 1182.48)
  {
    RoundHalfEvenUnique(78000.0 / WeeksPerYear, TwoPlaces, 1500.0);
    RoundExact(45.675, FourPlaces);
    RoundExact(110.925, FourPlaces);
    RoundExact(89.9, FourPlaces);
    RoundExact(21.025, FourPlaces);
    RoundExact(267.525, FourPlaces);
    RoundExact(1450.0, TwoPlaces);
    RoundHalfUpUnique(1182.475, TwoPlaces, 1182.48);
  }

  /** One ten-hour weekday entry fills eight regular and two overtime hours. */
  lemma TenHourWeekday(e: TimeEntry)
    requires e.isSaturday == 0 && e.hoursWorked == 10.0 && e.ptoHours == 0.0
    ensures SumOf([e], WeekdayRegular) == 8.0 && SumOf([e], WeekdayOvertime) == 2.0
    ensures SumOf([e], SaturdayWorked) == 0.0 && SumOf([e], Pto) == 0.0
  {
    assert [e][..0] == [];
  }

  /** Rounding 5.125 to the cent is a tie: `round` keeps the even cent,
      rounding half up, as net pay does, goes to 5.13. */
  lemma HalfCentTie()
    ensures RoundHalfEven(5.125, TwoPlaces) == 5.12
    ensures RoundHalfUp(5.125, TwoPlaces) == 5.13
  {
    RoundHalfEvenUnique(5.125, TwoPlaces, 5.12);
    assert Scaled(5.13, TwoPlaces) == 513.0 && (513.0).Floor == 513;
    assert Dist(5.13, 5.125) == 0.005 && Abs(5.13) > Abs(5.125);
    RoundHalfUpUnique(5.125, TwoPlaces, 5.13);
  }

  /** Half an hour at 10.25 is 5.125, exactly halfway between two cents,
      and is paid as 5.12. */
  lemma HalfCentTieToEven()
    ensures Price(Buckets(0.5, 0.0, 0.0, 0.0), 10.25).basePay == 5.12
  {
    var pay := Price(Buckets(0.5, 0.0, 0.0, 0.0), 10.25).basePay;
    assert RoundedHalfEven(pay, 5.125, TwoPlaces) by {
      assert (0.5 + 0.0) * 10.25 == 5.125;
    }
    RoundHalfEvenUnique(5.125, TwoPlaces, pay);
    HalfCentTie();
  }

  /** An hourly employee at 20.00 with eight regular and two overtime hours:
      160.00 base and 60.00 overtime pay, 220.00 gross. */
  lemma HourlyTenHourDay()
    ensures Price(Buckets(8.0, 2.0, 0.0, 0.0), 20.0)
            == PayBreakdown(8.0, 2.0, 0.0, 0.0, 10.0, 160.0, 60.0, 0.0, 220.0)
  {
    var r := Price(Buckets(8.0, 2.0, 0.0, 0.0), 20.0);
    assert r.basePay == 160.0 by {
      assert r.basePay == RoundHalfEven(160.0, TwoPlaces);
      RoundHalfEvenUnique(160.0, TwoPlaces, 160.0);
    }
    assert r.overtimePay == 60.0 by {
      assert r.overtimePay == RoundHalfEven(60.0, TwoPlaces);
      RoundHalfEvenUnique(60.0, TwoPlaces, 60.0);
    }
    assert r.saturdayPay == 0.0 by {
      assert r.saturdayPay == RoundHalfEven(0.0, TwoPlaces);
      RoundHalfEvenUnique(0.0, TwoPlaces, 0.0);
    }
    assert r.grossPay == 220.0 by {
      assert r.grossPay == RoundHalfEven(220.0, TwoPlaces);
      assert Scaled(220.0, TwoPlaces) == 22000.0;
      RoundHalfEvenUnique(220.0, TwoPlaces, 220.0);
    }
  }
}
