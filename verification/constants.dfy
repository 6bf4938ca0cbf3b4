/** The configuration values of `src/utils/constants.py` that the payroll
    engine reads. Amounts and hours are exact reals; the tax rates are the
    decimal literals of the source, read exactly. */
module Constants {

  const WeeksPerYear: real := 52.0
  const MinEmployeeAge: int := 18

  const StatusActive: string := "Active"
  const StatusTerminated: string := "Terminated"
  const ValidStatuses: seq<string> := [StatusActive, StatusTerminated]
  const ValidGenders: seq<string> := ["Male", "Female"]

  const SalaryTypeSalary: string := "Salary"
  const SalaryTypeHourly: string := "Hourly"
  const ValidSalaryTypes: seq<string> := [SalaryTypeSalary, SalaryTypeHourly]

  const MedicalSingle: string := "Single"
  const MedicalFamily: string := "Family"
  const ValidMedicalTypes: seq<string> := [MedicalSingle, MedicalFamily]

  const StandardWorkHoursPerWeek: real := 40.0
  const MaxHoursPerDay: real := 24.0
  const OvertimeThresholdDaily: real := 8.0
  const MaxPtoHoursPerDay: real := 8.0
  const SalariedAutoHoursPerDay: real := 8.0
  const SalariedWorkDays: seq<string> := ["Monday", "Tuesday", "Wednesday", "Thursday", "Friday"]

  /** `DAYS_OF_WEEK`, indexed by Python's `date.weekday()`. */
  const DaysOfWeek: seq<string> :=
    ["Monday", "Tuesday", "Wednesday", "Thursday", "Friday", "Saturday", "Sunday"]

  const OvertimeMultiplier: real := 1.5
  const SaturdayMultiplier: real := 1.5

  const MedicalDeductionSingle: real := 50.0
  const MedicalDeductionFamily: real := 100.0
  const DependentStipendPerDependent: real := 45.0

  const StateTaxRate: real := 0.0315
  const FederalTaxRateEmployee: real := 0.0765
  const SocialSecurityRateEmployee: real := 0.062
  const MedicareRateEmployee: real := 0.0145

  const FederalTaxRateEmployer: real := 0.0765
  const SocialSecurityRateEmployer: real := 0.062
  const MedicareRateEmployer: real := 0.0145
}
