# Weekly payroll engine of SDEV268PayrollApplication, in Dafny

This project models the weekly payroll engine of the SDEV268 payroll
application. That application is a Flask and SQLite program for a small
company. It records daily time entries, computes one week's pay per
employee, and locks the week once it is approved. The model covers four
layers:

- **Time entries** (`TimeEntries`, `time_entry.dfy`). These cover:
  - the daily regular/overtime split at eight hours;
  - field validation;
  - the day name and Saturday flag derived from the date;
  - the entry table, with one row per (employee, date);
  - the date-range query, and the bulk stamping of unassigned entries with a pay period.
- **The calculator** (`PayrollCalculator`, `payroll_calculator.dfy`). These are pure functions:
  - the hourly bucket split and its pay;
  - salary-to-week conversion;
  - the medical deduction and dependent stipend;
  - seven flat taxes rounded to four places;
  - net pay rounded half-up to the cent.

  The rates and thresholds are in `Constants` (`constants.dfy`).
- **Pay periods, pay details and the payroll controller** (`Periods`, `Details`, `PayrollController`). These cover:
  - the Monday-to-Sunday week of a date;
  - get-or-create of a period and one-way locking;
  - the locked-period guards on time entries;
  - the `calculate_weekly_pay` pipeline and its batch form;
  - auto-fill of salaried weeks;
  - approval.
- **Employees and credentials** (`Employees`, `EmployeeController`, `Auth`). These cover:
  - age, full name and pay rate;
  - the ordered validation messages;
  - the insert-or-update rules of `save`;
  - employee id generation;
  - create, update, terminate and reactivate, and permanent delete;
  - the department and job-title lists;
  - the username and initial password, and the login decision.

Supporting modules:
- `Wrappers`: `Option` and `Result`.
- `Text`: whitespace stripping, ASCII lower-casing, split and join, integer parsing, zero-padded numerals, and text order.
- `Money`: round-half-even and round-half-up at a number of decimal places, over exact reals.
- `Dates`: proleptic Gregorian dates as Python ordinals, where 0001-01-01 is day 1 and a Monday. The module has `strptime("%Y-%m-%d")` parsing, `strftime` formatting, and a proof that the text order of formatted dates is their chronological order.
- `Query`: filtering and a stable insertion sort.

The SQLite tables are immutable values:
- Employees, time entries and pay periods are sequences in insertion order.
- Pay details are a map keyed by (payroll id, employee id).
- Every operation that writes returns the new tables together with the outcome.

The source's `(success, message, value)` tuples become `Result` values, with one error constructor per message branch.

Dates inside the tables stay text, as in the database. A range query compares the text, as SQLite does. `Dates.FormatOrder` shows that this agrees with calendar order for the dates the program writes.

Anything read from outside is a parameter:
- "today" and "now";
- the Argon2 password check (`verify`).

### Notes on the code

- **Hourly gross pay.** `calculate_hourly_pay` rounds the *unrounded* sum of the three pay amounts (`src/models/payroll.py:698-712`), while each of the three amounts it returns is rounded on its own. So the gross can differ from the sum of the returned amounts by up to two cents. `PayrollCalculator.GrossRoundsTheUnroundedSum` gives a week where they differ by one cent.
- **Employee tax total.** `calculate_taxes` rounds the sum of four parts: state, federal, social security and medicare (`src/models/payroll.py:791-801`).
- **Stored taxable income.** The controller stores `gross - medical` unrounded (`src/controllers/payroll_controller.py:362`). The net pay comes from `calculate_net_pay`. So the stored net pay equals stored taxable income minus employee taxes only to within half a cent (`PayrollController.Fill`).
- **Weekend hours.** Only entries with the `is_saturday` flag go to the premium bucket (`src/models/payroll.py:687-693`). Sunday hours are split into regular and overtime like any weekday.
- **Rounding ties.** Pay amounts and taxes use Python's `round`, which sends a tie to the even last digit (`src/models/payroll.py:695-713`, `:791-797`). Net pay uses `ROUND_HALF_UP` (`src/models/payroll.py:825-856`). Half an hour at 10.25 is 5.125, which is paid 5.12 (`PayrollCalculator.HalfCentTieToEven`), while half-up rounding would give 5.13.
- **Total deductions.** Neither the INSERT nor the UPDATE of a pay detail writes `total_employee_deductions` (`src/models/payroll.py:385-482`). The row reader fills that field from `medical_deduction` (`src/models/payroll.py:576`). So a detail read back has total deductions equal to its medical deduction, whatever was computed (`Details.AsStored`, `Details.SaveThenGet`).
- **Usernames.** The docstring of `generate_employee_username` gives `roy.mustang` as the username for `roy.mustang@abccompany.com`, but the code returns the whole lower-cased email (`database/auth.py:16-26`). The model follows the code.

## Model

| member | source | states |
|---|---|---|
| TimeEntries.RegularHours | src/models/time_entry.py:88-91 | regular hours never exceed eight or the hours worked, and equal one of the two |
| TimeEntries.OvertimeHours | src/models/time_entry.py:81-86 | overtime is never negative, and is positive exactly when more than eight hours were worked |
| TimeEntries.DailySplit | src/models/time_entry.py:77-91 | regular plus overtime is the hours worked; total hours are regular + overtime + PTO; up to eight hours have no overtime; from eight up the regular part is exactly eight |
| TimeEntries.MessagesExact | src/models/time_entry.py:102-148 | a message is in the ordered list `validate` builds exactly when its rule fires |
| TimeEntries.Validate | src/models/time_entry.py:102-148 | the error list holds exactly the rules that fire (blank id, missing or malformed date, unknown day name, hours or PTO out of range, total above 24, a Saturday without the flag), at most ten, each once and in the order `validate` checks the rules |
| TimeEntries.FiredInOrder | src/models/time_entry.py:102-148 | keeping only the firing rules of a list in check order leaves a list in check order |
| TimeEntries.ValidIffWellFormed | src/models/time_entry.py:102-152 | `is_valid` holds exactly when the entry meets every field rule, stated independently of the message list |
| TimeEntries.SaturdayRuleOneWay | src/models/time_entry.py:144-146 | setting the Saturday flag on a valid entry of any day keeps it valid: the check only rejects a Saturday without the flag |
| TimeEntries.GetDayOfWeek | src/models/time_entry.py:459-471 | a name comes back exactly when the date parses; it is one of the seven day names, and it is "Saturday" exactly when the date's weekday is Saturday |
| TimeEntries.CreateEntry | src/models/time_entry.py:474-506 | an entry is built exactly when the date parses; it carries the given id, date, hours, PTO and notes, no period, a known day name, and the Saturday flag is 1 exactly on Saturdays and 0 otherwise |
| TimeEntries.CreatedEntryDayRules | src/models/time_entry.py:495-506 | a created entry never fails the date, day-name or Saturday rules |
| TimeEntries.FindEntry | src/models/time_entry.py:257-279 | the lookup by (employee, date) finds nothing exactly when no row has that pair, else a row of the table with that pair |
| TimeEntries.FindEntryUnique | src/models/time_entry.py:257-279 | with one row per (employee, date), the lookup of a stored row's pair returns that row |
| TimeEntries.Save | src/models/time_entry.py:158-231 | an invalid entry is refused and nothing is written; a valid one succeeds exactly when an insert meets no row with its pair or an update meets one; success appends on insert, replaces only that pair's row on update, and keeps one row per pair |
| TimeEntries.Delete | src/models/time_entry.py:409-421 | succeeds exactly when the pair has a row; afterwards that pair is gone and every other row is kept |
| TimeEntries.OrderByDate | src/models/time_entry.py:282-330 | the ordering step returns the same rows, in ascending date order |
| TimeEntries.GetByEmployee | src/models/time_entry.py:282-330 | returns exactly the employee's rows whose date lies within the given bounds (a missing bound does not restrict), in ascending date order |
| TimeEntries.GetUnassignedEntries | src/models/time_entry.py:352-374 | returns exactly the employee's in-range rows with no period, in date order |
| TimeEntries.AssignToPayroll | src/models/time_entry.py:381-403 | stamps the period on exactly the unassigned in-range rows of that employee, leaves every other row as it was, and counts the rows stamped |
| TimeEntries.AssignIdempotent | src/models/time_entry.py:396-403 | after one assignment no matching row is unassigned, so a second call changes nothing and counts zero |
| Dates.ParseIsoDate | src/models/time_entry.py:119-122 | a parsed date is a valid calendar date, and the text has exactly three dash-separated fields |
| Dates.ParseFormat | src/controllers/payroll_controller.py:59-64 | a formatted valid date parses back to itself |
| Dates.FormatParse | src/models/time_entry.py:119-122 | a ten-character text without spaces that parses is the formatted spelling of the date it names; with `ParseFormat`, parsing is the exact inverse of formatting on such texts, so a day missing from its month (`2024-02-30`) is rejected rather than moved |
| Dates.FormatOrder | src/models/time_entry.py:299-305 | text order of two formatted dates is their chronological order, and equal text means equal dates |
| Dates.DayName | src/models/time_entry.py:470-471 | the day name is one of the seven, and is "Saturday" exactly on weekday 5 |
| Dates.AddDays | src/controllers/payroll_controller.py:731 | stepping by `k` days succeeds exactly when the result stays within 0001-01-01..9999-12-31 |
| Text.Strip | database/auth.py:232 | the result is the input minus its leading and trailing whitespace, is empty exactly for blank input, and neither starts nor ends with whitespace |
| Text.StripClean | database/auth.py:232 | text that neither starts nor ends with whitespace is left as it is by the strip |
| Text.StripIdempotent | database/auth.py:232 | stripping twice is stripping once |
| Text.Lower | database/auth.py:26 | same length, no upper-case letter left, every other character unchanged |
| Money.RoundHalfEven | src/models/payroll.py:709-712 | the result has the given number of places, is within half a unit of the input, and on a tie has an even last digit |
| Money.RoundHalfUp | src/models/payroll.py:847-851 | the result has the given number of places, is within half a unit of the input, and on a tie lies farther from zero |
| Money.RoundingModesAgreeOffTies | src/models/payroll.py:698-851 | the two rounding modes give the same result whenever the input is not a tie |
| PayrollCalculator.BucketsCoverEveryHour | src/models/payroll.py:684-695 | over any list of entries the regular, overtime and Saturday buckets add up to the hours worked, and with PTO to the total hours |
| PayrollCalculator.SaturdayHoursUnsplit | src/models/payroll.py:687-689 | Saturday entries put all worked hours in the Saturday bucket and nothing in regular or overtime |
| PayrollCalculator.RegularCappedPerEntry | src/models/payroll.py:690-693 | the regular bucket never exceeds eight hours per entry |
| PayrollCalculator.Price | src/models/payroll.py:695-713 | each pay amount is `round(hours x rate, 2)` (x1.5 for overtime and Saturday): the whole number of cents nearest the exact amount, a tie going to the even cent; the gross is the same rounding of the exact sum and lies within two cents of the sum of the rounded amounts |
| PayrollCalculator.HalfCentTie | src/models/payroll.py:825-856 | 5.125 kept to the cent is a tie: `round` gives 5.12, the even cent, and net pay's half-up rounding gives 5.13 |
| PayrollCalculator.HalfCentTieToEven | src/models/payroll.py:695-713 | half an hour at 10.25 an hour is paid 5.12, not 5.13 |
| PayrollCalculator.CalculateHourlyPay | src/models/payroll.py:664-713 | the loop's hour buckets are the sums of the per-entry bucket rules, and the pay is priced from those buckets |
| PayrollCalculator.GrossRoundsTheUnroundedSum | src/models/payroll.py:698-712 | a week (0.4 regular and 0.2 Saturday hours at 10.01) whose gross is 7.01 while its rounded parts add up to 7.00 |
| PayrollCalculator.CalculateSalaryPay | src/models/payroll.py:716-738 | 40 regular and total hours, no overtime, Saturday or PTO; base pay equals gross; the gross is `round(salary / 52, 2)`, the nearest cent with a tie going to the even cent, and 52 of them are within 26 cents of the annual salary |
| PayrollCalculator.SalaryPayExact | src/models/payroll.py:726-737 | when the salary divides into whole cents a week, 52 weeks pay exactly the salary |
| PayrollCalculator.CalculateMedicalDeduction | src/models/payroll.py:741-754 | 100 exactly when the type is "Family", 50 for every other type |
| PayrollCalculator.CalculateDependentStipend | src/models/payroll.py:757-769 | the stipend is 45 per dependent, whole cents, and non-negative exactly when the count is |
| PayrollCalculator.FlatTax | src/models/payroll.py:791-797 | a tax is `round(taxable x rate, 4)`: the nearest multiple of 0.0001, a tie going to the even last digit; it is non-negative on non-negative input |
| PayrollCalculator.CalculateTaxes | src/models/payroll.py:772-822 | each of the four employee taxes and the three employer taxes is `round(taxable x its rate, 4)`, a tie going to the even last digit; the employer amounts mirror the employee federal, social-security and medicare amounts; the employee total sums four parts and the employer total three; the employer total is the employee total minus state tax |
| PayrollCalculator.EmployeeTaxNearCombinedRate | src/models/payroll.py:791-801 | the employee total is within 4 x 0.00005 of taxable x 18.45% |
| PayrollCalculator.EmployerTaxNearCombinedRate | src/models/payroll.py:804-810 | the employer total is within 3 x 0.00005 of taxable x 15.3% |
| PayrollCalculator.CalculateNetPay | src/models/payroll.py:825-856 | taxable income and net pay are whole cents, each within half a cent of gross - medical and gross - medical - taxes, and for both a tie is rounded away from zero |
| PayrollCalculator.NetPayOfWholeCents | src/models/payroll.py:842-854 | with gross and deduction in whole cents the taxable income is exactly gross - medical |
| PayrollCalculator.NetPayRoundsHalfUp | src/models/payroll.py:847-855 | a net of 99.985 is paid as 99.99, where banker's rounding would give 99.98 |
| PayrollCalculator.SalariedWeek | src/models/payroll.py:716-856 | a 78,000 salary with single coverage pays 1,500 gross, 50 medical, 267.525 employee tax, 1,450 taxable and 1,182.48 net |
| PayrollCalculator.TenHourWeekday | src/models/payroll.py:684-695 | one ten-hour weekday puts 8 hours in regular and 2 in overtime |
| PayrollCalculator.HourlyTenHourDay | src/models/payroll.py:698-712 | eight regular and two overtime hours at 20 pay 160 + 60 = 220 |
| Periods.Week | src/models/payroll.py:254-258 | the week of a day starts on a Monday at or before it and ends six days later at or after it; it is missing only when that Sunday is past 9999-12-31 |
| Periods.WeekOfEveryDay | src/models/payroll.py:254-258 | all seven days of a week have that same week |
| Periods.GetCurrentPeriod | src/models/payroll.py:247-260 | the returned texts parse to a Monday at or before today and the Sunday six days later, at or after today |
| Periods.SameWeekSamePeriod | src/models/payroll.py:247-260 | two days of one week give the same period |
| Periods.PeriodOfMonday | src/models/payroll.py:247-260 | the period of the Monday a period starts on is that same period |
| Periods.GetById | src/models/payroll.py:176-184 | finds the period with that id when there is one, and nothing when no period has it |
| Periods.GetByDates | src/models/payroll.py:187-200 | finds nothing exactly when no period has those exact dates, else the first period that does |
| Periods.GetOrCreate | src/models/payroll.py:203-214 | returns the existing period for the exact (start, end) pair with the table unchanged, else appends and returns a new unlocked period with the next id |
| Periods.GetOrCreateIdempotent | src/models/payroll.py:203-214 | a second call with the same dates returns the same period and changes nothing |
| Periods.GetOrCreateKeepsDistinct | src/models/payroll.py:203-214 | no two periods ever share a (start, end) pair |
| Periods.Lock | src/models/payroll.py:168-173 | succeeds exactly when the id exists; sets the lock, processed date and approver on that period only |
| Periods.NothingUnlocks | src/models/payroll.py:168-214 | neither creating nor locking a period ever clears an existing lock |
| Periods.GetAll | src/models/payroll.py:217-231 | returns exactly the periods (only unlocked ones unless locked are included), newest start date first; each kept period occurs as often as in the table and no other occurs, so all periods give a permutation of the table |
| Details.NewDetail | src/models/payroll.py:283-320 | a new detail has the given (period, employee) pair and every amount at zero: the five hour figures, the five pay figures, the medical deduction, total deductions, taxable income, all nine tax figures and net pay |
| Details.GetByPayrollAndEmployee | src/models/payroll.py:496-509 | finds the detail exactly when the pair has one; what it reads back has total deductions equal to the medical deduction, as the row reader fills that field from `medical_deduction` (line 576) |
| Details.AsStored | src/models/payroll.py:385-482 | the detail as the table returns it: neither write stores total deductions and the row reader (line 576) fills it from the medical deduction; every other field and the pair are unchanged |
| Details.Save | src/models/payroll.py:378-482 | an insert succeeds exactly when the pair has no row, an update exactly when it has one; success stores every written column for that pair only, and total deductions, which neither INSERT nor UPDATE writes, reads back as the medical deduction; failure changes nothing |
| Details.SaveThenGet | src/models/payroll.py:378-509 | after a successful save the pair reads back the saved detail in every field but total deductions, which reads back as the saved medical deduction; every other pair reads as before |
| Details.SaveUnchangedIsNoOp | src/models/payroll.py:438-482 | saving back a detail read from the table leaves the table as it was |
| Employees.CalculateAge | src/models/employee.py:143-165 | an age comes back exactly when the birth date parses |
| Employees.AgeCountsBirthdays | src/models/employee.py:156-165 | the age is the number of birthdays reached: the as-of date is on or after the birthday of that age and before the next one |
| Employees.GetFullName | src/models/employee.py:167-176 | the name has the length of the parts plus their separating spaces, with the surname counted only when present and non-empty |
| Employees.FullNameSplits | src/models/employee.py:174-176 | split at spaces, the full name gives back first, last and (when present) surname |
| Employees.GetPayRate | src/models/employee.py:182-195 | a salaried employee's rate is the base salary, anyone else's the hourly rate, and 0 when that field is unset |
| Employees.Validate | src/models/employee.py:199-280 | valid exactly when no message is produced; the messages are exactly the rules that fire, each once and in the order `validate` checks them |
| Employees.MessagesInOrder | src/models/employee.py:207-278 | personal, address, age and employment messages follow one another in check order |
| Employees.ValidIffWellFormed | src/models/employee.py:199-280 | `validate` accepts exactly the employees that meet every field rule, stated independently of the message list |
| Employees.UnderageRejected | src/models/employee.py:246-252 | an employee under 18 is invalid and the message carries the age |
| Employees.GetById | src/models/employee.py:285-300 | finds nothing exactly when no row has the id, else a row with it |
| Employees.GetByIdUnique | src/models/employee.py:285-300 | with unique ids the lookup of a stored employee returns that employee |
| Employees.MedicalOrSingle | src/models/employee.py:427-446 | a stored medical type is never empty, and a given non-empty type is kept |
| Employees.StoredRow | src/models/employee.py:391-530 | insert and update store every personal field as given; compensation is written only when a salary type is set, defaulting medical to "Single" on insert, and is otherwise left as it was |
| Employees.Save | src/models/employee.py:367-389 | fails with the validation messages exactly when the employee is invalid; otherwise the table holds the stored row in place of any row with that id, and ids stay unique |
| Employees.SoftDelete | src/models/employee.py:532-542 | the employee's status becomes "Terminated" and no other row or field changes |
| Employees.RestoreAfterSoftDelete | src/models/employee.py:532-542 | writing an employee's row back over its soft-deleted copy restores the table exactly |
| Employees.HardDelete | src/models/employee.py:545-560 | removes exactly the rows with that id |
| Employees.GetAll | src/models/employee.py:303-321 | returns exactly the (active, unless terminated are included) employees, ordered by last then first name; each kept employee occurs as often as in the table and no other occurs, so all employees give a permutation of the table |
| EmployeeController.LargestOf | src/controllers/employee_controller.py:103-110 | the loop's maximum is the largest parseable suffix, or 0 when none parses |
| EmployeeController.LargestSuffix | src/controllers/employee_controller.py:97-110 | the maximum over the employees' ids, skipping those that do not parse |
| EmployeeController.GenerateEmployeeId | src/controllers/employee_controller.py:90-112 | "E001" for an empty table; otherwise "E" and the largest suffix plus one, padded to three digits, which no stored id equals |
| EmployeeController.NumberedAboveIsFresh | src/controllers/employee_controller.py:103-112 | an id numbered above every parseable suffix is not taken |
| EmployeeController.NumberedId | src/controllers/employee_controller.py:112 | a generated id is "E" and at least three digits, whose suffix reads back as the number |
| EmployeeController.FirstId | src/controllers/employee_controller.py:99-100 | the first id is "E001" |
| EmployeeController.CreateEmployee | src/controllers/employee_controller.py:31-88 | refused with the validation messages when invalid, as a duplicate when the id exists, otherwise the stored row is appended |
| EmployeeController.ApplyPatch | src/controllers/employee_controller.py:245-297 | each field takes the patch's value when its key is present and keeps its value otherwise; the id never changes |
| EmployeeController.PatchTouchesOnlyPresentKeys | src/controllers/employee_controller.py:245-297 | an empty patch changes nothing, and a status-only patch changes only the status |
| EmployeeController.UpdateEmployee | src/controllers/employee_controller.py:227-311 | not found exactly when the id is absent; otherwise refused with the messages exactly when the patched employee is invalid, else the patched row replaces the old one |
| EmployeeController.TerminateEmployee | src/controllers/employee_controller.py:313-337 | not found, or already terminated, exactly in those cases; otherwise the soft delete |
| EmployeeController.ReactivateEmployee | src/controllers/employee_controller.py:339-361 | not found, or already active, exactly in those cases; otherwise an update of the status to "Active" |
| EmployeeController.TerminateThenReactivate | src/controllers/employee_controller.py:313-361 | terminating a valid active employee and reactivating them restores the table |
| EmployeeController.DeleteEmployeePermanently | src/controllers/employee_controller.py:365-392 | nothing happens without confirmation; not found when the id is absent; otherwise exactly that id's rows are removed |
| EmployeeController.SearchTerm | src/controllers/employee_controller.py:165-169 | a blank term is refused; any other is used stripped |
| EmployeeController.DistinctSorted | src/controllers/employee_controller.py:483-484 | strictly ascending, and holding exactly the non-empty names given |
| EmployeeController.GetDepartmentsList | src/controllers/employee_controller.py:474-487 | strictly ascending, and holding exactly the non-empty department names of the employees |
| EmployeeController.GetJobTitlesList | src/controllers/employee_controller.py:489-502 | strictly ascending, and holding exactly the non-empty job titles of the employees |
| Auth.GenerateUsername | database/auth.py:16-26 | the email with every upper-case letter lowered and nothing else changed |
| Auth.UsernameIgnoresCase | database/auth.py:26 | emails differing only in case give the same username |
| Auth.LocalPart | database/auth.py:46 | the text before the first `@`, containing none |
| Auth.GeneratePassword | database/auth.py:29-50 | a password is made exactly when the birth date has three dash-separated fields |
| Auth.PasswordKeepsBirthDate | database/auth.py:46-50 | the password is the lower-cased local part followed by MM, DD and YYYY, and the birth date can be read back from its last eight characters |
| Auth.PasswordOfIsoDate | database/auth.py:29-50 | every ISO birth date gives a password whose last eight characters give the date back |
| Auth.SanitizeUsername | database/auth.py:222-232 | the result is the whitespace-stripped name, character by character, with each ASCII capital replaced by its small letter and every other character kept; so no upper-case letter, no surrounding whitespace, and empty exactly for a blank input |
| Auth.SanitizeIdempotent | database/auth.py:232 | sanitising twice is sanitising once |
| Auth.FindUser | database/auth.py:279-288 | finds the first row whose name matches case-insensitively, and nothing exactly when none does |
| Auth.Authenticate | database/auth.py:254-316 | refused when no row matches the sanitised name, or the row is inactive, or the password does not verify; otherwise the row's username, user type and employee id |
| Auth.InactiveAccountRefused | database/auth.py:296-298 | an inactive account is refused whatever the password |
| Auth.LoginIgnoresCaseAndSpace | database/auth.py:275-288 | names equal after stripping and lower-casing give the same outcome |
| Auth.GeneratedCredentialsLogIn | database/auth.py:275-316 | an active account created from an email and birth date logs in with the email and the generated password |
| PayrollController.GetPeriodForDate | src/controllers/payroll_controller.py:49-64 | a malformed date gives nothing; otherwise the Monday at or before the date and the Sunday six days later, missing only past 9999-12-31 |
| PayrollController.PeriodOfFormatted | src/controllers/payroll_controller.py:59-64 | the period of a formatted date is the current period computed for that day |
| PayrollController.PeriodOfEveryDay | src/controllers/payroll_controller.py:59-64 | every day of a week gives that week's period |
| PayrollController.PeriodForDateIdempotent | src/controllers/payroll_controller.py:59-64 | the period of a period's Monday is the same period |
| PayrollController.SubmitTimeEntry | src/controllers/payroll_controller.py:125-195 | refused, in order and exactly in these cases: unknown employee, inactive employee, an existing entry in a locked period, a malformed date, an invalid entry; a refusal changes nothing; success stores a well-formed entry for that pair in place of any old one |
| PayrollController.DeleteTimeEntry | src/controllers/payroll_controller.py:261-289 | refused when there is no entry or its period is locked; otherwise exactly that entry is removed |
| PayrollController.LockedEntryIsFrozen | src/controllers/payroll_controller.py:157-283 | an entry in a locked period can be neither changed nor deleted |
| PayrollController.PayOf | src/controllers/payroll_controller.py:334-346 | a salaried employee needs a base salary and is paid the weekly salary; an hourly one needs a rate and is paid for the week's entries; any other type is refused |
| PayrollController.MedicalTypeOf | src/controllers/payroll_controller.py:353-356 | a missing or empty medical type counts as "Single" |
| PayrollController.Fill | src/controllers/payroll_controller.py:358-407 | the detail's gross is the calculator gross plus the stipend; taxable income is gross minus medical, unrounded; taxes are on taxable income; net pay is within half a cent of taxable minus employee taxes |
| PayrollController.CalculateWeeklyPay | src/controllers/payroll_controller.py:295-420 | unknown employee changes nothing; the period is got or created; an existing detail in a locked period is returned as is; otherwise the pay, stipend, deduction, taxes and net are computed, the detail is upserted as it will read back (total deductions replaced by the medical deduction) and the week's unassigned entries stamped; no lock is ever cleared |
| PayrollController.PayOne | src/controllers/payroll_controller.py:445-447 | one employee's step of the batch keeps the employees and every lock |
| PayrollController.PayEach | src/controllers/payroll_controller.py:444-451 | every employee id ends in the results or in the failures, one entry per id, and a failure never stops the loop |
| PayrollController.CalculateAllPayroll | src/controllers/payroll_controller.py:422-462 | every listed (active, when asked) employee ends in exactly one of results or failures; results and failures name only listed employees |
| PayrollController.WorkDayName | src/controllers/payroll_controller.py:713-715 | a day's name is a salaried work day exactly from Monday to Friday |
| PayrollController.AutoEntry | src/controllers/payroll_controller.py:721-728 | an auto-filled entry for a day always builds, and is valid exactly when the employee id is not blank |
| PayrollController.FillDay | src/controllers/payroll_controller.py:712-731 | one day of the walk adds an entry only for an unfilled work day and keeps every earlier guarantee |
| PayrollController.NothingSaved | src/controllers/payroll_controller.py:712-731 | a day that is not a work day, already has an entry, or has a blank id keeps every loop guarantee with nothing added |
| PayrollController.SavedAutoEntry | src/controllers/payroll_controller.py:712-731 | the entry saved for a work day is an 8-hour auto-filled entry for a day the starting table lacked, and the guarantees extend to that day |
| PayrollController.AutoFillSalariedHours | src/controllers/payroll_controller.py:683-736 | refused for an unknown or non-salaried employee or a malformed date; otherwise appends 8-hour, no-PTO entries, only on Monday-to-Friday days in range that had none, after which every such day has one; a rerun creates nothing |
| PayrollController.ApprovePayroll | src/controllers/payroll_controller.py:464-492 | refused when the period is missing or already locked; otherwise that period alone is locked and stamped with the approver |
| PayrollController.ApproveOnce | src/controllers/payroll_controller.py:484-485 | a period can be approved only once |

## Left out

- SQLite and every SQL string (`src/models/base_model.py`). The tables are immutable values, and a write that SQLite would reject for reasons outside the model (disk, locking, schema constraints) does not happen. In particular, inserting a pay period is assumed never to fail; `get_or_create` inserts only when no period with those dates exists. A pay detail insert fails exactly when its (period, employee) pair already has a row, as `Details.Save` states. The branch of `calculate_weekly_pay` that fails when a period has no id after `get_or_create` is unreachable.
- The Flask routes, `main.py`, PDF rendering, and the setup, loader and console scripts. These are I/O and presentation.
- Argon2id hashing and verification (`database/auth.py:53-105`). This is a foreign call, and the password check is the parameter `verify`. Account creation and `setup_all_users` are left out for the same reason.
- `last_login` updates, `log_security_event`, and the `created_date`/`processed_date` timestamps. These are clock and logging side effects. "Now" and "today" are parameters.
- The unused progressive federal tax function (`src/models/payroll.py:33-58`). Nothing calls it.
- Binary floating point. Amounts are exact reals. Python's `round` is modelled as exact round-half-even, and `Decimal(str(x))` as the exact value of `x`, so the artefacts of the decimal text of a binary float are not modelled.
- Case folding beyond ASCII. `Text.Lower` changes only the ASCII letters, whereas Python's `str.lower` also folds letters of other scripts. `Text.Strip` does use Python's full whitespace set.
- `strftime("%Y")` for years below 1000. It is taken to pad to four digits, which depends on the platform.
- Report readers:
  - `get_payroll_summary` and `get_employee_weekly_summary`, whose weekly 40-hour split does not feed pay;
  - `get_time_entry`, `get_time_entries`, `get_weekly_time_entries`, `get_payroll_history`, `get_payroll_details_for_period` and `get_employee_payroll`;
  - `PayrollDetail.get_by_payroll` and `get_by_employee`, `TimeEntry.get_by_payroll`, and `delete_by_id`;
  - `get_employee_summary`, `get_employee_statistics` and `validate_employee_data`.

  These only read and format stored rows.
- `Employee.search` and `get_by_department`, which are SQL `LIKE` queries. Only the guard of `search_employees` is modelled (`EmployeeController.SearchTerm`).
- The generic `except Exception` handlers. They are modelled only where an exception can arise from the inputs: a malformed date, and stepping past 9999-12-31 in auto-fill. Other exceptions come from the database.
- Concurrency between requests. The model has a single writer.
- TimeEntries.Save: identifies a stored entry by its (employee, date) pair, where the source updates the row with the entry's `time_entry_id` (`src/models/time_entry.py:168-171`, `:216`). The two agree because the table holds at most one entry per pair, and the one caller that updates (`src/controllers/payroll_controller.py:155-173`) reads the entry back by its pair and changes only its hours, PTO and notes. The failed insert of a second entry for a pair models the `IntegrityError` branch (`src/models/time_entry.py:200-202`), whose comment names that case. The UNIQUE constraint behind it lives in the database schema, which is not part of this model.
- TimeEntries.Delete: removes the entry with the given (employee, date) pair, where the source deletes by `time_entry_id` (`src/models/time_entry.py:409-421`). They agree for the same reasons as `TimeEntries.Save`.
- Details.Save: files a detail under its (payroll id, employee id) pair, where the source updates by `payroll_detail_id` (`src/models/payroll.py:380-383`, `:452`). The two agree because the controller re-saves only a detail it read back by that pair, and it does not change either id (`src/controllers/payroll_controller.py:325-410`). The failed insert of a second detail for a pair models the `IntegrityError` branch (`src/models/payroll.py:435-436`), and the UNIQUE constraint behind it is in the schema, which is not part of this model.
- Non-ASCII decimal digits. `Text.IsDigit`, `Text.ParseInt` and `Dates.ParseIsoDate` accept only `0` to `9`, whereas Python's `int()` and the `\d` of `strptime` also accept the decimal digits of other scripts, such as Arabic-Indic ones. So an employee id such as `E` followed by Arabic-Indic digits counts as numbered in `generate_employee_id` but not in `EmployeeController.LargestSuffix`, and a date written in such digits is valid in the source but rejected by the model.
- Dates.ParseIsoDate: the date named by a text is pinned down by `Dates.FormatParse` only for ten-character texts without spaces. `strptime` also accepts shorter spellings, with a one-digit month or day or a space before a one-digit day. For those, which date the text names is stated by the function's definition and not by a separate lemma.
- Employees.CalculateAge: states when an age exists and, in `AgeCountsBirthdays`, what it counts. It does not model the default of "today" when no date is given, because that reads the clock.
- PayrollController.PayOne: its contract keeps only what the batch needs. The full per-employee contract is `CalculateWeeklyPay`'s.
