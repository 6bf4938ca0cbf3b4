/** Employees (`src/models/employee.py`): the record, its derived values
    (age, full name, pay rate), the validation rules, and the employee store
    with save, soft delete, permanent delete and the active-employee listing.

    The store is the `vw_employee_full` view: one row per employee with its
    compensation columns beside the personal ones, as a sequence in
    insertion order with unique ids (`UniqueIds`). An employee without a
    compensation row reads back with no salary type, rate or medical type
    and no dependents. "Today" is a parameter. */
module Employees {
  import opened Wrappers
  import opened Text
  import opened Constants
  import opened Dates
  import opened Query

  datatype Employee = Employee(
    employeeId: string,
    firstName: string,
    lastName: string,
    surname: Option<string>,
    dateOfBirth: string,
    gender: string,
    email: string,
    phoneNum: Option<string>,
    addressLine1: string,
    addressLine2: Option<string>,
    city: string,
    state: string,
    zipCode: string,
    hasPicture: int,
    pictureFilename: Option<string>,
    status: string,
    dateHired: string,
    departmentName: string,
    jobTitleName: string,
    salaryType: Option<string>,
    baseSalary: Option<real>,
    hourlyRate: Option<real>,
    medicalType: Option<string>,
    numDependents: int)

  /** An optional text field read for its truth value: present and non-empty. */
  predicate Truthy(s: Option<string>) {
    s.Some? && s.value != []
  }

  // ---------------------------------------------------------------------------
  // Derived values
  // ---------------------------------------------------------------------------

  /** `calculate_age`: the difference of the years, less one when the
      as-of month and day come before the birth month and day. `None` is the
      `ValueError` of a malformed birth date. */
  function CalculateAge(dateOfBirth: string, asOf: CivilDate): (r: Option<int>)
    ensures r.Some? <==> ParseIsoDate(dateOfBirth).Some?
  {
    match ParseIsoDate(dateOfBirth)
    case None => None
    case Some(b) =>
      var age := asOf.year - b.year;
      if asOf.month < b.month || (asOf.month == b.month && asOf.day < b.day) then Some(age - 1)
      else Some(age)
  }

  /** The age is the number of birthdays passed: the anniversary `age` years
      after the birth date is not after the as-of date, and the next one is. */
  lemma AgeCountsBirthdays(dateOfBirth: string, asOf: CivilDate)
    requires CalculateAge(dateOfBirth, asOf).Some?
    ensures var b := ParseIsoDate(dateOfBirth).value;
      var age := CalculateAge(dateOfBirth, asOf).value;
      && !DateLess(asOf, CivilDate(b.year + age, b.month, b.day))
      && DateLess(asOf, CivilDate(b.year + age + 1, b.month, b.day))
  {
  }

  /** `get_full_name`: first and last name, and the surname only when present. */
  function GetFullName(e: Employee): (name: string)
    ensures Truthy(e.surname) ==> |name| == |e.firstName| + |e.lastName| + |e.surname.value| + 2
    ensures !Truthy(e.surname) ==> |name| == |e.firstName| + |e.lastName| + 1
  {
    if Truthy(e.surname) then e.firstName + " " + e.lastName + " " + e.surname.value
    else e.firstName + " " + e.lastName
  }

  /** A full name of space-free parts splits back into exactly those parts. */
  lemma FullNameSplits(e: Employee)
    requires ' ' !in e.firstName && ' ' !in e.lastName
    requires e.surname.Some? ==> ' ' !in e.surname.value
    ensures Truthy(e.surname) ==> Split(GetFullName(e), ' ') == [e.firstName, e.lastName, e.surname.value]
    ensures !Truthy(e.surname) ==> Split(GetFullName(e), ' ') == [e.firstName, e.lastName]
  {
    var tail := [e.lastName];
    assert Join(tail, ' ') == e.lastName;
    if Truthy(e.surname) {
      tail := [e.lastName, e.surname.value];
      assert tail[1..] == [e.surname.value];
      assert Join(tail, ' ') == e.lastName + " " + e.surname.value;
    }
    var parts := [e.firstName] + tail;
    assert parts[1..] == tail;
    assert Join(parts, ' ') == GetFullName(e);
    assert NoSeparator(parts, ' ');
    JoinSplit(parts, ' ');
  }

  predicate IsActive(e: Employee) {
    e.status == StatusActive
  }

  /** `is_salaried`. */
  predicate IsSalaried(e: Employee) {
    e.salaryType == Some(SalaryTypeSalary)
  }

  /** `get_pay_rate`: the annual salary for a salaried employee and the hourly
      rate otherwise; a missing or zero amount reads as 0. */
  function GetPayRate(e: Employee): (rate: real)
    ensures IsSalaried(e) && e.baseSalary.Some? ==> rate == e.baseSalary.value
    ensures !IsSalaried(e) && e.hourlyRate.Some? ==> rate == e.hourlyRate.value
    ensures IsSalaried(e) && e.baseSalary.None? ==> rate == 0.0
    ensures !IsSalaried(e) && e.hourlyRate.None? ==> rate == 0.0
  {
    if IsSalaried(e) then e.baseSalary.GetOr(0.0) else e.hourlyRate.GetOr(0.0)
  }

  // ---------------------------------------------------------------------------
  // Validation
  // ---------------------------------------------------------------------------

  /** The messages `validate` can return, one constructor per rule. */
  datatype EmployeeError =
    | EmployeeIdRequired
    | FirstNameRequired
    | LastNameRequired
    | BirthDateRequired
    | GenderInvalid
    | EmailRequired
    | EmailInvalid
    | StatusInvalid
    | AddressRequired
    | CityRequired
    | StateRequired
    | ZipRequired
    | TooYoung(age: int)
    | BirthDateInvalid
    | HireDateFuture
    | HireDateInvalid
    | SalaryTypeInvalid
    | BaseSalaryRequired
    | HourlyRateRequired
    | MedicalTypeInvalid
    | DependentsNegative

  /** Whether the rule reporting `err` rejects `e` on day `today`. */
  predicate Fires(e: Employee, today: CivilDate, err: EmployeeError) {
    match err
    case EmployeeIdRequired => IsBlank(e.employeeId)
    case FirstNameRequired => IsBlank(e.firstName)
    case LastNameRequired => IsBlank(e.lastName)
    case BirthDateRequired => e.dateOfBirth == []
    case GenderInvalid => e.gender !in ValidGenders
    case EmailRequired => IsBlank(e.email)
    case EmailInvalid => !IsBlank(e.email) && '@' !in e.email
    case StatusInvalid => e.status !in ValidStatuses
    case AddressRequired => IsBlank(e.addressLine1)
    case CityRequired => IsBlank(e.city)
    case StateRequired => IsBlank(e.state)
    case ZipRequired => IsBlank(e.zipCode)
    case TooYoung(age) => CalculateAge(e.dateOfBirth, today) == Some(age) && age < MinEmployeeAge
    case BirthDateInvalid => CalculateAge(e.dateOfBirth, today).None?
    case HireDateFuture =>
      e.dateHired != [] && ParseIsoDate(e.dateHired).Some? && DateLess(today, ParseIsoDate(e.dateHired).value)
    case HireDateInvalid => e.dateHired != [] && ParseIsoDate(e.dateHired).None?
    case SalaryTypeInvalid => Truthy(e.salaryType) && e.salaryType.value !in ValidSalaryTypes
    case BaseSalaryRequired =>
      e.salaryType == Some(SalaryTypeSalary) && (e.baseSalary.None? || e.baseSalary.value <= 0.0)
    case HourlyRateRequired =>
      e.salaryType == Some(SalaryTypeHourly) && (e.hourlyRate.None? || e.hourlyRate.value <= 0.0)
    case MedicalTypeInvalid => Truthy(e.medicalType) && e.medicalType.value !in ValidMedicalTypes
    case DependentsNegative => e.numDependents < 0
  }

  function When(c: bool, err: EmployeeError): seq<EmployeeError> {
    if c then [err] else []
  }

  /** The rules on the required personal fields, in `validate`'s order. */
  const PersonalOrder: seq<EmployeeError> := [
    EmployeeIdRequired, FirstNameRequired, LastNameRequired, BirthDateRequired,
    GenderInvalid, EmailRequired, EmailInvalid]

  /** The rules on status and address. */
  const AddressOrder: seq<EmployeeError> := [
    StatusInvalid, AddressRequired, CityRequired, StateRequired, ZipRequired]

  /** The rules on hire date and compensation. */
  const EmploymentOrder: seq<EmployeeError> := [
    HireDateFuture, HireDateInvalid, SalaryTypeInvalid, BaseSalaryRequired,
    HourlyRateRequired, MedicalTypeInvalid, DependentsNegative]

  /** The age rules. */
  predicate AgeRule(err: EmployeeError) {
    err.TooYoung? || err.BirthDateInvalid?
  }

  /** Every rule belongs to one of the four groups. */
  lemma EveryRuleGrouped(err: EmployeeError)
    ensures err in PersonalOrder || err in AddressOrder || AgeRule(err) || err in EmploymentOrder
  {
    match err
    case EmployeeIdRequired => assert PersonalOrder[0] == err;
    case FirstNameRequired => assert PersonalOrder[1] == err;
    case LastNameRequired => assert PersonalOrder[2] == err;
    case BirthDateRequired => assert PersonalOrder[3] == err;
    case GenderInvalid => assert PersonalOrder[4] == err;
    case EmailRequired => assert PersonalOrder[5] == err;
    case EmailInvalid => assert PersonalOrder[6] == err;
    case StatusInvalid => assert AddressOrder[0] == err;
    case AddressRequired => assert AddressOrder[1] == err;
    case CityRequired => assert AddressOrder[2] == err;
    case StateRequired => assert AddressOrder[3] == err;
    case ZipRequired => assert AddressOrder[4] == err;
    case TooYoung(_) =>
    case BirthDateInvalid =>
    case HireDateFuture => assert EmploymentOrder[0] == err;
    case HireDateInvalid => assert EmploymentOrder[1] == err;
    case SalaryTypeInvalid => assert EmploymentOrder[2] == err;
    case BaseSalaryRequired => assert EmploymentOrder[3] == err;
    case HourlyRateRequired => assert EmploymentOrder[4] == err;
    case MedicalTypeInvalid => assert EmploymentOrder[5] == err;
    case DependentsNegative => assert EmploymentOrder[6] == err;
  }

  /** The messages of those of `rules` that fire, in the order given. */
  function Fired(e: Employee, today: CivilDate, rules: seq<EmployeeError>): (r: seq<EmployeeError>)
    ensures |r| <= |rules|
  {
    if rules == [] then [] else When(Fires(e, today, rules[0]), rules[0]) + Fired(e, today, rules[1..])
  }

  lemma {:induction false} FiredExact(e: Employee, today: CivilDate, rules: seq<EmployeeError>)
    ensures forall err :: err in Fired(e, today, rules) <==> err in rules && Fires(e, today, err)
  {
    if rules != [] {
      FiredExact(e, today, rules[1..]);
      assert forall err :: err in rules <==> err == rules[0] || err in rules[1..];
    }
  }

  /** The position of a rule among the checks of `validate`; the two age
      messages come from one if/else and share a place between the address
      and the hire-date rules. */
  function Rank(err: EmployeeError): nat {
    match err
    case EmployeeIdRequired => 0
    case FirstNameRequired => 1
    case LastNameRequired => 2
    case BirthDateRequired => 3
    case GenderInvalid => 4
    case EmailRequired => 5
    case EmailInvalid => 6
    case StatusInvalid => 7
    case AddressRequired => 8
    case CityRequired => 9
    case StateRequired => 10
    case ZipRequired => 11
    case TooYoung(_) => 12
    case BirthDateInvalid => 12
    case HireDateFuture => 13
    case HireDateInvalid => 14
    case SalaryTypeInvalid => 15
    case BaseSalaryRequired => 16
    case HourlyRateRequired => 17
    case MedicalTypeInvalid => 18
    case DependentsNegative => 19
  }

  /** Messages in the order `validate` checks their rules, none twice. */
  predicate InRuleOrder(errs: seq<EmployeeError>) {
    forall i, j :: 0 <= i < j < |errs| ==> Rank(errs[i]) < Rank(errs[j])
  }

  lemma PersonalOrderRanks()
    ensures InRuleOrder(PersonalOrder)
    ensures forall err :: err in PersonalOrder ==> Rank(err) < 7
  {
    assert forall i :: 0 <= i < |PersonalOrder| ==> Rank(PersonalOrder[i]) == i;
  }

  lemma AddressOrderRanks()
    ensures InRuleOrder(AddressOrder)
    ensures forall err :: err in AddressOrder ==> 7 <= Rank(err) < 12
  {
    assert forall i :: 0 <= i < |AddressOrder| ==> Rank(AddressOrder[i]) == i + 7;
  }

  lemma EmploymentOrderRanks()
    ensures InRuleOrder(EmploymentOrder)
    ensures forall err :: err in EmploymentOrder ==> 13 <= Rank(err)
  {
    assert forall i :: 0 <= i < |EmploymentOrder| ==> Rank(EmploymentOrder[i]) == i + 13;
  }

  /** Picking the firing rules out of an ordered list keeps the order. */
  lemma {:induction false} FiredInOrder(e: Employee, today: CivilDate, rules: seq<EmployeeError>)
    requires InRuleOrder(rules)
    ensures InRuleOrder(Fired(e, today, rules))
  {
    if rules != [] {
      var rest := rules[1..];
      assert InRuleOrder(rest) by {
        forall i, j | 0 <= i < j < |rest| ensures Rank(rest[i]) < Rank(rest[j]) {
          assert rest[i] == rules[i + 1] && rest[j] == rules[j + 1];
        }
      }
      FiredInOrder(e, today, rest);
      FiredExact(e, today, rest);
      var tail := Fired(e, today, rest);
      forall x | x in tail ensures Rank(rules[0]) < Rank(x) {
        var k :| 0 <= k < |rest| && rest[k] == x;
        assert rules[k + 1] == x;
      }
    }
  }

  /** Two ordered lists, every rule of the first before every rule of the
      second, make an ordered list. */
  lemma AppendInOrder(a: seq<EmployeeError>, b: seq<EmployeeError>, bound: nat)
    requires InRuleOrder(a) && InRuleOrder(b)
    requires forall x :: x in a ==> Rank(x) < bound
    requires forall y :: y in b ==> bound <= Rank(y)
    ensures InRuleOrder(a + b)
    ensures forall x :: x in a + b ==> Rank(x) < bound || x in b
  {
    var c := a + b;
    forall i, j | 0 <= i < j < |c| ensures Rank(c[i]) < Rank(c[j]) {
      if j < |a| {
        assert c[i] == a[i] && c[j] == a[j];
      } else if i >= |a| {
        assert c[i] == b[i - |a|] && c[j] == b[j - |a|];
      } else {
        assert c[i] == a[i] && c[j] == b[j - |a|];
        assert c[i] in a && c[j] in b;
      }
    }
  }

  function PersonalMessages(e: Employee, today: CivilDate): (r: seq<EmployeeError>)
    ensures forall err :: err in r <==> err in PersonalOrder && Fires(e, today, err)
  {
    FiredExact(e, today, PersonalOrder);
    Fired(e, today, PersonalOrder)
  }

  function AddressMessages(e: Employee, today: CivilDate): (r: seq<EmployeeError>)
    ensures forall err :: err in r <==> err in AddressOrder && Fires(e, today, err)
  {
    FiredExact(e, today, AddressOrder);
    Fired(e, today, AddressOrder)
  }

  /** The age rule reports the computed age, or the format error. */
  function AgeMessages(e: Employee, today: CivilDate): (r: seq<EmployeeError>)
    ensures forall err :: err in r <==> AgeRule(err) && Fires(e, today, err)
  {
    match CalculateAge(e.dateOfBirth, today)
    case None => [BirthDateInvalid]
    case Some(age) => When(age < MinEmployeeAge, TooYoung(age))
  }

  function EmploymentMessages(e: Employee, today: CivilDate): (r: seq<EmployeeError>)
    ensures forall err :: err in r <==> err in EmploymentOrder && Fires(e, today, err)
  {
    FiredExact(e, today, EmploymentOrder);
    Fired(e, today, EmploymentOrder)
  }

  /** The messages `validate` appends, rule by rule. */
  function Messages(e: Employee, today: CivilDate): (r: seq<EmployeeError>)
    ensures forall err :: err in r <==> Fires(e, today, err)
  {
    forall err ensures err in PersonalOrder || err in AddressOrder || AgeRule(err) || err in EmploymentOrder {
      EveryRuleGrouped(err);
    }
    PersonalMessages(e, today) + AddressMessages(e, today) + AgeMessages(e, today) + EmploymentMessages(e, today)
  }

  lemma PersonalInOrder(e: Employee, today: CivilDate)
    ensures InRuleOrder(PersonalMessages(e, today))
    ensures forall x :: x in PersonalMessages(e, today) ==> Rank(x) < 7
  {
    PersonalOrderRanks();
    FiredInOrder(e, today, PersonalOrder);
  }

  lemma AddressInOrder(e: Employee, today: CivilDate)
    ensures InRuleOrder(AddressMessages(e, today))
    ensures forall x :: x in AddressMessages(e, today) ==> 7 <= Rank(x) < 12
  {
    AddressOrderRanks();
    FiredInOrder(e, today, AddressOrder);
  }

  lemma AgeInOrder(e: Employee, today: CivilDate)
    ensures InRuleOrder(AgeMessages(e, today))
    ensures forall x :: x in AgeMessages(e, today) ==> Rank(x) == 12
  {
    assert |AgeMessages(e, today)| <= 1;
  }

  lemma EmploymentInOrder(e: Employee, today: CivilDate)
    ensures InRuleOrder(EmploymentMessages(e, today))
    ensures forall x :: x in EmploymentMessages(e, today) ==> 13 <= Rank(x)
  {
    EmploymentOrderRanks();
    FiredInOrder(e, today, EmploymentOrder);
  }

  /** The four groups follow each other in `validate`'s order. */
  lemma MessagesInOrder(e: Employee, today: CivilDate)
    ensures InRuleOrder(Messages(e, today))
  {
    var p, a, g, m := PersonalMessages(e, today), AddressMessages(e, today),
                      AgeMessages(e, today), EmploymentMessages(e, today);
    PersonalInOrder(e, today);
    AddressInOrder(e, today);
    AgeInOrder(e, today);
    EmploymentInOrder(e, today);
    AppendInOrder(p, a, 7);
    AppendInOrder(p + a, g, 12);
    AppendInOrder(p + a + g, m, 13);
  }

  /** `validate`: `(True, [])` exactly when no rule fires; otherwise `False`
      and the message of every rule that fires, in rule order. */
  function Validate(e: Employee, today: CivilDate): (r: (bool, seq<EmployeeError>))
    ensures r.0 <==> |r.1| == 0
    ensures forall err :: err in r.1 <==> Fires(e, today, err)
    ensures InRuleOrder(r.1)
  {
    MessagesInOrder(e, today);
    var errs := Messages(e, today);
    (|errs| == 0, errs)
  }

  predicate IsValid(e: Employee, today: CivilDate) {
    Validate(e, today).0
  }

  /** The personal fields of a record `validate` accepts. */
  predicate PersonalWellFormed(e: Employee) {
    && !IsBlank(e.employeeId) && !IsBlank(e.firstName) && !IsBlank(e.lastName)
    && e.gender in ValidGenders
    && !IsBlank(e.email) && '@' in e.email
  }

  /** The status and address of a record `validate` accepts. */
  predicate AddressWellFormed(e: Employee) {
    && e.status in ValidStatuses
    && !IsBlank(e.addressLine1) && !IsBlank(e.city) && !IsBlank(e.state) && !IsBlank(e.zipCode)
  }

  /** The hire date and compensation of a record `validate` accepts. */
  predicate EmploymentWellFormed(e: Employee, today: CivilDate) {
    && (e.dateHired != [] ==> ParseIsoDate(e.dateHired).Some? && !DateLess(today, ParseIsoDate(e.dateHired).value))
    && (Truthy(e.salaryType) ==> e.salaryType.value in ValidSalaryTypes)
    && (IsSalaried(e) ==> e.baseSalary.Some? && e.baseSalary.value > 0.0)
    && (e.salaryType == Some(SalaryTypeHourly) ==> e.hourlyRate.Some? && e.hourlyRate.value > 0.0)
    && (Truthy(e.medicalType) ==> e.medicalType.value in ValidMedicalTypes)
    && e.numDependents >= 0
  }

  /** A record `validate` accepts, described positively. */
  predicate WellFormed(e: Employee, today: CivilDate) {
    && PersonalWellFormed(e)
    && AddressWellFormed(e)
    && CalculateAge(e.dateOfBirth, today).Some?
    && CalculateAge(e.dateOfBirth, today).value >= MinEmployeeAge
    && EmploymentWellFormed(e, today)
  }

  /** `validate` accepts exactly the well-formed records. */
  lemma ValidIffWellFormed(e: Employee, today: CivilDate)
    ensures IsValid(e, today) <==> WellFormed(e, today)
  {
    var errs := Validate(e, today).1;
    if WellFormed(e, today) && |errs| > 0 {
      NoRuleFiresWhenWellFormed(e, today, errs[0]);
    }
    if IsValid(e, today) {
      forall err ensures !Fires(e, today, err) {
        assert err !in errs;
      }
      WellFormedWhenNoRuleFires(e, today);
    }
  }

  lemma NoRuleFiresWhenWellFormed(e: Employee, today: CivilDate, err: EmployeeError)
    requires WellFormed(e, today)
    ensures !Fires(e, today, err)
  {
    EmptyDateDoesNotParse();
  }

  /** A record no rule rejects is well formed. */
  lemma WellFormedWhenNoRuleFires(e: Employee, today: CivilDate)
    requires forall err :: !Fires(e, today, err)
    ensures WellFormed(e, today)
  {
    PersonalWhenNoRuleFires(e, today);
    AddressWhenNoRuleFires(e, today);
    assert !Fires(e, today, BirthDateInvalid);
    assert !Fires(e, today, TooYoung(CalculateAge(e.dateOfBirth, today).value));
    EmploymentWhenNoRuleFires(e, today);
  }

  lemma PersonalWhenNoRuleFires(e: Employee, today: CivilDate)
    requires !Fires(e, today, EmployeeIdRequired) && !Fires(e, today, FirstNameRequired)
    requires !Fires(e, today, LastNameRequired) && !Fires(e, today, GenderInvalid)
    requires !Fires(e, today, EmailRequired) && !Fires(e, today, EmailInvalid)
    ensures PersonalWellFormed(e)
  {
  }

  lemma AddressWhenNoRuleFires(e: Employee, today: CivilDate)
    requires !Fires(e, today, StatusInvalid) && !Fires(e, today, AddressRequired)
    requires !Fires(e, today, CityRequired) && !Fires(e, today, StateRequired) && !Fires(e, today, ZipRequired)
    ensures AddressWellFormed(e)
  {
  }

  lemma EmploymentWhenNoRuleFires(e: Employee, today: CivilDate)
    requires !Fires(e, today, HireDateFuture) && !Fires(e, today, HireDateInvalid)
    requires !Fires(e, today, SalaryTypeInvalid) && !Fires(e, today, BaseSalaryRequired)
    requires !Fires(e, today, HourlyRateRequired) && !Fires(e, today, MedicalTypeInvalid)
    requires !Fires(e, today, DependentsNegative)
    ensures EmploymentWellFormed(e, today)
  {
  }

  /** An employee younger than the minimum age is rejected, with the age in the message. */
  lemma UnderageRejected(e: Employee, today: CivilDate)
    requires CalculateAge(e.dateOfBirth, today).Some?
    requires CalculateAge(e.dateOfBirth, today).value < MinEmployeeAge
    ensures !IsValid(e, today)
    ensures TooYoung(CalculateAge(e.dateOfBirth, today).value) in Validate(e, today).1
  {
  }

  // ---------------------------------------------------------------------------
  // The store
  // ---------------------------------------------------------------------------

  predicate UniqueIds(rows: seq<Employee>) {
    forall i, j :: 0 <= i < j < |rows| ==> rows[i].employeeId != rows[j].employeeId
  }

  predicate HasId(rows: seq<Employee>, id: string) {
    exists i :: 0 <= i < |rows| && rows[i].employeeId == id
  }

  /** `get_by_id`. */
  function GetById(rows: seq<Employee>, id: string): (r: Option<Employee>)
    ensures r.None? <==> !HasId(rows, id)
    ensures r.Some? ==> r.value in rows && r.value.employeeId == id
  {
    if |rows| == 0 then None
    else if rows[0].employeeId == id then Some(rows[0])
    else
      assert HasId(rows, id) ==> HasId(rows[1..], id) by {
        if HasId(rows, id) {
          var i :| 0 <= i < |rows| && rows[i].employeeId == id;
          assert rows[1..][i - 1] == rows[i];
        }
      }
      GetById(rows[1..], id)
  }

  /** In a store with unique ids, the row with an id is the one `GetById` returns. */
  lemma GetByIdUnique(rows: seq<Employee>, e: Employee)
    requires UniqueIds(rows) && e in rows
    ensures GetById(rows, e.employeeId) == Some(e)
  {
    var r := GetById(rows, e.employeeId).value;
    var i :| 0 <= i < |rows| && rows[i] == e;
    var j :| 0 <= j < |rows| && rows[j] == r;
    assert i == j;
  }

  /** The same personal and employment fields; compensation may differ. */
  predicate SamePerson(a: Employee, b: Employee) {
    a == b.(salaryType := a.salaryType, baseSalary := a.baseSalary, hourlyRate := a.hourlyRate,
            medicalType := a.medicalType, numDependents := a.numDependents)
  }

  /** The same compensation columns. */
  predicate SameCompensation(a: Employee, b: Employee) {
    && a.salaryType == b.salaryType && a.baseSalary == b.baseSalary && a.hourlyRate == b.hourlyRate
    && a.medicalType == b.medicalType && a.numDependents == b.numDependents
  }

  /** `medical_type or "Single"`, used when a compensation row is inserted. */
  function MedicalOrSingle(m: Option<string>): (r: Option<string>)
    ensures r.Some? && r.value != []
    ensures Truthy(m) ==> r == m
  {
    if Truthy(m) then m else Some(MedicalSingle)
  }

  /** The row the view shows after `save` writes `e` over `prior` (absent for an
      insert). The personal fields are always `e`'s. The compensation row is
      written only when `e` has a salary type: updated in place when one
      exists, otherwise inserted with the medical type defaulting to
      "Single". Without a salary type the prior compensation stays. */
  function StoredRow(prior: Option<Employee>, e: Employee): (r: Employee)
    ensures SamePerson(r, e)
    ensures Truthy(e.salaryType) && prior.Some? && prior.value.salaryType.Some? ==> r == e
    ensures Truthy(e.salaryType) && !(prior.Some? && prior.value.salaryType.Some?) ==>
      r == e.(medicalType := MedicalOrSingle(e.medicalType))
    ensures !Truthy(e.salaryType) && prior.Some? ==> SameCompensation(r, prior.value)
    ensures !Truthy(e.salaryType) && prior.None? ==> r.salaryType.None? && r.numDependents == 0
  {
    if Truthy(e.salaryType) then
      if prior.Some? && prior.value.salaryType.Some? then e
      else e.(medicalType := MedicalOrSingle(e.medicalType))
    else
      match prior
      case Some(o) =>
        e.(salaryType := o.salaryType, baseSalary := o.baseSalary, hourlyRate := o.hourlyRate,
           medicalType := o.medicalType, numDependents := o.numDependents)
      case None =>
        e.(salaryType := None, baseSalary := None, hourlyRate := None, medicalType := None, numDependents := 0)
  }

  /** `save`: validation failure raises (`Err`, nothing written); otherwise
      the row with `e`'s id is updated in place, or `e` is inserted. */
  function Save(rows: seq<Employee>, e: Employee, today: CivilDate): (r: Result<seq<Employee>, seq<EmployeeError>>)
    requires UniqueIds(rows)
    ensures r.Err? <==> !IsValid(e, today)
    ensures r.Err? ==> r.error == Validate(e, today).1
    ensures r.Ok? ==> UniqueIds(r.value)
    ensures r.Ok? ==> StoredRow(GetById(rows, e.employeeId), e) in r.value
    ensures r.Ok? ==> forall x :: x in r.value <==>
      x == StoredRow(GetById(rows, e.employeeId), e) || (x in rows && x.employeeId != e.employeeId)
  {
    var (ok, errs) := Validate(e, today);
    if !ok then Err(errs)
    else
      var stored := StoredRow(GetById(rows, e.employeeId), e);
      match GetById(rows, e.employeeId)
      case None => Ok(rows + [stored])
      case Some(_) => Ok(ReplaceById(rows, stored))
  }

  /** Overwrites the row with `x`'s id. */
  function ReplaceById(rows: seq<Employee>, x: Employee): (r: seq<Employee>)
    requires UniqueIds(rows)
    ensures |r| == |rows| && UniqueIds(r)
    ensures forall i :: 0 <= i < |r| ==> r[i] == (if rows[i].employeeId == x.employeeId then x else rows[i])
    ensures HasId(rows, x.employeeId) ==> x in r
    ensures forall y :: y in r ==> y == x || (y in rows && y.employeeId != x.employeeId)
  {
    var r := seq(|rows|, i requires 0 <= i < |rows| => if rows[i].employeeId == x.employeeId then x else rows[i]);
    assert forall i :: 0 <= i < |r| ==> r[i].employeeId == rows[i].employeeId;
    r
  }

  /** `delete`: the soft delete. The status becomes "Terminated" and nothing
      else changes; an unknown id changes nothing. */
  function SoftDelete(rows: seq<Employee>, id: string): (r: seq<Employee>)
    requires UniqueIds(rows)
    ensures |r| == |rows| && UniqueIds(r)
    ensures forall i :: 0 <= i < |rows| && rows[i].employeeId == id ==> r[i] == rows[i].(status := StatusTerminated)
    ensures forall i :: 0 <= i < |rows| && rows[i].employeeId != id ==> r[i] == rows[i]
  {
    match GetById(rows, id)
    case None => rows
    case Some(e) => ReplaceById(rows, e.(status := StatusTerminated))
  }

  /** Writing an employee's row back over its soft-deleted copy restores the table. */
  lemma RestoreAfterSoftDelete(rows: seq<Employee>, e: Employee)
    requires UniqueIds(rows) && e in rows
    ensures ReplaceById(SoftDelete(rows, e.employeeId), e) == rows
  {
    var r := ReplaceById(SoftDelete(rows, e.employeeId), e);
    var i :| 0 <= i < |rows| && rows[i] == e;
    forall k | 0 <= k < |rows| ensures r[k] == rows[k] {
      if rows[k].employeeId == e.employeeId {
        assert k == i;
      }
    }
  }

  /** `hard_delete`: the employee's row is gone; every other row stays. */
  function HardDelete(rows: seq<Employee>, id: string): (r: seq<Employee>)
    requires UniqueIds(rows)
    ensures UniqueIds(r) && !HasId(r, id)
    ensures forall x :: x in r <==> x in rows && x.employeeId != id
  {
    var p := (x: Employee) => x.employeeId != id;
    FilterKeepsUniqueIds(rows, p);
    Filter(rows, p)
  }

  lemma {:induction false} FilterKeepsUniqueIds(rows: seq<Employee>, p: Employee -> bool)
    requires UniqueIds(rows)
    ensures UniqueIds(Filter(rows, p))
  {
    if |rows| > 0 {
      FilterKeepsUniqueIds(rows[1..], p);
      var rest := Filter(rows[1..], p);
      forall x | x in rest ensures x.employeeId != rows[0].employeeId {
        var j :| 0 <= j < |rows[1..]| && rows[1..][j] == x;
        assert rows[j + 1] == x;
      }
    }
  }

  /** `ORDER BY last_name, first_name`. */
  predicate NameLe(a: Employee, b: Employee) {
    StrLess(a.lastName, b.lastName) || (a.lastName == b.lastName && StrLessEq(a.firstName, b.firstName))
  }

  lemma NameLeIsTotalPreorder()
    ensures IsTotalPreorder(NameLe)
  {
    forall a: Employee, b: Employee ensures NameLe(a, b) || NameLe(b, a) {
      if a.lastName != b.lastName {
        StrLessTotal(a.lastName, b.lastName);
      } else if a.firstName != b.firstName {
        StrLessTotal(a.firstName, b.firstName);
      }
    }
    forall a: Employee, b: Employee, c: Employee | NameLe(a, b) && NameLe(b, c) ensures NameLe(a, c) {
      if StrLess(a.lastName, b.lastName) && StrLess(b.lastName, c.lastName) {
        StrLessTransitive(a.lastName, b.lastName, c.lastName);
      }
      if StrLess(a.firstName, b.firstName) && StrLess(b.firstName, c.firstName) {
        StrLessTransitive(a.firstName, b.firstName, c.firstName);
      }
    }
  }

  /** `get_all`: every employee, or only the active ones, by last then first name. */
  function GetAll(rows: seq<Employee>, includeTerminated: bool): (r: seq<Employee>)
    ensures forall x :: x in r <==> x in rows && (includeTerminated || IsActive(x))
    ensures SortedBy(r, NameLe)
    ensures includeTerminated ==> multiset(r) == multiset(rows)
    ensures forall x :: multiset(r)[x] == if includeTerminated || IsActive(x) then multiset(rows)[x] else 0
  {
    NameLeIsTotalPreorder();
    var kept := if includeTerminated then rows else Filter(rows, IsActive);
    var r := SortBy(kept, NameLe);
    forall x ensures x in r <==> x in kept {
      assert x in r <==> x in multiset(r);
    }
    r
  }
}
