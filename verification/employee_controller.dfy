/** Employee management (`src/controllers/employee_controller.py`): id
    generation, create and update with validation, the terminate and
    reactivate guards, confirmed permanent deletion, the search-term guard,
    and the department and job-title pick lists. Each operation takes the
    employee store and returns the new store or the reason it refused. */
module EmployeeController {
  import opened Wrappers
  import opened Text
  import opened Constants
  import opened Dates
  import opened Employees

  /** Why a controller operation refused; an `Invalid` carries the messages of `validate`. */
  datatype ControllerError =
    | NotFound
    | Invalid(errors: seq<EmployeeError>)
    | DuplicateId
    | AlreadyTerminated
    | AlreadyActive
    | ConfirmationRequired
    | EmptySearchTerm

  // ---------------------------------------------------------------------------
  // Id generation
  // ---------------------------------------------------------------------------

  /** `int(employee_id[1:])`: the number after the one-letter prefix, or
      `None` where `int()` raises. */
  function Suffix(id: string): Option<int> {
    ParseInt(if |id| == 0 then [] else id[1..])
  }

  /** The suffix of every id, in store order. */
  function Suffixes(rows: seq<Employee>): (r: seq<Option<int>>)
    ensures |r| == |rows|
  {
    if |rows| == 0 then [] else Suffixes(rows[..|rows| - 1]) + [Suffix(rows[|rows| - 1].employeeId)]
  }

  lemma {:induction false} SuffixAt(rows: seq<Employee>, j: int)
    requires 0 <= j < |rows|
    ensures Suffixes(rows)[j] == Suffix(rows[j].employeeId)
  {
    if j < |rows| - 1 {
      SuffixAt(rows[..|rows| - 1], j);
    }
  }

  /** `m` is the largest parseable suffix in the store, or 0 when there is
      none larger: the value `generate_employee_id` counts up from. */
  predicate IsLargestSuffix(rows: seq<Employee>, m: nat) {
    && (forall j :: 0 <= j < |rows| && Suffix(rows[j].employeeId).Some? ==> Suffix(rows[j].employeeId).value <= m)
    && (m == 0 || exists j :: 0 <= j < |rows| && Suffix(rows[j].employeeId) == Some(m))
  }

  /** The largest present number of `nums`, or 0 when none is larger. */
  predicate IsLargestOf(nums: seq<Option<int>>, m: nat) {
    && (forall j :: 0 <= j < |nums| && nums[j].Some? ==> nums[j].value <= m)
    && (m == 0 || exists j :: 0 <= j < |nums| && nums[j] == Some(m))
  }

  /** The loop of `generate_employee_id`: the running maximum, starting from 0. */
  method LargestOf(nums: seq<Option<int>>) returns (maxId: nat)
    ensures IsLargestOf(nums, maxId)
  {
    maxId := 0;
    var i := 0;
    while i < |nums|
      invariant 0 <= i <= |nums|
      invariant IsLargestOf(nums[..i], maxId)
    {
      var num := nums[i];
      if num.Some? && num.value > maxId {
        maxId := num.value;
      }
      assert nums[..i + 1] == nums[..i] + [num];
      i := i + 1;
    }
    assert nums[..i] == nums;
  }

  /** The largest of the store's numeric suffixes. */
  method LargestSuffix(rows: seq<Employee>) returns (maxId: nat)
    ensures IsLargestSuffix(rows, maxId)
  {
    var nums := Suffixes(rows);
    maxId := LargestOf(nums);
    forall j | 0 <= j < |rows| ensures nums[j] == Suffix(rows[j].employeeId) {
      SuffixAt(rows, j);
    }
  }

  /** `generate_employee_id`: "E001" for an empty store; otherwise "E"
      followed by one more than the largest numeric suffix (at least 0),
      zero-padded to three digits. Ids without a numeric suffix are skipped,
      and the id generated is not in the store. */
  method GenerateEmployeeId(rows: seq<Employee>) returns (id: string)
    ensures |rows| == 0 ==> id == "E001"
    ensures exists m: nat :: IsLargestSuffix(rows, m) && id == IdNumbered(m + 1)
    ensures forall e :: e in rows ==> e.employeeId != id
  {
    var maxId := LargestSuffix(rows);
    NumberedAboveIsFresh(rows, maxId + 1);
    if |rows| == 0 {
      assert maxId == 0;
      FirstId();
      id := "E001";
    } else {
      id := IdNumbered(maxId + 1);
    }
  }

  /** Only one number is the largest suffix of a store. */
  lemma LargestSuffixUnique(rows: seq<Employee>, m: nat, k: nat)
    requires IsLargestSuffix(rows, m) && IsLargestSuffix(rows, k)
    ensures m == k
  {
  }

  /** An id numbered above every parseable suffix in the store is not in it. */
  lemma NumberedAboveIsFresh(rows: seq<Employee>, n: nat)
    requires forall j :: 0 <= j < |rows| && Suffix(rows[j].employeeId).Some? ==> Suffix(rows[j].employeeId).value < n
    ensures forall e :: e in rows ==> e.employeeId != IdNumbered(n)
  {
    NumberedId(n);
    forall e | e in rows ensures e.employeeId != IdNumbered(n) {
      var j :| 0 <= j < |rows| && rows[j] == e;
      assert Suffix(e.employeeId) != Suffix(IdNumbered(n));
    }
  }

  /** `f"E{n:03d}"`. */
  function IdNumbered(n: nat): string {
    "E" + FormatPadded(n, 3)
  }

  /** The id numbered `n` is "E" and digits, and its suffix reads back as `n`. */
  lemma NumberedId(n: nat)
    ensures |IdNumbered(n)| >= 4 && IdNumbered(n)[0] == 'E' && AllDigits(IdNumbered(n)[1..])
    ensures Suffix(IdNumbered(n)) == Some(n)
  {
    var digits := FormatPadded(n, 3);
    var id := "E" + digits;
    assert id[1..] == digits;
    FormatPaddedParses(n, 3);
    assert Suffix(id) == ParseInt(digits);
  }

  lemma FirstId()
    ensures IdNumbered(1) == "E001"
  {
    assert NatToDigits(1) == "1";
    assert ZeroPad("01", 3) == "001";
    assert ZeroPad("1", 3) == "001";
  }

  // ---------------------------------------------------------------------------
  // Create and update
  // ---------------------------------------------------------------------------

  /** `create_employee`: the record is validated, then its id checked
      against the store, and only then saved. */
  function CreateEmployee(rows: seq<Employee>, e: Employee, today: CivilDate): (r: Result<seq<Employee>, ControllerError>)
    requires UniqueIds(rows)
    ensures r == Err(Invalid(Validate(e, today).1)) <==> !IsValid(e, today)
    ensures r == Err(DuplicateId) <==> IsValid(e, today) && HasId(rows, e.employeeId)
    ensures r.Ok? <==> IsValid(e, today) && !HasId(rows, e.employeeId)
    ensures r.Ok? ==> r.value == rows + [StoredRow(None, e)] && UniqueIds(r.value)
  {
    var (ok, errs) := Validate(e, today);
    if !ok then Err(Invalid(errs))
    else if GetById(rows, e.employeeId).Some? then Err(DuplicateId)
    else
      var saved := Save(rows, e, today);
      assert saved.value == rows + [StoredRow(None, e)];
      Ok(saved.value)
  }

  /** The fields `update_employee` may change, each present only when its
      key is in the update. The employee id is not among them. */
  datatype EmployeePatch = EmployeePatch(
    firstName: Option<string>,
    lastName: Option<string>,
    surname: Option<Option<string>>,
    dateOfBirth: Option<string>,
    gender: Option<string>,
    email: Option<string>,
    phoneNum: Option<Option<string>>,
    status: Option<string>,
    hasPicture: Option<int>,
    pictureFilename: Option<Option<string>>,
    addressLine1: Option<string>,
    addressLine2: Option<Option<string>>,
    city: Option<string>,
    state: Option<string>,
    zipCode: Option<string>,
    dateHired: Option<string>,
    departmentName: Option<string>,
    jobTitleName: Option<string>,
    salaryType: Option<Option<string>>,
    baseSalary: Option<Option<real>>,
    hourlyRate: Option<Option<real>>,
    medicalType: Option<Option<string>>,
    numDependents: Option<int>)

  /** An update with no keys. */
  const NoChanges := EmployeePatch(None, None, None, None, None, None, None, None, None, None, None, None,
                                   None, None, None, None, None, None, None, None, None, None, None)

  /** A field after an update: the update's value when its key is present,
      the old value otherwise. */
  predicate Takes<T(==)>(before: T, after: T, patch: Option<T>) {
    if patch.Some? then after == patch.value else after == before
  }

  function ApplyPatch(e: Employee, p: EmployeePatch): (r: Employee)
    ensures r.employeeId == e.employeeId
    ensures Takes(e.firstName, r.firstName, p.firstName) && Takes(e.lastName, r.lastName, p.lastName)
    ensures Takes(e.surname, r.surname, p.surname) && Takes(e.dateOfBirth, r.dateOfBirth, p.dateOfBirth)
    ensures Takes(e.gender, r.gender, p.gender) && Takes(e.email, r.email, p.email)
    ensures Takes(e.phoneNum, r.phoneNum, p.phoneNum) && Takes(e.status, r.status, p.status)
    ensures Takes(e.hasPicture, r.hasPicture, p.hasPicture)
    ensures Takes(e.pictureFilename, r.pictureFilename, p.pictureFilename)
    ensures Takes(e.addressLine1, r.addressLine1, p.addressLine1)
    ensures Takes(e.addressLine2, r.addressLine2, p.addressLine2)
    ensures Takes(e.city, r.city, p.city) && Takes(e.state, r.state, p.state)
    ensures Takes(e.zipCode, r.zipCode, p.zipCode) && Takes(e.dateHired, r.dateHired, p.dateHired)
    ensures Takes(e.departmentName, r.departmentName, p.departmentName)
    ensures Takes(e.jobTitleName, r.jobTitleName, p.jobTitleName)
    ensures Takes(e.salaryType, r.salaryType, p.salaryType) && Takes(e.baseSalary, r.baseSalary, p.baseSalary)
    ensures Takes(e.hourlyRate, r.hourlyRate, p.hourlyRate) && Takes(e.medicalType, r.medicalType, p.medicalType)
    ensures Takes(e.numDependents, r.numDependents, p.numDependents)
  {
    e.(firstName := p.firstName.GetOr(e.firstName),
       lastName := p.lastName.GetOr(e.lastName),
       surname := p.surname.GetOr(e.surname),
       dateOfBirth := p.dateOfBirth.GetOr(e.dateOfBirth),
       gender := p.gender.GetOr(e.gender),
       email := p.email.GetOr(e.email),
       phoneNum := p.phoneNum.GetOr(e.phoneNum),
       status := p.status.GetOr(e.status),
       hasPicture := p.hasPicture.GetOr(e.hasPicture),
       pictureFilename := p.pictureFilename.GetOr(e.pictureFilename),
       addressLine1 := p.addressLine1.GetOr(e.addressLine1),
       addressLine2 := p.addressLine2.GetOr(e.addressLine2),
       city := p.city.GetOr(e.city),
       state := p.state.GetOr(e.state),
       zipCode := p.zipCode.GetOr(e.zipCode),
       dateHired := p.dateHired.GetOr(e.dateHired),
       departmentName := p.departmentName.GetOr(e.departmentName),
       jobTitleName := p.jobTitleName.GetOr(e.jobTitleName),
       salaryType := p.salaryType.GetOr(e.salaryType),
       baseSalary := p.baseSalary.GetOr(e.baseSalary),
       hourlyRate := p.hourlyRate.GetOr(e.hourlyRate),
       medicalType := p.medicalType.GetOr(e.medicalType),
       numDependents := p.numDependents.GetOr(e.numDependents))
  }

  /** An update with no keys changes nothing, and one with only a status
      changes only the status. */
  lemma PatchTouchesOnlyPresentKeys(e: Employee, s: string)
    ensures ApplyPatch(e, NoChanges) == e
    ensures ApplyPatch(e, NoChanges.(status := Some(s))) == e.(status := s)
  {
  }

  /** `update_employee`: the stored employee with the present keys changed,
      revalidated, then saved. Nothing is written when the id is unknown or
      the changed record is invalid. */
  function UpdateEmployee(rows: seq<Employee>, id: string, p: EmployeePatch, today: CivilDate): (r: Result<seq<Employee>, ControllerError>)
    requires UniqueIds(rows)
    ensures r == Err(NotFound) <==> !HasId(rows, id)
    ensures HasId(rows, id) ==> var u := ApplyPatch(GetById(rows, id).value, p);
      && (r.Err? <==> !IsValid(u, today))
      && (r.Err? ==> r.error == Invalid(Validate(u, today).1))
      && (r.Ok? ==> UniqueIds(r.value))
      && (r.Ok? ==> forall x :: x in r.value <==>
                      x == StoredRow(GetById(rows, id), u) || (x in rows && x.employeeId != id))
  {
    match GetById(rows, id)
    case None => Err(NotFound)
    case Some(existing) =>
      var u := ApplyPatch(existing, p);
      var (ok, errs) := Validate(u, today);
      if !ok then Err(Invalid(errs))
      else Ok(Save(rows, u, today).value)
  }

  // ---------------------------------------------------------------------------
  // Terminate, reactivate, delete
  // ---------------------------------------------------------------------------

  /** `terminate_employee`: refused for an unknown id or an employee already
      terminated; otherwise the soft delete. */
  function TerminateEmployee(rows: seq<Employee>, id: string): (r: Result<seq<Employee>, ControllerError>)
    requires UniqueIds(rows)
    ensures r == Err(NotFound) <==> !HasId(rows, id)
    ensures r == Err(AlreadyTerminated) <==> HasId(rows, id) && GetById(rows, id).value.status == StatusTerminated
    ensures r.Ok? <==> HasId(rows, id) && GetById(rows, id).value.status != StatusTerminated
    ensures r.Ok? ==> r.value == SoftDelete(rows, id) && UniqueIds(r.value)
  {
    match GetById(rows, id)
    case None => Err(NotFound)
    case Some(e) =>
      if e.status == StatusTerminated then Err(AlreadyTerminated)
      else Ok(SoftDelete(rows, id))
  }

  /** `reactivate_employee`: refused for an unknown id or an employee already
      active; otherwise an update of the status alone, which is validated
      like any other update and can fail. */
  function ReactivateEmployee(rows: seq<Employee>, id: string, today: CivilDate): (r: Result<seq<Employee>, ControllerError>)
    requires UniqueIds(rows)
    ensures r == Err(NotFound) <==> !HasId(rows, id)
    ensures r == Err(AlreadyActive) <==> HasId(rows, id) && GetById(rows, id).value.status == StatusActive
    ensures HasId(rows, id) && GetById(rows, id).value.status != StatusActive ==>
      r == UpdateEmployee(rows, id, NoChanges.(status := Some(StatusActive)), today)
  {
    match GetById(rows, id)
    case None => Err(NotFound)
    case Some(e) =>
      if e.status == StatusActive then Err(AlreadyActive)
      else UpdateEmployee(rows, id, NoChanges.(status := Some(StatusActive)), today)
  }

  /** Terminating a valid active employee and reactivating them gives back
      the store as it was. */
  lemma TerminateThenReactivate(rows: seq<Employee>, e: Employee, today: CivilDate)
    requires UniqueIds(rows) && e in rows
    requires IsActive(e) && IsValid(e, today)
    ensures TerminateEmployee(rows, e.employeeId).Ok?
    ensures ReactivateEmployee(TerminateEmployee(rows, e.employeeId).value, e.employeeId, today) == Ok(rows)
  {
    var id := e.employeeId;
    GetByIdUnique(rows, e);
    var t := SoftDelete(rows, id);
    var i :| 0 <= i < |rows| && rows[i] == e;
    var off := e.(status := StatusTerminated);
    assert t[i] == off;
    GetByIdUnique(t, off);
    PatchTouchesOnlyPresentKeys(off, StatusActive);
    assert off.(status := StatusActive) == e;
    assert StoredRow(Some(off), e) == e;
    assert Save(t, e, today) == Ok(ReplaceById(t, e));
    RestoreAfterSoftDelete(rows, e);
  }

  /** `delete_employee_permanently`: nothing happens without confirmation or
      for an unknown id; otherwise the employee's row is removed. */
  function DeleteEmployeePermanently(rows: seq<Employee>, id: string, confirm: bool): (r: Result<seq<Employee>, ControllerError>)
    requires UniqueIds(rows)
    ensures r == Err(ConfirmationRequired) <==> !confirm
    ensures r == Err(NotFound) <==> confirm && !HasId(rows, id)
    ensures r.Ok? ==> UniqueIds(r.value) && !HasId(r.value, id)
    ensures r.Ok? ==> forall x :: x in r.value <==> x in rows && x.employeeId != id
  {
    if !confirm then Err(ConfirmationRequired)
    else if GetById(rows, id).None? then Err(NotFound)
    else Ok(HardDelete(rows, id))
  }

  // ---------------------------------------------------------------------------
  // Search guard and pick lists
  // ---------------------------------------------------------------------------

  /** The guard of `search_employees`: an empty or all-space term is
      refused; otherwise the term is searched for with its surrounding
      spaces removed. */
  function SearchTerm(term: string): (r: Result<string, ControllerError>)
    ensures r.Err? <==> IsBlank(term)
    ensures r.Err? ==> r.error == EmptySearchTerm
    ensures r.Ok? ==> r.value != [] && r.value == Strip(term) && Strip(r.value) == r.value
  {
    if IsBlank(term) then Err(EmptySearchTerm)
    else
      StripIdempotent(term);
      Ok(Strip(term))
  }

  /** `sorted({name for name in names if name})`. */
  function DistinctSorted(names: seq<string>): (r: seq<string>)
    ensures StrictlyAscending(r)
    ensures forall x :: x in r <==> x in names && x != []
  {
    if |names| == 0 then []
    else
      var rest := DistinctSorted(names[..|names| - 1]);
      var last := names[|names| - 1];
      assert names == names[..|names| - 1] + [last];
      if last == [] then rest else InsertAscending(last, rest)
  }

  /** `get_departments_list`: every non-empty department name of any
      employee, terminated ones included, once each, in ascending order. */
  function GetDepartmentsList(rows: seq<Employee>): (r: seq<string>)
    ensures StrictlyAscending(r)
    ensures forall d :: d in r <==> d != [] && exists e :: e in rows && e.departmentName == d
  {
    var names := seq(|rows|, i requires 0 <= i < |rows| => rows[i].departmentName);
    assert forall e :: e in rows ==> e.departmentName in names by {
      forall e | e in rows ensures e.departmentName in names {
        var i :| 0 <= i < |rows| && rows[i] == e;
        assert names[i] == e.departmentName;
      }
    }
    DistinctSorted(names)
  }

  /** `get_job_titles_list`: the same for job titles. */
  function GetJobTitlesList(rows: seq<Employee>): (r: seq<string>)
    ensures StrictlyAscending(r)
    ensures forall t :: t in r <==> t != [] && exists e :: e in rows && e.jobTitleName == t
  {
    var names := seq(|rows|, i requires 0 <= i < |rows| => rows[i].jobTitleName);
    assert forall e :: e in rows ==> e.jobTitleName in names by {
      forall e | e in rows ensures e.jobTitleName in names {
        var i :| 0 <= i < |rows| && rows[i] == e;
        assert names[i] == e.jobTitleName;
      }
    }
    DistinctSorted(names)
  }
}
