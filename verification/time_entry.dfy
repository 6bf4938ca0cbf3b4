/** Daily time entries (`src/models/time_entry.py`): the hours derived from
    one day's record, the field validation, the factory that derives the day
    name from the date, and the `time_entries` table with the queries the
    payroll engine runs on it.

    The table is a sequence of rows in insertion order. The schema makes
    (employee, date) unique; `UniqueKeys` states that, and every operation
    here keeps it. Dates stay text, as in the table, and the range filters
    compare them as text, as SQLite does. */
module TimeEntries {
  import opened Wrappers
  import opened Text
  import opened Constants
  import opened Dates
  import opened Query

  datatype TimeEntry = TimeEntry(
    employeeId: string,
    payrollId: Option<int>,
    date: string,
    dayOfWeek: string,
    hoursWorked: real,
    ptoHours: real,
    isSaturday: int,
    notes: Option<string>)

  // ---------------------------------------------------------------------------
  // Hours derived from one entry
  // ---------------------------------------------------------------------------

  /** `total_hours`: worked plus paid time off. */
  function TotalHours(e: TimeEntry): real {
    e.hoursWorked + e.ptoHours
  }

  /** `regular_hours`: the hours worked up to the daily overtime threshold. */
  function RegularHours(e: TimeEntry): (h: real)
    ensures h <= OvertimeThresholdDaily && h <= e.hoursWorked
    ensures h == e.hoursWorked || h == OvertimeThresholdDaily
  {
    if e.hoursWorked < OvertimeThresholdDaily then e.hoursWorked else OvertimeThresholdDaily
  }

  /** `overtime_hours`: the hours worked beyond the daily threshold, else 0. */
  function OvertimeHours(e: TimeEntry): (h: real)
    ensures h >= 0.0
    ensures h > 0.0 <==> e.hoursWorked > OvertimeThresholdDaily
  {
    if e.hoursWorked > OvertimeThresholdDaily then e.hoursWorked - OvertimeThresholdDaily else 0.0
  }

  /** The daily split loses and invents nothing: regular plus overtime is the
      hours worked, regular never passes 8, and overtime is only what lies
      above 8. */
  lemma DailySplit(e: TimeEntry)
    ensures RegularHours(e) + OvertimeHours(e) == e.hoursWorked
    ensures TotalHours(e) == RegularHours(e) + OvertimeHours(e) + e.ptoHours
    ensures e.hoursWorked <= OvertimeThresholdDaily ==> OvertimeHours(e) == 0.0
    ensures e.hoursWorked >= OvertimeThresholdDaily ==> RegularHours(e) == OvertimeThresholdDaily
  {
  }

  // ---------------------------------------------------------------------------
  // Validation
  // ---------------------------------------------------------------------------

  /** The messages `validate` can return, one constructor per rule. */
  datatype EntryError =
    | EmployeeIdRequired
    | DateRequired
    | DateFormat
    | DayOfWeekUnknown
    | HoursNegative
    | HoursTooMany
    | PtoNegative
    | PtoTooMany
    | TotalTooMany
    | SaturdayFlag

  /** Whether the rule reporting `err` rejects `e`. */
  predicate Fires(e: TimeEntry, err: EntryError) {
    match err
    case EmployeeIdRequired => IsBlank(e.employeeId)
    case DateRequired => e.date == []
    case DateFormat => e.date != [] && ParseIsoDate(e.date).None?
    case DayOfWeekUnknown => e.dayOfWeek !in DaysOfWeek
    case HoursNegative => e.hoursWorked < 0.0
    case HoursTooMany => e.hoursWorked > MaxHoursPerDay
    case PtoNegative => e.ptoHours < 0.0
    case PtoTooMany => e.ptoHours > MaxPtoHoursPerDay
    case TotalTooMany => TotalHours(e) > MaxHoursPerDay
    case SaturdayFlag => e.dayOfWeek == "Saturday" && e.isSaturday != 1
  }

  function When(c: bool, err: EntryError): seq<EntryError> {
    if c then [err] else []
  }

  /** The rules in the order `validate` checks them. */
  const RuleOrder: seq<EntryError> := [
    EmployeeIdRequired, DateRequired, DateFormat, DayOfWeekUnknown, HoursNegative,
    HoursTooMany, PtoNegative, PtoTooMany, TotalTooMany, SaturdayFlag]

  /** The messages of those of `rules` that fire, in the order given. */
  function Fired(e: TimeEntry, rules: seq<EntryError>): (r: seq<EntryError>)
    ensures |r| <= |rules|
  {
    if rules == [] then [] else When(Fires(e, rules[0]), rules[0]) + Fired(e, rules[1..])
  }

  lemma {:induction false} FiredExact(e: TimeEntry, rules: seq<EntryError>)
    ensures forall err :: err in Fired(e, rules) <==> err in rules && Fires(e, err)
  {
    if rules != [] {
      FiredExact(e, rules[1..]);
      assert forall err :: err in rules <==> err == rules[0] || err in rules[1..];
    }
  }

  /** Every rule is checked. */
  lemma EveryRuleChecked(err: EntryError)
    ensures err in RuleOrder
  {
    match err
    case EmployeeIdRequired => assert RuleOrder[0] == err;
    case DateRequired => assert RuleOrder[1] == err;
    case DateFormat => assert RuleOrder[2] == err;
    case DayOfWeekUnknown => assert RuleOrder[3] == err;
    case HoursNegative => assert RuleOrder[4] == err;
    case HoursTooMany => assert RuleOrder[5] == err;
    case PtoNegative => assert RuleOrder[6] == err;
    case PtoTooMany => assert RuleOrder[7] == err;
    case TotalTooMany => assert RuleOrder[8] == err;
    case SaturdayFlag => assert RuleOrder[9] == err;
  }

  /** The position of a rule among the checks of `validate`. */
  function Rank(err: EntryError): nat {
    match err
    case EmployeeIdRequired => 0
    case DateRequired => 1
    case DateFormat => 2
    case DayOfWeekUnknown => 3
    case HoursNegative => 4
    case HoursTooMany => 5
    case PtoNegative => 6
    case PtoTooMany => 7
    case TotalTooMany => 8
    case SaturdayFlag => 9
  }

  /** Messages in the order `validate` checks their rules, none twice. */
  predicate InRuleOrder(errs: seq<EntryError>) {
    forall i, j :: 0 <= i < j < |errs| ==> Rank(errs[i]) < Rank(errs[j])
  }

  /** The rule list is in the order `validate` checks. */
  lemma RuleOrderInOrder()
    ensures InRuleOrder(RuleOrder)
  {
    assert forall i :: 0 <= i < |RuleOrder| ==> Rank(RuleOrder[i]) == i;
  }

  /** Picking the firing rules out of an ordered list keeps the order. */
  lemma {:induction false} FiredInOrder(e: TimeEntry, rules: seq<EntryError>)
    requires InRuleOrder(rules)
    ensures InRuleOrder(Fired(e, rules))
  {
    if rules != [] {
      var rest := rules[1..];
      assert InRuleOrder(rest) by {
        forall i, j | 0 <= i < j < |rest| ensures Rank(rest[i]) < Rank(rest[j]) {
          assert rest[i] == rules[i + 1] && rest[j] == rules[j + 1];
        }
      }
      FiredInOrder(e, rest);
      FiredExact(e, rest);
      var tail := Fired(e, rest);
      forall x | x in tail ensures Rank(rules[0]) < Rank(x) {
        var k :| 0 <= k < |rest| && rest[k] == x;
        assert rules[k + 1] == x;
      }
    }
  }

  /** The messages `validate` appends, rule by rule. */
  function Messages(e: TimeEntry): seq<EntryError> {
    Fired(e, RuleOrder)
  }

  lemma MessagesExact(e: TimeEntry)
    ensures forall err :: err in Messages(e) <==> Fires(e, err)
  {
    FiredExact(e, RuleOrder);
    forall err: EntryError ensures err in RuleOrder {
      EveryRuleChecked(err);
    }
  }

  /** `validate`: the message of every rule that fires, each once, in rule order. */
  function Validate(e: TimeEntry): (errs: seq<EntryError>)
    ensures forall err :: err in errs <==> Fires(e, err)
    ensures InRuleOrder(errs)
    ensures |errs| <= 10
  {
    MessagesExact(e);
    RuleOrderInOrder();
    FiredInOrder(e, RuleOrder);
    Messages(e)
  }

  /** `is_valid`. */
  predicate IsValid(e: TimeEntry) {
    |Validate(e)| == 0
  }

  /** A storable entry, described positively. */
  predicate WellFormed(e: TimeEntry) {
    && !IsBlank(e.employeeId)
    && ParseIsoDate(e.date).Some?
    && e.dayOfWeek in DaysOfWeek
    && 0.0 <= e.hoursWorked <= MaxHoursPerDay
    && 0.0 <= e.ptoHours <= MaxPtoHoursPerDay
    && TotalHours(e) <= MaxHoursPerDay
    && (e.dayOfWeek == "Saturday" ==> e.isSaturday == 1)
  }

  /** `validate` returns no message exactly for well-formed entries. */
  lemma ValidIffWellFormed(e: TimeEntry)
    ensures IsValid(e) <==> WellFormed(e)
  {
    EmptyDateDoesNotParse();
    var errs := Validate(e);
    if !IsValid(e) {
      assert Fires(e, errs[0]);
    } else {
      assert !Fires(e, EmployeeIdRequired) && !Fires(e, DateRequired) && !Fires(e, DateFormat);
      assert !Fires(e, DayOfWeekUnknown) && !Fires(e, HoursNegative) && !Fires(e, HoursTooMany);
      assert !Fires(e, PtoNegative) && !Fires(e, PtoTooMany) && !Fires(e, TotalTooMany);
      assert !Fires(e, SaturdayFlag);
    }
  }

  /** The Saturday rule only runs one way: marking an entry as a Saturday
      entry never makes it invalid, whatever its day name, and the day name
      is never compared with the date. */
  lemma SaturdayRuleOneWay(e: TimeEntry)
    requires IsValid(e)
    ensures IsValid(e.(isSaturday := 1))
  {
    ValidIffWellFormed(e);
    ValidIffWellFormed(e.(isSaturday := 1));
  }

  // ---------------------------------------------------------------------------
  // Building an entry from a date
  // ---------------------------------------------------------------------------

  /** `get_day_of_week`: `None` is the `ValueError` of a malformed date. */
  function GetDayOfWeek(date: string): (r: Option<string>)
    ensures r.Some? <==> ParseIsoDate(date).Some?
    ensures r.Some? ==> r.value in DaysOfWeek
    ensures r.Some? ==> (r.value == "Saturday" <==> Weekday(ToOrdinal(ParseIsoDate(date).value)) == 5)
  {
    match ParseIsoDate(date)
    case None => None
    case Some(c) => Some(DayName(ToOrdinal(c)))
  }

  /** `create_entry`: the day name comes from the date and `is_saturday` is 1
      exactly on Saturdays; the entry is not yet assigned to a period. */
  function CreateEntry(employeeId: string, date: string, hours: real, pto: real, notes: Option<string>): (r: Option<TimeEntry>)
    ensures r.Some? <==> ParseIsoDate(date).Some?
    ensures r.Some? ==> r.value.employeeId == employeeId && r.value.date == date && r.value.payrollId.None?
    ensures r.Some? ==> r.value.hoursWorked == hours && r.value.ptoHours == pto && r.value.notes == notes
    ensures r.Some? ==> r.value.dayOfWeek in DaysOfWeek
    ensures r.Some? ==> (r.value.isSaturday == 1 <==> Weekday(ToOrdinal(ParseIsoDate(date).value)) == 5)
    ensures r.Some? ==> (r.value.isSaturday == 0 || r.value.isSaturday == 1)
  {
    match GetDayOfWeek(date)
    case None => None
    case Some(day) =>
      Some(TimeEntry(employeeId, None, date, day, hours, pto, if day == "Saturday" then 1 else 0, notes))
  }

  /** A created entry always passes the date, day-name and Saturday rules;
      only the employee id and the hours can still make it invalid. */
  lemma CreatedEntryDayRules(employeeId: string, date: string, hours: real, pto: real, notes: Option<string>)
    requires CreateEntry(employeeId, date, hours, pto, notes).Some?
    ensures var e := CreateEntry(employeeId, date, hours, pto, notes).value;
      DateRequired !in Validate(e) && DateFormat !in Validate(e)
      && DayOfWeekUnknown !in Validate(e) && SaturdayFlag !in Validate(e)
  {
    EmptyDateDoesNotParse();
  }

  // ---------------------------------------------------------------------------
  // The table
  // ---------------------------------------------------------------------------

  /** The uniqueness key of a row: (employee_id, entry_date). */
  function Key(e: TimeEntry): (string, string) {
    (e.employeeId, e.date)
  }

  predicate UniqueKeys(rows: seq<TimeEntry>) {
    forall i, j :: 0 <= i < j < |rows| ==> Key(rows[i]) != Key(rows[j])
  }

  predicate HasKey(rows: seq<TimeEntry>, employeeId: string, date: string) {
    exists i :: 0 <= i < |rows| && Key(rows[i]) == (employeeId, date)
  }

  /** `get_by_employee_and_date`. */
  function FindEntry(rows: seq<TimeEntry>, employeeId: string, date: string): (r: Option<TimeEntry>)
    ensures r.None? <==> !HasKey(rows, employeeId, date)
    ensures r.Some? ==> r.value in rows && Key(r.value) == (employeeId, date)
  {
    if |rows| == 0 then None
    else if Key(rows[0]) == (employeeId, date) then Some(rows[0])
    else
      var r := FindEntry(rows[1..], employeeId, date);
      assert HasKey(rows, employeeId, date) ==> HasKey(rows[1..], employeeId, date) by {
        if HasKey(rows, employeeId, date) {
          var i :| 0 <= i < |rows| && Key(rows[i]) == (employeeId, date);
          assert rows[1..][i - 1] == rows[i];
        }
      }
      r
  }

  /** In a table with unique keys, a row with a given key is the one `FindEntry` returns. */
  lemma FindEntryUnique(rows: seq<TimeEntry>, e: TimeEntry)
    requires UniqueKeys(rows) && e in rows
    ensures FindEntry(rows, e.employeeId, e.date) == Some(e)
  {
    var r := FindEntry(rows, e.employeeId, e.date).value;
    var i :| 0 <= i < |rows| && rows[i] == e;
    var j :| 0 <= j < |rows| && rows[j] == r;
    assert i == j;
  }

  /** `save`: an invalid entry is refused and nothing is written; a new entry
      is inserted unless its key is taken (the `IntegrityError` branch); a
      stored entry is overwritten in place. */
  function Save(rows: seq<TimeEntry>, e: TimeEntry, isNew: bool): (r: (seq<TimeEntry>, bool))
    requires UniqueKeys(rows)
    ensures UniqueKeys(r.0)
    ensures !IsValid(e) ==> r == (rows, false)
    ensures !r.1 ==> r.0 == rows
    ensures r.1 ==> IsValid(e) && e in r.0
    ensures r.1 ==> forall x :: x in r.0 ==> x == e || (x in rows && Key(x) != Key(e))
    ensures r.1 ==> forall x :: x in rows && Key(x) != Key(e) ==> x in r.0
    ensures IsValid(e) ==> (r.1 <==> (isNew != HasKey(rows, e.employeeId, e.date)))
    ensures r.1 && isNew ==> r.0 == rows + [e]
  {
    if !IsValid(e) then (rows, false)
    else if isNew then
      if FindEntry(rows, e.employeeId, e.date).Some? then (rows, false)
      else (rows + [e], true)
    else if FindEntry(rows, e.employeeId, e.date).None? then (rows, false)
    else
      var r := Replace(rows, e);
      (r, true)
  }

  /** Overwrites the row with `e`'s key. */
  function Replace(rows: seq<TimeEntry>, e: TimeEntry): (r: seq<TimeEntry>)
    requires UniqueKeys(rows)
    ensures |r| == |rows| && UniqueKeys(r)
    ensures forall i :: 0 <= i < |r| ==> r[i] == (if Key(rows[i]) == Key(e) then e else rows[i])
    ensures HasKey(rows, e.employeeId, e.date) ==> e in r
    ensures forall x :: x in r ==> x == e || (x in rows && Key(x) != Key(e))
    ensures forall x :: x in rows && Key(x) != Key(e) ==> x in r
  {
    var r := seq(|rows|, i requires 0 <= i < |rows| => if Key(rows[i]) == Key(e) then e else rows[i]);
    assert forall i :: 0 <= i < |r| ==> Key(r[i]) == Key(rows[i]);
    r
  }

  /** Deletes the row with the given key; `false` when there is none. */
  function Delete(rows: seq<TimeEntry>, employeeId: string, date: string): (r: (seq<TimeEntry>, bool))
    requires UniqueKeys(rows)
    ensures UniqueKeys(r.0)
    ensures r.1 <==> HasKey(rows, employeeId, date)
    ensures !HasKey(r.0, employeeId, date)
    ensures forall x :: x in r.0 <==> x in rows && Key(x) != (employeeId, date)
  {
    var kept := Filter(rows, (x: TimeEntry) => Key(x) != (employeeId, date));
    FilterKeepsUniqueKeys(rows, (x: TimeEntry) => Key(x) != (employeeId, date));
    (kept, FindEntry(rows, employeeId, date).Some?)
  }

  lemma {:induction false} FilterKeepsUniqueKeys(rows: seq<TimeEntry>, p: TimeEntry -> bool)
    requires UniqueKeys(rows)
    ensures UniqueKeys(Filter(rows, p))
  {
    if |rows| > 0 {
      FilterKeepsUniqueKeys(rows[1..], p);
      var rest := Filter(rows[1..], p);
      forall x | x in rest ensures Key(x) != Key(rows[0]) {
        var j :| 0 <= j < |rows[1..]| && rows[1..][j] == x;
        assert rows[j + 1] == x;
      }
    }
  }

  // ---------------------------------------------------------------------------
  // Range queries and assignment to a pay period
  // ---------------------------------------------------------------------------

  /** A date filter argument counts only when it is a non-empty string. */
  predicate Given(bound: Option<string>) {
    bound.Some? && bound.value != []
  }

  /** The `WHERE` of `get_by_employee`: each bound applies only when given;
      dates compare as text. */
  predicate InRange(date: string, start: Option<string>, end: Option<string>) {
    && (Given(start) ==> StrLessEq(start.value, date))
    && (Given(end) ==> StrLessEq(date, end.value))
  }

  /** `start <= date <= end` as text, which the unassigned-entry queries always apply. */
  predicate Between(date: string, start: string, end: string) {
    StrLessEq(start, date) && StrLessEq(date, end)
  }

  predicate DateLe(a: TimeEntry, b: TimeEntry) {
    StrLessEq(a.date, b.date)
  }

  lemma DateLeIsTotalPreorder()
    ensures IsTotalPreorder(DateLe)
  {
    forall a: TimeEntry, b: TimeEntry ensures DateLe(a, b) || DateLe(b, a) {
      if a.date != b.date {
        StrLessTotal(a.date, b.date);
      }
    }
    forall a: TimeEntry, b: TimeEntry, c: TimeEntry | DateLe(a, b) && DateLe(b, c) ensures DateLe(a, c) {
      if StrLess(a.date, b.date) && StrLess(b.date, c.date) {
        StrLessTransitive(a.date, b.date, c.date);
      }
    }
  }

  /** Rows of one employee whose dates are strictly ascending. */
  predicate AscendingDates(s: seq<TimeEntry>) {
    forall i, j :: 0 <= i < j < |s| ==> StrLess(s[i].date, s[j].date)
  }

  /** Orders rows of one table by date. With unique keys, rows of a single
      employee have distinct dates, so the order is strict. */
  function OrderByDate(s: seq<TimeEntry>, employeeId: string): (r: seq<TimeEntry>)
    requires UniqueKeys(s)
    requires forall i :: 0 <= i < |s| ==> s[i].employeeId == employeeId
    ensures AscendingDates(r)
    ensures forall x :: x in r <==> x in s
    ensures |r| == |s|
  {
    DateLeIsTotalPreorder();
    var r := SortBy(s, DateLe);
    assert |r| == |multiset(r)| == |multiset(s)| == |s|;
    forall i, j | 0 <= i < j < |r| ensures StrLess(r[i].date, r[j].date) {
      assert r[i] in multiset(s) && r[j] in multiset(s);
      var p :| 0 <= p < |s| && s[p] == r[i];
      var q :| 0 <= q < |s| && s[q] == r[j];
      if p == q {
        RepeatedElement(r, i, j);
        UniqueKeysNoRepeats(s);
        assert false;
      }
      assert r[i].date != r[j].date;
    }
    forall x ensures x in r <==> x in s {
      assert x in r <==> x in multiset(r);
    }
    r
  }

  lemma RepeatedElement<T>(s: seq<T>, i: int, j: int)
    requires 0 <= i < j < |s| && s[i] == s[j]
    ensures multiset(s)[s[i]] >= 2
  {
    assert s == s[..j] + s[j..];
    assert s[i] in s[..j];
    assert s[j..][0] == s[j];
  }

  lemma {:induction false} UniqueKeysNoRepeats(s: seq<TimeEntry>)
    requires UniqueKeys(s)
    ensures forall x :: multiset(s)[x] <= 1
  {
    if |s| > 0 {
      var init := s[..|s| - 1];
      assert s == init + [s[|s| - 1]];
      UniqueKeysNoRepeats(init);
      assert s[|s| - 1] !in init;
    }
  }

  /** `get_by_employee(employee_id, start_date, end_date)`: exactly that
      employee's rows whose date lies within the given bounds, ordered by date. */
  function GetByEmployee(rows: seq<TimeEntry>, employeeId: string, start: Option<string>, end: Option<string>): (r: seq<TimeEntry>)
    requires UniqueKeys(rows)
    ensures forall x :: x in r <==> x in rows && x.employeeId == employeeId && InRange(x.date, start, end)
    ensures AscendingDates(r)
  {
    var p := (x: TimeEntry) => x.employeeId == employeeId && InRange(x.date, start, end);
    FilterKeepsUniqueKeys(rows, p);
    OrderByDate(Filter(rows, p), employeeId)
  }

  predicate Unassigned(x: TimeEntry, employeeId: string, start: string, end: string) {
    x.employeeId == employeeId && Between(x.date, start, end) && x.payrollId.None?
  }

  /** `get_unassigned_entries`: that employee's rows in the range whose
      `payroll_id` is null, ordered by date. */
  function GetUnassignedEntries(rows: seq<TimeEntry>, employeeId: string, start: string, end: string): (r: seq<TimeEntry>)
    requires UniqueKeys(rows)
    ensures forall x :: x in r <==> x in rows && Unassigned(x, employeeId, start, end)
    ensures AscendingDates(r)
    ensures |r| == |Filter(rows, (x: TimeEntry) => Unassigned(x, employeeId, start, end))|
  {
    var p := (x: TimeEntry) => Unassigned(x, employeeId, start, end);
    FilterKeepsUniqueKeys(rows, p);
    OrderByDate(Filter(rows, p), employeeId)
  }

  /** `assign_to_payroll`: sets `payroll_id` on exactly the rows
      `get_unassigned_entries` would return and reports how many it changed;
      every other row is left as it was. */
  function AssignToPayroll(rows: seq<TimeEntry>, employeeId: string, start: string, end: string, payrollId: int): (r: (seq<TimeEntry>, nat))
    requires UniqueKeys(rows)
    ensures |r.0| == |rows| && UniqueKeys(r.0)
    ensures forall i :: 0 <= i < |rows| ==> Key(r.0[i]) == Key(rows[i])
    ensures forall i :: 0 <= i < |rows| && Unassigned(rows[i], employeeId, start, end) ==>
      r.0[i] == rows[i].(payrollId := Some(payrollId))
    ensures forall i :: 0 <= i < |rows| && !Unassigned(rows[i], employeeId, start, end) ==> r.0[i] == rows[i]
    ensures r.1 == |GetUnassignedEntries(rows, employeeId, start, end)|
  {
    var marked := seq(|rows|, i requires 0 <= i < |rows| =>
      if Unassigned(rows[i], employeeId, start, end) then rows[i].(payrollId := Some(payrollId)) else rows[i]);
    assert forall i :: 0 <= i < |rows| ==> Key(marked[i]) == Key(rows[i]);
    (marked, |Filter(rows, (x: TimeEntry) => Unassigned(x, employeeId, start, end))|)
  }

  /** Once assigned, a range has no unassigned rows left, so assigning it
      again changes nothing and reports 0. */
  lemma AssignIdempotent(rows: seq<TimeEntry>, employeeId: string, start: string, end: string, payrollId: int)
    requires UniqueKeys(rows)
    ensures var once := AssignToPayroll(rows, employeeId, start, end, payrollId).0;
      && GetUnassignedEntries(once, employeeId, start, end) == []
      && AssignToPayroll(once, employeeId, start, end, payrollId) == (once, 0)
  {
    var once := AssignToPayroll(rows, employeeId, start, end, payrollId).0;
    forall i | 0 <= i < |once| ensures !Unassigned(once[i], employeeId, start, end) {
    }
    FilterNone(once, (x: TimeEntry) => Unassigned(x, employeeId, start, end));
    var twice := AssignToPayroll(once, employeeId, start, end, payrollId).0;
    assert twice == once;
  }
}
