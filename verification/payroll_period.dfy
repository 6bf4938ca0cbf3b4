/** Pay periods (`PayrollPeriod` in `src/models/payroll.py`): the Monday to
    Sunday week a date falls in, and the `payroll_periods` table with its
    lookup, get-or-create, listing and one-way lock.

    The table is a sequence of rows in insertion order. Rows are never
    deleted and `payroll_id` is the autoincremented row id, so the row with
    id `k` sits at index `k - 1` (`Numbered`). */
module Periods {
  import opened Wrappers
  import opened Text
  import opened Dates
  import opened Query

  datatype Period = Period(
    payrollId: int,
    start: string,
    end: string,
    processedDate: Option<string>,
    isLocked: int,
    processedBy: Option<string>)

  /** `is_locked` is read for its truth value. */
  predicate Locked(p: Period) {
    p.isLocked != 0
  }

  // ---------------------------------------------------------------------------
  // The week containing a day
  // ---------------------------------------------------------------------------

  /** The Monday and Sunday (as day numbers) of the week containing day `n`:
      `n - n.weekday()` and six days later. `None` is the `OverflowError` of
      the Sunday of the last week of year 9999, which falls past the last
      representable date. */
  function Week(n: int): (r: Option<(int, int)>)
    requires 1 <= n <= MaxOrdinal
    ensures r.Some? ==> r.value.0 <= n <= r.value.1
    ensures r.Some? ==> r.value.1 == r.value.0 + 6
    ensures r.Some? ==> Weekday(r.value.0) == 0
    ensures r.Some? ==> 1 <= r.value.0 && r.value.1 <= MaxOrdinal
    ensures r.None? <==> n - Weekday(n) + 6 > MaxOrdinal
  {
    var monday := AddDays(n, -Weekday(n));
    assert monday == Some(n - Weekday(n));
    match monday
    case None => None
    case Some(m) =>
      match AddDays(m, 6)
      case None => None
      case Some(s) => Some((m, s))
  }

  /** Every day of a week has that week: the Monday's week is the week itself. */
  lemma WeekOfEveryDay(n: int, k: int)
    requires 1 <= n <= MaxOrdinal && Week(n).Some?
    requires 0 <= k <= 6
    ensures Week(Week(n).value.0 + k) == Week(n)
  {
    var m := Week(n).value.0;
    assert Weekday(m + k) == k;
  }

  /** The week as `YYYY-MM-DD` text. */
  function FormatWeek(n: int): (r: Option<(string, string)>)
    requires 1 <= n <= MaxOrdinal
    ensures r.Some? <==> Week(n).Some?
    ensures r.Some? ==> r.value == (Format(FromOrdinal(Week(n).value.0)), Format(FromOrdinal(Week(n).value.1)))
  {
    match Week(n)
    case None => None
    case Some((m, s)) => Some((Format(FromOrdinal(m)), Format(FromOrdinal(s))))
  }

  /** `get_current_period`, with today's day number passed in. */
  function GetCurrentPeriod(today: int): (r: Option<(string, string)>)
    requires 1 <= today <= MaxOrdinal
    ensures r.Some? ==> ParseIsoDate(r.value.0).Some? && ParseIsoDate(r.value.1).Some?
    ensures r.Some? ==> var m := ToOrdinal(ParseIsoDate(r.value.0).value);
      && Weekday(m) == 0 && m <= today
      && ToOrdinal(ParseIsoDate(r.value.1).value) == m + 6 && today <= m + 6
  {
    match Week(today)
    case None => None
    case Some((m, s)) =>
      ParseFormat(FromOrdinal(m));
      ParseFormat(FromOrdinal(s));
      Some((Format(FromOrdinal(m)), Format(FromOrdinal(s))))
  }

  /** Two days of the same week give the same period. */
  lemma SameWeekSamePeriod(a: int, b: int)
    requires 1 <= a <= MaxOrdinal && 1 <= b <= MaxOrdinal
    requires Week(a) == Week(b)
    ensures GetCurrentPeriod(a) == GetCurrentPeriod(b)
  {
  }

  /** Asked again for its own Monday, the period of a day is the same period. */
  lemma PeriodOfMonday(n: int)
    requires 1 <= n <= MaxOrdinal && GetCurrentPeriod(n).Some?
    ensures ParseIsoDate(GetCurrentPeriod(n).value.0).Some?
    ensures GetCurrentPeriod(ToOrdinal(ParseIsoDate(GetCurrentPeriod(n).value.0).value)) == GetCurrentPeriod(n)
  {
    var m := Week(n).value.0;
    ParseFormat(FromOrdinal(m));
    assert GetCurrentPeriod(n).value.0 == Format(FromOrdinal(m));
    assert ToOrdinal(ParseIsoDate(GetCurrentPeriod(n).value.0).value) == m;
    WeekOfEveryDay(n, 0);
    assert m + 0 == m;
    SameWeekSamePeriod(m, n);
  }

  // ---------------------------------------------------------------------------
  // The table
  // ---------------------------------------------------------------------------

  predicate Numbered(rows: seq<Period>) {
    forall i :: 0 <= i < |rows| ==> rows[i].payrollId == i + 1
  }

  /** `get_by_id`. */
  function GetById(rows: seq<Period>, id: int): (r: Option<Period>)
    requires Numbered(rows)
    ensures r.Some? ==> r.value in rows && r.value.payrollId == id
    ensures r.None? ==> forall p :: p in rows ==> p.payrollId != id
  {
    if 1 <= id <= |rows| then Some(rows[id - 1]) else None
  }

  predicate HasDates(p: Period, start: string, end: string) {
    p.start == start && p.end == end
  }

  /** `get_by_dates`: the first row with exactly this start and end text. */
  function GetByDates(rows: seq<Period>, start: string, end: string): (r: Option<Period>)
    ensures r.None? <==> forall i :: 0 <= i < |rows| ==> !HasDates(rows[i], start, end)
    ensures r.Some? ==> exists i :: 0 <= i < |rows| && rows[i] == r.value && HasDates(rows[i], start, end)
                          && forall j :: 0 <= j < i ==> !HasDates(rows[j], start, end)
  {
    if |rows| == 0 then None
    else if HasDates(rows[0], start, end) then Some(rows[0])
    else
      var r := GetByDates(rows[1..], start, end);
      assert forall i :: 1 <= i < |rows| ==> rows[i] == rows[1..][i - 1];
      if r.Some? then
        var i :| 0 <= i < |rows[1..]| && rows[1..][i] == r.value && HasDates(rows[1..][i], start, end)
                 && forall j :: 0 <= j < i ==> !HasDates(rows[1..][j], start, end);
        assert rows[i + 1] == r.value;
        r
      else r
  }

  /** `get_or_create`: the existing period for exactly these dates, or a new
      unlocked, unprocessed one appended with the next id. */
  function GetOrCreate(rows: seq<Period>, start: string, end: string): (r: (seq<Period>, Period))
    requires Numbered(rows)
    ensures Numbered(r.0)
    ensures HasDates(r.1, start, end) && r.1 in r.0
    ensures GetByDates(rows, start, end).Some? ==> r.0 == rows && r.1 == GetByDates(rows, start, end).value
    ensures GetByDates(rows, start, end).None? ==>
      && r.0 == rows + [r.1]
      && r.1 == Period(|rows| + 1, start, end, None, 0, None)
  {
    match GetByDates(rows, start, end)
    case Some(p) => (rows, p)
    case None =>
      var p := Period(|rows| + 1, start, end, None, 0, None);
      (rows + [p], p)
  }

  /** Getting or creating the same dates twice changes nothing the second
      time and returns the same period. */
  lemma GetOrCreateIdempotent(rows: seq<Period>, start: string, end: string)
    requires Numbered(rows)
    ensures var (once, p) := GetOrCreate(rows, start, end);
      GetOrCreate(once, start, end) == (once, p)
  {
    var (once, p) := GetOrCreate(rows, start, end);
    if GetByDates(rows, start, end).None? {
      assert once[|rows|] == p;
      assert GetByDates(once, start, end) == Some(p) by {
        var q := GetByDates(once, start, end);
        assert q.Some?;
        var i :| 0 <= i < |once| && once[i] == q.value && HasDates(once[i], start, end)
                 && forall j :: 0 <= j < i ==> !HasDates(once[j], start, end);
        assert forall k :: 0 <= k < |rows| ==> once[k] == rows[k];
        assert i == |rows|;
      }
    }
  }

  /** No two rows cover the same week. */
  predicate DistinctDates(rows: seq<Period>) {
    forall i, j :: 0 <= i < j < |rows| ==> !HasDates(rows[j], rows[i].start, rows[i].end)
  }

  /** `get_or_create` never creates a second row for the same dates. */
  lemma GetOrCreateKeepsDistinct(rows: seq<Period>, start: string, end: string)
    requires Numbered(rows) && DistinctDates(rows)
    ensures DistinctDates(GetOrCreate(rows, start, end).0)
  {
    var after := GetOrCreate(rows, start, end).0;
    if GetByDates(rows, start, end).None? {
      forall i, j | 0 <= i < j < |after| ensures !HasDates(after[j], after[i].start, after[i].end) {
        if j == |rows| {
          assert !HasDates(rows[i], start, end);
        }
      }
    }
  }

  /** `lock`: sets the flag, stamps the processing time and user, and saves;
      the save fails only when no row has the id. */
  function Lock(rows: seq<Period>, id: int, processedBy: string, now: string): (r: (seq<Period>, bool))
    requires Numbered(rows)
    ensures Numbered(r.0) && |r.0| == |rows|
    ensures r.1 <==> GetById(rows, id).Some?
    ensures forall i :: 0 <= i < |rows| && i != id - 1 ==> r.0[i] == rows[i]
    ensures r.1 ==> r.0[id - 1] == rows[id - 1].(isLocked := 1, processedDate := Some(now),
                                                  processedBy := Some(processedBy))
    ensures LocksKept(rows, r.0)
  {
    if 1 <= id <= |rows| then
      (rows[id - 1 := rows[id - 1].(isLocked := 1, processedDate := Some(now), processedBy := Some(processedBy))], true)
    else (rows, false)
  }

  /** A locked period stays locked, with the same dates. */
  predicate LocksKept(before: seq<Period>, after: seq<Period>) {
    && |before| <= |after|
    && forall i :: 0 <= i < |before| && Locked(before[i]) ==>
         Locked(after[i]) && HasDates(after[i], before[i].start, before[i].end)
  }

  /** No operation on the table clears a lock: `get_or_create` only appends,
      and `lock` only sets. */
  lemma NothingUnlocks(rows: seq<Period>, start: string, end: string, id: int, user: string, now: string)
    requires Numbered(rows)
    ensures LocksKept(rows, GetOrCreate(rows, start, end).0)
    ensures LocksKept(rows, Lock(rows, id, user, now).0)
  {
  }

  predicate StartDescending(a: Period, b: Period) {
    StrLessEq(b.start, a.start)
  }

  lemma StartDescendingIsTotalPreorder()
    ensures IsTotalPreorder(StartDescending)
  {
    forall a: Period, b: Period ensures StartDescending(a, b) || StartDescending(b, a) {
      if a.start != b.start {
        StrLessTotal(a.start, b.start);
      }
    }
    forall a: Period, b: Period, c: Period | StartDescending(a, b) && StartDescending(b, c)
      ensures StartDescending(a, c)
    {
      if StrLess(c.start, b.start) && StrLess(b.start, a.start) {
        StrLessTransitive(c.start, b.start, a.start);
      }
    }
  }

  /** `get_all`: every period, or only the unlocked ones (`is_locked = 0`),
      latest start first. */
  function GetAll(rows: seq<Period>, includeLocked: bool): (r: seq<Period>)
    ensures forall p :: p in r <==> p in rows && (includeLocked || p.isLocked == 0)
    ensures forall i, j :: 0 <= i < j < |r| ==> StrLessEq(r[j].start, r[i].start)
    ensures includeLocked ==> multiset(r) == multiset(rows)
    ensures forall p :: multiset(r)[p] == if includeLocked || p.isLocked == 0 then multiset(rows)[p] else 0
  {
    StartDescendingIsTotalPreorder();
    var kept := if includeLocked then rows else Filter(rows, (p: Period) => p.isLocked == 0);
    var r := SortBy(kept, StartDescending);
    forall p ensures p in r <==> p in kept {
      assert p in r <==> p in multiset(r);
    }
    r
  }
}
