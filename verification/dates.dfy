/** Calendar dates as the payroll code handles them.

    The code keeps dates as `YYYY-MM-DD` text, reads them with
    `datetime.strptime(s, "%Y-%m-%d")`, does day arithmetic with `timedelta`
    and writes them back with `strftime("%Y-%m-%d")`. This module models the
    proleptic Gregorian calendar of Python's `datetime.date` through its day
    ordinal (0001-01-01 is day 1, a Monday), the parser and the formatter, and
    proves that formatted dates read back, that the ordinal is a bijection onto
    `1..MaxOrdinal`, and that comparing formatted dates as text (which the SQL
    range queries do) is comparing them in time. */
module Dates {
  import opened Wrappers
  import opened Text
  import opened Constants

  /** A `datetime.date`: year, month and day. */
  datatype CivilDate = CivilDate(year: int, month: int, day: int)

  const MinYear: int := 1
  const MaxYear: int := 9999
  /** `date.max.toordinal()`. */
  const MaxOrdinal: int := 3652059

  predicate IsLeapYear(y: int) {
    y % 4 == 0 && (y % 100 != 0 || y % 400 == 0)
  }

  function DaysInYear(y: int): int {
    if IsLeapYear(y) then 366 else 365
  }

  function DaysInMonth(y: int, m: int): (n: int)
    requires 1 <= m <= 12
    ensures 28 <= n <= 31
  {
    if m == 2 then (if IsLeapYear(y) then 29 else 28)
    else if m == 4 || m == 6 || m == 9 || m == 11 then 30
    else 31
  }

  /** The dates `datetime.date` accepts. */
  predicate IsValidDate(c: CivilDate) {
    && MinYear <= c.year <= MaxYear
    && 1 <= c.month <= 12
    && 1 <= c.day <= DaysInMonth(c.year, c.month)
  }

  /** Days in all years before `y`. */
  function DaysBeforeYear(y: int): int
    requires y >= 1
  {
    var p := y - 1;
    p * 365 + p / 4 - p / 100 + p / 400
  }

  /** Days in the months of year `y` before month `m`. */
  function DaysBeforeMonth(y: int, m: int): int
    requires 1 <= m <= 12
  {
    var common := [0, 31, 59, 90, 120, 151, 181, 212, 243, 273, 304, 334][m - 1];
    if m > 2 && IsLeapYear(y) then common + 1 else common
  }

  lemma YearStep(y: int)
    requires y >= 1
    ensures DaysBeforeYear(y + 1) == DaysBeforeYear(y) + DaysInYear(y)
  {
    var p := y - 1;
    assert y / 4 == p / 4 + (if y % 4 == 0 then 1 else 0);
    assert y / 100 == p / 100 + (if y % 100 == 0 then 1 else 0);
    assert y / 400 == p / 400 + (if y % 400 == 0 then 1 else 0);
  }

  lemma MonthStep(y: int, m: int)
    requires 1 <= m <= 12
    ensures m < 12 ==> DaysBeforeMonth(y, m + 1) == DaysBeforeMonth(y, m) + DaysInMonth(y, m)
    ensures m == 12 ==> DaysBeforeMonth(y, m) + DaysInMonth(y, m) == DaysInYear(y)
  {
  }

  lemma {:induction false} MonthMonotone(y: int, m1: int, m2: int)
    requires 1 <= m1 <= m2 <= 12
    ensures DaysBeforeMonth(y, m1) + (if m1 < m2 then DaysInMonth(y, m1) else 0) <= DaysBeforeMonth(y, m2)
    decreases m2 - m1
  {
    if m1 < m2 {
      MonthStep(y, m1);
      if m1 + 1 < m2 {
        MonthMonotone(y, m1 + 1, m2);
      }
    }
  }

  lemma {:induction false} YearMonotone(y1: int, y2: int)
    requires 1 <= y1 <= y2
    ensures DaysBeforeYear(y1) + (if y1 < y2 then DaysInYear(y1) else 0) <= DaysBeforeYear(y2)
    decreases y2 - y1
  {
    if y1 < y2 {
      YearStep(y1);
      if y1 + 1 < y2 {
        YearMonotone(y1 + 1, y2);
      }
    }
  }

  /** A valid date's day of the year lies within its year. */
  lemma DayOfYearBounds(c: CivilDate)
    requires IsValidDate(c)
    ensures 1 <= DaysBeforeMonth(c.year, c.month) + c.day <= DaysInYear(c.year)
  {
    MonthMonotone(c.year, c.month, 12);
    MonthStep(c.year, 12);
  }

  /** `date.toordinal()`. */
  function ToOrdinal(c: CivilDate): (n: int)
    requires IsValidDate(c)
    ensures DaysBeforeYear(c.year) < n <= DaysBeforeYear(c.year + 1)
    ensures 1 <= n <= MaxOrdinal
  {
    DayOfYearBounds(c);
    YearStep(c.year);
    YearMonotone(1, c.year);
    YearMonotone(c.year + 1, MaxYear + 1);
    DaysBeforeYear(c.year) + DaysBeforeMonth(c.year, c.month) + c.day
  }

  /** The year holding day `n`, searched upwards from year `y`. */
  function YearOf(n: int, y: int): (r: int)
    requires MinYear <= y <= MaxYear && DaysBeforeYear(y) < n <= MaxOrdinal
    ensures y <= r <= MaxYear
    ensures DaysBeforeYear(r) < n <= DaysBeforeYear(r + 1)
    decreases MaxYear - y
  {
    YearStep(y);
    if n <= DaysBeforeYear(y + 1) then y else YearOf(n, y + 1)
  }

  /** The month holding day `k` of year `y`, searched upwards from month `m`. */
  function MonthOf(y: int, k: int, m: int): (r: int)
    requires 1 <= m <= 12 && DaysBeforeMonth(y, m) < k <= DaysInYear(y)
    ensures m <= r <= 12
    ensures DaysBeforeMonth(y, r) < k <= DaysBeforeMonth(y, r) + DaysInMonth(y, r)
    decreases 12 - m
  {
    MonthStep(y, m);
    if k <= DaysBeforeMonth(y, m) + DaysInMonth(y, m) then m else MonthOf(y, k, m + 1)
  }

  /** `date.fromordinal(n)`, defined for `1 <= n <= MaxOrdinal` (Python raises
      outside that range). */
  function FromOrdinal(n: int): (c: CivilDate)
    requires 1 <= n <= MaxOrdinal
    ensures IsValidDate(c)
    ensures ToOrdinal(c) == n
  {
    var y := YearOf(n, MinYear);
    YearStep(y);
    var k := n - DaysBeforeYear(y);
    var m := MonthOf(y, k, 1);
    CivilDate(y, m, k - DaysBeforeMonth(y, m))
  }

  /** Chronological order of dates, field by field. */
  predicate DateLess(a: CivilDate, b: CivilDate) {
    || a.year < b.year
    || (a.year == b.year && a.month < b.month)
    || (a.year == b.year && a.month == b.month && a.day < b.day)
  }

  /** The ordinal increases with the date. */
  lemma OrdinalMonotone(a: CivilDate, b: CivilDate)
    requires IsValidDate(a) && IsValidDate(b)
    requires DateLess(a, b)
    ensures ToOrdinal(a) < ToOrdinal(b)
  {
    if a.year < b.year {
      YearMonotone(a.year + 1, b.year);
    } else if a.month < b.month {
      MonthMonotone(a.year, a.month, b.month);
    }
  }

  /** The ordinal orders dates exactly as the calendar does, so it is one-to-one. */
  lemma OrdinalOrder(a: CivilDate, b: CivilDate)
    requires IsValidDate(a) && IsValidDate(b)
    ensures DateLess(a, b) <==> ToOrdinal(a) < ToOrdinal(b)
    ensures a == b <==> ToOrdinal(a) == ToOrdinal(b)
  {
    if DateLess(a, b) {
      OrdinalMonotone(a, b);
    } else if DateLess(b, a) {
      OrdinalMonotone(b, a);
    }
  }

  /** `fromordinal` undoes `toordinal`. */
  lemma FromToOrdinal(c: CivilDate)
    requires IsValidDate(c)
    ensures FromOrdinal(ToOrdinal(c)) == c
  {
    OrdinalOrder(c, FromOrdinal(ToOrdinal(c)));
  }

  /** `date.weekday()` of the date with ordinal `n`: Monday is 0. */
  function Weekday(n: int): (w: int)
    ensures 0 <= w < 7
  {
    (n + 6) % 7
  }

  /** Weekdays repeat every seven days and advance by one each day. */
  lemma WeekdayNext(n: int)
    ensures Weekday(n + 1) == (Weekday(n) + 1) % 7
    ensures Weekday(n + 7) == Weekday(n)
  {
  }

  /** `DAYS_OF_WEEK[date.weekday()]`. */
  function DayName(n: int): (name: string)
    ensures name in DaysOfWeek
    ensures name == "Saturday" <==> Weekday(n) == 5
  {
    DaysOfWeek[Weekday(n)]
  }

  /** `date.strftime("%Y-%m-%d")`: four-digit year, two-digit month and day. */
  function Format(c: CivilDate): (s: string)
    requires IsValidDate(c)
    ensures |s| == 10 && s[4] == '-' && s[7] == '-'
  {
    FormatPaddedDigits(c.year, 4);
    FormatPaddedDigits(c.month, 2);
    FormatPaddedDigits(c.day, 2);
    FormatPadded(c.year, 4) + "-" + FormatPadded(c.month, 2) + "-" + FormatPadded(c.day, 2)
  }

  /** The `%m` field: one or two ASCII digits naming a month 1..12. */
  predicate IsMonthField(t: string) {
    1 <= |t| <= 2 && AllDigits(t) && 1 <= DigitsValue(t) <= 12
  }

  /** The `%d` field: one or two ASCII digits for 1..31, or a space and one
      digit 1..9. */
  predicate IsDayField(t: string) {
    || (1 <= |t| <= 2 && AllDigits(t) && 1 <= DigitsValue(t) <= 31)
    || (|t| == 2 && t[0] == ' ' && IsDigit(t[1]) && t[1] != '0')
  }

  function DayFieldValue(t: string): int
    requires IsDayField(t)
  {
    if t[0] == ' ' then DigitOf(t[1]) else DigitsValue(t)
  }

  /** `datetime.strptime(s, "%Y-%m-%d")`: `%Y` is exactly four digits, the
      whole text must be consumed, and the day must exist in its month;
      `None` is the `ValueError` branch. */
  function ParseIsoDate(s: string): (r: Option<CivilDate>)
    ensures r.Some? ==> IsValidDate(r.value)
    ensures r.Some? ==> |Split(s, '-')| == 3
  {
    var parts := Split(s, '-');
    if |parts| != 3 then None
    else if !(|parts[0]| == 4 && AllDigits(parts[0])) then None
    else if !IsMonthField(parts[1]) || !IsDayField(parts[2]) then None
    else
      var c := CivilDate(DigitsValue(parts[0]), DigitsValue(parts[1]), DayFieldValue(parts[2]));
      if IsValidDate(c) then Some(c) else None
  }

  /** An empty field is not a date. */
  lemma EmptyDateDoesNotParse()
    ensures ParseIsoDate([]).None?
  {
    assert Split([], '-') == [[]];
  }

  /** A ten-character text without spaces that `strptime` accepts is exactly
      what `strftime` writes for the date it names: the parser rejects every
      such text that is not the canonical spelling of a real date. */
  lemma FormatParse(s: string)
    requires ParseIsoDate(s).Some?
    requires |s| == 10 && ' ' !in s
    ensures Format(ParseIsoDate(s).value) == s
  {
    var c := ParseIsoDate(s).value;
    var parts := Split(s, '-');
    SplitJoin(s, '-');
    var y, m, d := parts[0], parts[1], parts[2];
    assert parts == [y, m, d];
    assert s == y + "-" + m + "-" + d by {
      assert parts[1..] == [m, d];
      assert [m, d][1..] == [d];
      assert Join([m, d], '-') == m + ['-'] + d;
    }
    assert |m| == 2 && |d| == 2;
    assert d[0] in s;
    FormatPaddedDigits(c.year, 4);
    FormatPaddedDigits(c.month, 2);
    FormatPaddedDigits(c.day, 2);
    DigitsInjective(FormatPadded(c.year, 4), y);
    DigitsInjective(FormatPadded(c.month, 2), m);
    DigitsInjective(FormatPadded(c.day, 2), d);
  }

  /** What `strftime` writes, `strptime` reads back. */
  lemma ParseFormat(c: CivilDate)
    requires IsValidDate(c)
    ensures ParseIsoDate(Format(c)) == Some(c)
  {
    var y, m, d := FormatPadded(c.year, 4), FormatPadded(c.month, 2), FormatPadded(c.day, 2);
    FormatPaddedDigits(c.year, 4);
    FormatPaddedDigits(c.month, 2);
    FormatPaddedDigits(c.day, 2);
    assert NoSeparator([y, m, d], '-');
    assert Join([y, m, d], '-') == Format(c) by {
      assert [y, m, d][1..] == [m, d];
      assert [m, d][1..] == [d];
      assert Join([m, d], '-') == m + ['-'] + d;
    }
    JoinSplit([y, m, d], '-');
    assert Split(Format(c), '-') == [y, m, d];
    assert IsDigit(d[0]);
    assert IsMonthField(m) && IsDayField(d) && DayFieldValue(d) == c.day;
  }

  /** Text of the shape `YYYY-MM-DD` with fields of fixed width compares
      field by field. */
  lemma FieldwiseOrder(ya: string, ma: string, da: string, yb: string, mb: string, db: string)
    requires |ya| == |yb| && |ma| == |mb|
    ensures StrLess(ya + "-" + ma + "-" + da, yb + "-" + mb + "-" + db) <==>
      StrLess(ya, yb) || (ya == yb && (StrLess(ma, mb) || (ma == mb && StrLess(da, db))))
  {
    var ta, tb := "-" + ma + "-" + da, "-" + mb + "-" + db;
    assert ya + "-" + ma + "-" + da == ya + ta && yb + "-" + mb + "-" + db == yb + tb;
    StrLessConcat(ya, ta, yb, tb);
    var ua, ub := "-" + da, "-" + db;
    assert ta == ("-" + ma) + ua && tb == ("-" + mb) + ub;
    StrLessConcat("-" + ma, ua, "-" + mb, ub);
    StrLessConcat("-", ma, "-", mb);
    StrLessConcat("-", da, "-", db);
    StrLessIrreflexive("-");
    assert "-" + ma == "-" + mb <==> ma == mb by {
      if "-" + ma == "-" + mb {
        assert ma == ("-" + ma)[1..] && mb == ("-" + mb)[1..];
      }
    }
  }

  /** Formatted dates compare as text exactly as they compare in time, which
      is why the SQL range filters and `ORDER BY` on date columns follow the
      calendar for dates the program writes itself. */
  lemma FormatOrder(a: CivilDate, b: CivilDate)
    requires IsValidDate(a) && IsValidDate(b)
    ensures StrLess(Format(a), Format(b)) <==> ToOrdinal(a) < ToOrdinal(b)
    ensures Format(a) == Format(b) <==> a == b
  {
    var ya, ma, da := FormatPadded(a.year, 4), FormatPadded(a.month, 2), FormatPadded(a.day, 2);
    var yb, mb, db := FormatPadded(b.year, 4), FormatPadded(b.month, 2), FormatPadded(b.day, 2);
    FormatPaddedDigits(a.year, 4);
    FormatPaddedDigits(a.month, 2);
    FormatPaddedDigits(a.day, 2);
    FormatPaddedDigits(b.year, 4);
    FormatPaddedDigits(b.month, 2);
    FormatPaddedDigits(b.day, 2);
    DigitOrder(ya, yb);
    DigitOrder(ma, mb);
    DigitOrder(da, db);
    FieldwiseOrder(ya, ma, da, yb, mb, db);
    OrdinalOrder(a, b);
    if Format(a) == Format(b) {
      ParseFormat(a);
      ParseFormat(b);
    }
  }

  /** Day arithmetic with `timedelta`: `None` is the `OverflowError` Python
      raises when the result leaves the calendar. */
  function AddDays(n: int, k: int): (r: Option<int>)
    ensures r.Some? <==> 1 <= n + k <= MaxOrdinal
    ensures r.Some? ==> r.value == n + k
  {
    if 1 <= n + k <= MaxOrdinal then Some(n + k) else None
  }

  lemma FirstDayAnchor()
    ensures ToOrdinal(CivilDate(1, 1, 1)) == 1
  {
  }

  lemma NewYear2024Anchor()
    ensures ToOrdinal(CivilDate(2024, 1, 1)) == 738886
    ensures ToOrdinal(CivilDate(2024, 1, 6)) == 738891
  {
    assert DaysBeforeYear(2024) == 738885;
  }

  lemma WeekdayAnchors()
    ensures Weekday(1) == 0 && Weekday(738886) == 0 && Weekday(738891) == 5
  {
  }

  /** Concrete anchors: 0001-01-01 is day 1, a Monday; 2024-01-01 is a Monday
      and 2024-01-06 a Saturday. */
  lemma KnownWeekdays()
    ensures Weekday(ToOrdinal(CivilDate(1, 1, 1))) == 0
    ensures Weekday(ToOrdinal(CivilDate(2024, 1, 1))) == 0
    ensures Weekday(ToOrdinal(CivilDate(2024, 1, 6))) == 5
  {
    FirstDayAnchor();
    NewYear2024Anchor();
    WeekdayAnchors();
  }
}
