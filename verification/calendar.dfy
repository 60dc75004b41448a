/** Proleptic Gregorian dates as Python's `datetime.date` represents them,
    their ISO `%Y-%m-%d` rendering, and `%H:%M:%S` times of day. */
module Calendar {
  import opened Wrappers
  import opened Text

  /** `datetime.MINYEAR` and `datetime.MAXYEAR`. */
  const MinYear := 1
  const MaxYear := 9999

  datatype Date = Date(year: int, month: int, day: int)

  predicate IsLeapYear(y: int) {
    y % 4 == 0 && (y % 100 != 0 || y % 400 == 0)
  }

  function DaysInMonth(y: int, m: int): (n: int)
    requires 1 <= m <= 12
    ensures 28 <= n <= 31
  {
    if m == 2 then (if IsLeapYear(y) then 29 else 28)
    else if m == 4 || m == 6 || m == 9 || m == 11 then 30
    else 31
  }

  function DaysInYear(y: int): int {
    if IsLeapYear(y) then 366 else 365
  }

  /** The dates `datetime.date(year, month, day)` accepts without raising. */
  predicate ValidDate(d: Date) {
    && MinYear <= d.year <= MaxYear
    && 1 <= d.month <= 12
    && 1 <= d.day <= DaysInMonth(d.year, d.month)
  }

  type CalendarDate = d: Date | ValidDate(d) witness Date(1, 1, 1)

  /** `datetime.date.min`. */
  const MinDate: CalendarDate := Date(MinYear, 1, 1)

  /** Days in the years before `y`, counted from 0001-01-01. */
  function DaysBeforeYear(y: int): nat
    requires y >= 1
  {
    if y == 1 then 0 else DaysBeforeYear(y - 1) + DaysInYear(y - 1)
  }

  /** Days in the months of year `y` before month `m`. */
  function DaysBeforeMonth(y: int, m: int): nat
    requires 1 <= m <= 12
  {
    var common := [0, 31, 59, 90, 120, 151, 181, 212, 243, 273, 304, 334][m - 1];
    if m > 2 && IsLeapYear(y) then common + 1 else common
  }

  /** `date.toordinal()`: 0001-01-01 is day 1, and each later day one more. */
  function Ordinal(d: CalendarDate): int {
    DaysBeforeYear(d.year) + DaysBeforeMonth(d.year, d.month) + d.day
  }

  lemma DaysBeforeMonthStep(y: int, m: int)
    requires 1 < m <= 12
    ensures DaysBeforeMonth(y, m) == DaysBeforeMonth(y, m - 1) + DaysInMonth(y, m - 1)
  {
  }

  lemma DaysBeforeYearEnd(y: int)
    ensures DaysBeforeMonth(y, 12) + DaysInMonth(y, 12) == DaysInYear(y)
  {
  }

  /** The calendar day before `d`, or `None` when `d` is `date.min`, where
      subtracting `timedelta(days=1)` raises `OverflowError`. */
  function Predecessor(d: CalendarDate): (p: Option<CalendarDate>)
    ensures p.None? <==> d == MinDate
    ensures p.Some? ==> Ordinal(p.value) == Ordinal(d) - 1
  {
    if d.day > 1 then
      Some(Date(d.year, d.month, d.day - 1))
    else if d.month > 1 then
      DaysBeforeMonthStep(d.year, d.month);
      Some(Date(d.year, d.month - 1, DaysInMonth(d.year, d.month - 1)))
    else if d.year > MinYear then
      DaysBeforeYearEnd(d.year - 1);
      Some(Date(d.year - 1, 12, 31))
    else
      None
  }

  /** The position of `d` within its year, from 1 to the length of the year. */
  lemma DayOfYearBounds(d: CalendarDate)
    ensures 1 <= DaysBeforeMonth(d.year, d.month) + d.day <= DaysInYear(d.year)
  {
  }

  lemma {:induction false} DaysBeforeYearGrows(a: int, b: int)
    requires 1 <= a < b
    ensures DaysBeforeYear(a) + DaysInYear(a) <= DaysBeforeYear(b)
  {
    if a + 1 < b {
      DaysBeforeYearGrows(a, b - 1);
    }
  }

  /** Dates in calendar order have strictly increasing ordinals. */
  lemma OrdinalMonotone(a: CalendarDate, b: CalendarDate)
    requires a.year < b.year
             || (a.year == b.year && a.month < b.month)
             || (a.year == b.year && a.month == b.month && a.day < b.day)
    ensures Ordinal(a) < Ordinal(b)
  {
    DayOfYearBounds(a);
    DayOfYearBounds(b);
    if a.year < b.year {
      DaysBeforeYearGrows(a.year, b.year);
    } else if a.month < b.month {
      DaysBeforeMonthGrows(a.year, a.month, b.month);
    }
  }

  lemma {:induction false} DaysBeforeMonthGrows(y: int, m: int, n: int)
    requires 1 <= m < n <= 12
    ensures DaysBeforeMonth(y, m) + DaysInMonth(y, m) <= DaysBeforeMonth(y, n)
  {
    DaysBeforeMonthStep(y, n);
    if m + 1 < n {
      DaysBeforeMonthGrows(y, m, n - 1);
    }
  }

  /** Distinct dates have distinct ordinals. */
  lemma OrdinalInjective(a: CalendarDate, b: CalendarDate)
    ensures Ordinal(a) == Ordinal(b) ==> a == b
  {
    if a.year < b.year || (a.year == b.year && a.month < b.month)
       || (a.year == b.year && a.month == b.month && a.day < b.day) {
      OrdinalMonotone(a, b);
    } else if a != b {
      OrdinalMonotone(b, a);
    }
  }

  /** `Predecessor` is the one and only date whose ordinal is one less. */
  lemma PredecessorUnique(d: CalendarDate, q: CalendarDate)
    requires Ordinal(q) == Ordinal(d) - 1
    ensures Predecessor(d) == Some(q)
  {
    if d == MinDate {
      OrdinalMonotone(q, d);
    } else {
      OrdinalInjective(q, Predecessor(d).value);
    }
  }

  /** `date.strftime("%Y-%m-%d")`. */
  function FormatIso(d: CalendarDate): (s: string)
    ensures |s| == 10 && s[4] == '-' && s[7] == '-'
    ensures AllDigits(s[..4]) && AllDigits(s[5..7]) && AllDigits(s[8..])
  {
    Pad4(d.year) + "-" + Pad2(d.month) + "-" + Pad2(d.day)
  }

  /** The strings `FormatIso` produces: `YYYY-MM-DD` naming an existing date. */
  function ParseIso(s: string): (r: Option<CalendarDate>)
    ensures r.Some? ==> |s| == 10
  {
    if |s| == 10 && s[4] == '-' && s[7] == '-'
       && AllDigits(s[..4]) && AllDigits(s[5..7]) && AllDigits(s[8..]) then
      var d := Date(DecimalValue(s[..4]), DecimalValue(s[5..7]), DecimalValue(s[8..]));
      if ValidDate(d) then Some(d) else None
    else
      None
  }

  /** Parsing the ISO rendering of a date gives the date back. */
  lemma ParseFormatIso(d: CalendarDate)
    ensures ParseIso(FormatIso(d)) == Some(d)
  {
    var s := FormatIso(d);
    assert s[..4] == Pad4(d.year);
    assert s[5..7] == Pad2(d.month);
    assert s[8..] == Pad2(d.day);
    DecimalValuePad4(d.year);
    DecimalValuePad2(d.month);
    DecimalValuePad2(d.day);
  }

  /** Every string `ParseIso` accepts is the ISO rendering of what it parsed. */
  lemma FormatParseIso(s: string)
    requires ParseIso(s).Some?
    ensures FormatIso(ParseIso(s).value) == s
  {
    Pad4DecimalValue(s[..4]);
    Pad2DecimalValue(s[5..7]);
    Pad2DecimalValue(s[8..]);
    assert s == s[..4] + "-" + s[5..7] + "-" + s[8..];
  }

  /** Two dates render to the same ISO text only if they are the same date. */
  lemma FormatIsoInjective(a: CalendarDate, b: CalendarDate)
    ensures FormatIso(a) == FormatIso(b) <==> a == b
  {
    ParseFormatIso(a);
    ParseFormatIso(b);
  }

  /** A wall-clock time as `datetime.now()` reports it, to the second. */
  datatype Clock = Clock(hour: int, minute: int, second: int)

  type TimeOfDay = t: Clock | 0 <= t.hour < 24 && 0 <= t.minute < 60 && 0 <= t.second < 60
    witness Clock(0, 0, 0)

  /** `strftime("%H:%M:%S")`. */
  function FormatClock(t: TimeOfDay): (s: string)
    ensures |s| == 8 && s[2] == ':' && s[5] == ':'
    ensures AllDigits(s[..2]) && AllDigits(s[3..5]) && AllDigits(s[6..])
    ensures DecimalValue(s[..2]) == t.hour
    ensures DecimalValue(s[3..5]) == t.minute
    ensures DecimalValue(s[6..]) == t.second
  {
    var s := Pad2(t.hour) + ":" + Pad2(t.minute) + ":" + Pad2(t.second);
    assert s[..2] == Pad2(t.hour) && s[3..5] == Pad2(t.minute) && s[6..] == Pad2(t.second);
    DecimalValuePad2(t.hour);
    DecimalValuePad2(t.minute);
    DecimalValuePad2(t.second);
    s
  }

  /** A rendered time is never blank, so it always counts as a set Time Out. */
  lemma FormatClockNotBlank(t: TimeOfDay)
    ensures !IsBlank(FormatClock(t))
  {
    assert !IsSpace(FormatClock(t)[0]);
  }
}
