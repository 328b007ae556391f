/** Calendar dates as Python's `datetime.date` sees them: construction with validation,
    comparison, `strptime(s, "%Y-%m-%d")`, `isoformat()`, and the `%A`, `%W`, `%B` fields
    of `strftime`. */
module Dates {
  import opened Wrappers
  import opened Text

  datatype Date = Date(year: int, month: int, day: int)

  /** `datetime.MINYEAR` and `datetime.MAXYEAR`. */
  const MinYear := 1
  const MaxYear := 9999

  predicate IsLeap(y: int) {
    y % 4 == 0 && (y % 100 != 0 || y % 400 == 0)
  }

  function DaysInMonth(y: int, m: int): (n: int)
    requires 1 <= m <= 12
    ensures 28 <= n <= 31
  {
    if m == 2 then (if IsLeap(y) then 29 else 28)
    else if m == 4 || m == 6 || m == 9 || m == 11 then 30
    else 31
  }

  /** The triples `date(y, m, d)` accepts without raising ValueError (proleptic Gregorian). */
  predicate Valid(d: Date) {
    && MinYear <= d.year <= MaxYear
    && 1 <= d.month <= 12
    && 1 <= d.day <= DaysInMonth(d.year, d.month)
  }

  /** `a < b` on dates: lexicographic on (year, month, day). */
  predicate Before(a: Date, b: Date) {
    || a.year < b.year
    || (a.year == b.year && a.month < b.month)
    || (a.year == b.year && a.month == b.month && a.day < b.day)
  }

  /** `a <= b` on dates. */
  predicate NotAfter(a: Date, b: Date) {
    !Before(b, a)
  }

  /** The half-open interval test `start <= d < end`. */
  predicate InInterval(start: Date, end: Date, d: Date) {
    NotAfter(start, d) && Before(d, end)
  }

  /** The end date of an interval never lies inside it. */
  lemma EndExcluded(start: Date, end: Date)
    ensures !InInterval(start, end, end)
  {
  }

  /** `d + timedelta(days=1)`: the day after `d`. */
  function NextDay(d: Date): (r: Date)
    requires Valid(d) && d != Date(MaxYear, 12, 31)
    ensures Valid(r) && Before(d, r)
    ensures forall e :: Valid(e) && Before(d, e) ==> NotAfter(r, e)
  {
    if d.day < DaysInMonth(d.year, d.month) then Date(d.year, d.month, d.day + 1)
    else if d.month < 12 then Date(d.year, d.month + 1, 1)
    else Date(d.year + 1, 1, 1)
  }

  /** A single-day holiday is stored as `[d, d + 1 day)`: that interval holds exactly `d`. */
  lemma SingleDayInterval(d: Date, e: Date)
    requires Valid(d) && Valid(e) && d != Date(MaxYear, 12, 31)
    ensures InInterval(d, NextDay(d), e) <==> e == d
  {
  }

  // ---------------------------------------------------------------------------------------
  // Day numbers, weekday and week of year

  /** Days in the years before `y` (from 0001-01-01). */
  function DaysBeforeYear(y: int): int
    requires y >= 1
  {
    var p := y - 1;
    365 * p + p / 4 - p / 100 + p / 400
  }

  /** Days in the months of year `y` before month `m`. */
  function DaysBeforeMonth(y: int, m: int): (n: int)
    requires 1 <= m <= 12
    ensures 0 <= n <= 335
  {
    var common :=
      if m == 1 then 0 else if m == 2 then 31 else if m == 3 then 59 else if m == 4 then 90
      else if m == 5 then 120 else if m == 6 then 151 else if m == 7 then 181
      else if m == 8 then 212 else if m == 9 then 243 else if m == 10 then 273
      else if m == 11 then 304 else 334;
    common + (if m > 2 && IsLeap(y) then 1 else 0)
  }

  /** `d.toordinal()`: 0001-01-01 is day 1. */
  function Ordinal(d: Date): int
    requires Valid(d)
  {
    DaysBeforeYear(d.year) + DaysBeforeMonth(d.year, d.month) + d.day
  }

  /** `d.weekday()`: Monday is 0 (0001-01-01 was a Monday). */
  function Weekday(d: Date): (w: int)
    requires Valid(d)
    ensures 0 <= w < 7
  {
    (Ordinal(d) + 6) % 7
  }

  /** The position of `d` in its year, 1 for 1 January. */
  function DayOfYear(d: Date): (n: int)
    requires Valid(d)
    ensures 1 <= n <= 366
  {
    DaysBeforeMonth(d.year, d.month) + d.day
  }

  /** `%W`: the week of the year, weeks starting on Monday; days before the first Monday are week 0. */
  function WeekOfYear(d: Date): (w: int)
    requires Valid(d)
    ensures 0 <= w <= 53
    ensures DayOfYear(d) <= 7 && Weekday(d) == 0 ==> w == 1
    ensures DayOfYear(d) - 1 < Weekday(d) ==> w == 0
  {
    (DayOfYear(d) - 1 + 7 - Weekday(d)) / 7
  }

  const DayNames: seq<string> :=
    ["Monday", "Tuesday", "Wednesday", "Thursday", "Friday", "Saturday", "Sunday"]

  const MonthNames: seq<string> :=
    ["January", "February", "March", "April", "May", "June", "July", "August",
     "September", "October", "November", "December"]

  /** `d.strftime("%A")`. */
  function DayName(d: Date): string
    requires Valid(d)
  {
    DayNames[Weekday(d)]
  }

  /** `d.strftime("%B")`. */
  function MonthName(d: Date): string
    requires Valid(d)
  {
    MonthNames[d.month - 1]
  }

  /** `d.strftime("%W")`: two digits, zero padded. */
  function WeekString(d: Date): string
    requires Valid(d)
  {
    Pad2(WeekOfYear(d))
  }

  /** Euclidean division is determined by quotient and remainder. */
  lemma DivUnique(y: int, k: int, a: int, b: int)
    requires k >= 1 && y == k * a + b && 0 <= b < k
    ensures y / k == a && y % k == b
  {
    var q, r := y / k, y % k;
    var d := a - q;
    Distribute(k, q, d);
    assert k * d == r - b;
    if d >= 1 {
      MulAtLeast(k, d);
    } else if d <= -1 {
      MulAtLeast(k, -d);
      Distribute(k, 0, d);
    }
  }

  /** Multiplication distributes over a sum. */
  lemma Distribute(k: int, q: int, d: int)
    ensures k * (q + d) == k * q + k * d
  {
  }

  /** A positive multiple of k is at least k. */
  lemma {:induction false} MulAtLeast(k: int, n: int)
    requires k >= 1 && n >= 1
    ensures k * n >= k
  {
    if n > 1 {
      MulAtLeast(k, n - 1);
      Distribute(k, n - 1, 1);
    }
  }

  lemma DivStep(y: int, k: int)
    requires k >= 1
    ensures y / k - (y - 1) / k == (if y % k == 0 then 1 else 0)
  {
    var q, r := (y - 1) / k, (y - 1) % k;
    if r == k - 1 {
      DivUnique(y, k, q + 1, 0);
    } else {
      DivUnique(y, k, q, r + 1);
    }
  }

  lemma DaysBeforeYearStep(y: int)
    requires y >= 1
    ensures DaysBeforeYear(y + 1) == DaysBeforeYear(y) + 365 + (if IsLeap(y) then 1 else 0)
  {
    DivStep(y, 4);
    DivStep(y, 100);
    DivStep(y, 400);
    if y % 100 == 0 {
      DivUnique(y, 4, 25 * (y / 100), 0);
    }
    if y % 400 == 0 {
      DivUnique(y, 100, 4 * (y / 400), 0);
    }
  }

  /** The day after `d` has the next day number. */
  lemma {:induction false} OrdinalNextDay(d: Date)
    requires Valid(d) && d != Date(MaxYear, 12, 31)
    ensures Ordinal(NextDay(d)) == Ordinal(d) + 1
  {
    if d.day == DaysInMonth(d.year, d.month) && d.month == 12 {
      DaysBeforeYearStep(d.year);
    }
  }

  /** Weekday names advance by one each day, wrapping from Sunday to Monday. */
  lemma WeekdayNextDay(d: Date)
    requires Valid(d) && d != Date(MaxYear, 12, 31)
    ensures Weekday(NextDay(d)) == (Weekday(d) + 1) % 7
  {
    OrdinalNextDay(d);
    var o := Ordinal(d);
    ModSevenStep(o + 6);
  }

  lemma ModSevenStep(x: int)
    ensures (x + 1) % 7 == (x % 7 + 1) % 7
  {
  }

  // ---------------------------------------------------------------------------------------
  // Text forms

  function Pad2(n: int): (s: string)
    requires 0 <= n < 100
    ensures |s| == 2 && IsDigit(s[0]) && IsDigit(s[1])
    ensures 10 * DigitValue(s[0]) + DigitValue(s[1]) == n
  {
    [DigitChar(n / 10), DigitChar(n % 10)]
  }

  function Pad4(n: int): (s: string)
    requires 0 <= n < 10000
    ensures |s| == 4 && forall i :: 0 <= i < 4 ==> IsDigit(s[i])
  {
    [DigitChar(n / 1000), DigitChar(n / 100 % 10), DigitChar(n / 10 % 10), DigitChar(n % 10)]
  }

  /** `d.isoformat()`: `YYYY-MM-DD`. */
  function IsoFormat(d: Date): (s: string)
    requires Valid(d)
    ensures |s| == 10 && s[4] == '-' && s[7] == '-'
  {
    Pad4(d.year) + "-" + Pad2(d.month) + "-" + Pad2(d.day)
  }

  /** The value of four decimal digits (`%Y` accepts exactly four). */
  function YearValue(t: string): int
    requires |t| == 4 && forall i :: 0 <= i < 4 ==> IsDigit(t[i])
  {
    1000 * DigitValue(t[0]) + 100 * DigitValue(t[1]) + 10 * DigitValue(t[2]) + DigitValue(t[3])
  }

  /** The `%m` directive: `1[0-2]`, `0[1-9]` or `[1-9]`. */
  function MonthToken(t: string): Option<int> {
    if |t| == 2 && t[0] == '1' && '0' <= t[1] <= '2' then Some(10 + DigitValue(t[1]))
    else if |t| == 2 && t[0] == '0' && '1' <= t[1] <= '9' then Some(DigitValue(t[1]))
    else if |t| == 1 && '1' <= t[0] <= '9' then Some(DigitValue(t[0]))
    else None
  }

  /** The `%d` directive: `3[01]`, `[12]\d`, `0[1-9]`, `[1-9]` or a space then `[1-9]`. Since
      the directive ends the format, the day is the whole rest of the string: any text left
      over makes strptime raise ValueError. */
  function DayToken(t: string): Option<int> {
    if |t| == 2 && t[0] == '3' && (t[1] == '0' || t[1] == '1') then Some(30 + DigitValue(t[1]))
    else if |t| == 2 && (t[0] == '1' || t[0] == '2') && IsDigit(t[1]) then Some(10 * DigitValue(t[0]) + DigitValue(t[1]))
    else if |t| == 2 && t[0] == '0' && '1' <= t[1] <= '9' then Some(DigitValue(t[1]))
    else if |t| == 1 && '1' <= t[0] <= '9' then Some(DigitValue(t[0]))
    else if |t| == 2 && t[0] == ' ' && '1' <= t[1] <= '9' then Some(DigitValue(t[1]))
    else None
  }

  function Assemble(y: int, m: int, day: Option<int>): (r: Option<Date>)
    ensures r.Some? ==> Valid(r.value)
  {
    match day
    case None => None
    case Some(dd) => if Valid(Date(y, m, dd)) then Some(Date(y, m, dd)) else None
  }

  /** `datetime.strptime(s, "%Y-%m-%d").date()`, None where it raises ValueError. The month
      is one or two characters; only one of the two lengths can be followed by the `-`. */
  function ParseDate(s: string): (r: Option<Date>)
    ensures r.Some? ==> Valid(r.value)
  {
    if |s| < 4 || !(IsDigit(s[0]) && IsDigit(s[1]) && IsDigit(s[2]) && IsDigit(s[3])) then None
    else
      var y := YearValue(s[..4]);
      if |s| >= 8 && s[4] == '-' && MonthToken(s[5..7]).Some? && s[7] == '-' then
        Assemble(y, MonthToken(s[5..7]).value, DayToken(s[8..]))
      else if |s| >= 7 && s[4] == '-' && MonthToken(s[5..6]).Some? && s[6] == '-' then
        Assemble(y, MonthToken(s[5..6]).value, DayToken(s[7..]))
      else None
  }

  lemma MonthTokenOfPad2(m: int)
    requires 1 <= m <= 12
    ensures MonthToken(Pad2(m)) == Some(m)
  {
  }

  lemma YearValueOfPad4(y: int)
    requires 0 <= y < 10000
    ensures YearValue(Pad4(y)) == y
  {
    var q1, q2, q3 := y / 10, y / 100, y / 1000;
    assert y == 10 * q1 + y % 10;
    assert q1 == 10 * q2 + q1 % 10;
    assert q2 == 10 * q3 + q2 % 10;
    var t := Pad4(y);
    assert DigitValue(t[0]) == q3 && DigitValue(t[1]) == q2 % 10;
    assert DigitValue(t[2]) == q1 % 10 && DigitValue(t[3]) == y % 10;
  }

  lemma DayTokenOfPad2(d: int)
    requires 1 <= d <= 31
    ensures DayToken(Pad2(d)) == Some(d)
  {
  }

  /** What `isoformat` writes, `strptime` reads back as the same date. */
  lemma ParseIsoFormat(d: Date)
    requires Valid(d)
    ensures ParseDate(IsoFormat(d)) == Some(d)
  {
    var s := IsoFormat(d);
    assert s[..4] == Pad4(d.year);
    YearValueOfPad4(d.year);
    assert s[5..7] == Pad2(d.month);
    assert s[8..] == Pad2(d.day);
    MonthTokenOfPad2(d.month);
    DayTokenOfPad2(d.day);
  }

  /** strptime's leniency: single-digit months and days are read, day 30 of February is not. */
  lemma ParseExamples()
    ensures ParseDate("2024-4-5") == Some(Date(2024, 4, 5))
    ensures ParseDate("2024-02-30") == None
    ensures ParseDate("2024-04-13T00:00:00") == None
  {
  }
}
