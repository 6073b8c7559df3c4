/**
 Dates of the proleptic Gregorian calendar in UTC: time.Date, Time.Date and Time.AddDate.
 Days are counted from 0001-01-01.
 */
module Civil {
  import opened Domain

  /** The length of k days. */
  function Days(k: int): Duration {
    k * 86_400_000_000_000
  }

  /** The day number of an instant. */
  function DayOf(t: Time): int {
    t / 86_400_000_000_000
  }

  function TimeOfDay(t: Time): Duration {
    t % 86_400_000_000_000
  }

  predicate Leap(y: int) {
    y % 4 == 0 && (y % 100 != 0 || y % 400 == 0)
  }

  function DaysInYear(y: int): int {
    if Leap(y) then 366 else 365
  }

  /** The day number of January 1 of year y. */
  function YearStart(y: int): int
    decreases if y >= 1 then y else 2 - y
  {
    if y == 1 then 0
    else if y > 1 then YearStart(y - 1) + DaysInYear(y - 1)
    else YearStart(y + 1) - DaysInYear(y)
  }

  function DaysBefore(m: int): int
    requires 1 <= m <= 13
  {
    [0, 31, 59, 90, 120, 151, 181, 212, 243, 273, 304, 334, 365][m - 1]
  }

  /** The day number of the first day of month m; month 13 is January of the next year. */
  function MonthStart(y: int, m: int): int
    requires 1 <= m <= 13
  {
    YearStart(y) + DaysBefore(m) + (if m > 2 && Leap(y) then 1 else 0)
  }

  /** time.Date at midnight: months outside 1..12 and any day number are normalized. */
  function DayNumber(y: int, m: int, d: int): int {
    MonthStart(y + (m - 1) / 12, (m - 1) % 12 + 1) + d - 1
  }

  datatype Date = Date(year: int, month: int, day: int)

  predicate ValidDate(c: Date) {
    1 <= c.month <= 12 && 1 <= c.day <= MonthStart(c.year, c.month + 1) - MonthStart(c.year, c.month)
  }

  lemma YearLength(y: int)
    ensures YearStart(y + 1) == YearStart(y) + DaysInYear(y)
    ensures MonthStart(y, 13) == YearStart(y + 1) && MonthStart(y, 1) == YearStart(y)
  {
  }

  lemma {:induction false} YearsApart(y: int, y': int)
    requires y <= y'
    ensures YearStart(y') >= YearStart(y) + 365 * (y' - y)
    decreases y' - y
  {
    if y < y' {
      YearsApart(y, y' - 1);
      YearLength(y' - 1);
    }
  }

  lemma InMonth(y: int, m: int, d: int)
    requires 1 <= m <= 12
    ensures DayNumber(y, m, d) == MonthStart(y, m) + d - 1
  {
  }

  lemma {:induction false} FindYear(n: int, y: int) returns (r: int)
    requires YearStart(y) <= n
    ensures YearStart(r) <= n < YearStart(r + 1)
    decreases n - YearStart(y)
  {
    YearLength(y);
    if n < YearStart(y + 1) { return y; }
    r := FindYear(n, y + 1);
  }

  lemma {:induction false} FindMonth(y: int, n: int, m: int) returns (r: int)
    requires 1 <= m <= 12 && MonthStart(y, m) <= n < YearStart(y + 1)
    ensures 1 <= r <= 12 && MonthStart(y, r) <= n < MonthStart(y, r + 1)
    decreases 12 - m
  {
    YearLength(y);
    if n < MonthStart(y, m + 1) { return m; }
    r := FindMonth(y, n, m + 1);
  }

  /** Some year starts no later than day n. */
  function EarlyYear(n: int): int {
    if n >= 0 then 1 else n
  }

  lemma EarlyYearIsEarly(n: int)
    ensures YearStart(EarlyYear(n)) <= n
  {
    if n < 0 { YearsApart(n, 1); }
  }

  ghost predicate Dates(c: Date, n: int) {
    ValidDate(c) && DayNumber(c.year, c.month, c.day) == n
  }

  lemma DateExists(n: int)
    ensures exists c :: Dates(c, n)
  {
    EarlyYearIsEarly(n);
    var y := FindYear(n, EarlyYear(n));
    YearLength(y);
    var m := FindMonth(y, n, 1);
    var c := Date(y, m, n - MonthStart(y, m) + 1);
    InMonth(c.year, c.month, c.day);
    assert Dates(c, n);
  }

  /** The date of a day number: what Time.Date answers, and the only one; see SameDay. */
  ghost function DateOf(n: int): (c: Date)
    ensures Dates(c, n)
  {
    DateExists(n);
    var c :| Dates(c, n); c
  }

  lemma MonthsApart(y: int, m: int, m': int)
    requires 1 <= m < m' <= 13
    ensures MonthStart(y, m') > MonthStart(y, m)
    ensures m' > m + 1 ==> MonthStart(y, m') >= MonthStart(y, m + 1)
  {
  }

  lemma SameDay(c: Date, r: Date)
    requires ValidDate(c) && ValidDate(r)
    requires DayNumber(c.year, c.month, c.day) == DayNumber(r.year, r.month, r.day)
    ensures c == r
  {
    SameYear(c, r);
    InMonth(c.year, c.month, c.day);
    InMonth(r.year, r.month, r.day);
    if r.month < c.month { MonthsApart(c.year, r.month, c.month); }
    if c.month < r.month { MonthsApart(c.year, c.month, r.month); }
  }

  lemma SameYear(c: Date, r: Date)
    requires ValidDate(c) && ValidDate(r)
    requires DayNumber(c.year, c.month, c.day) == DayNumber(r.year, r.month, r.day)
    ensures c.year == r.year
  {
    InYear(c);
    InYear(r);
    YearUnique(DayNumber(c.year, c.month, c.day), c.year, r.year);
  }

  lemma YearUnique(n: int, y: int, y': int)
    requires YearStart(y) <= n < YearStart(y + 1) && YearStart(y') <= n < YearStart(y' + 1)
    ensures y == y'
  {
    if y < y' {
      YearsApart(y + 1, y');
    } else if y' < y {
      YearsApart(y' + 1, y);
    }
  }

  /** A day has one date: DateOf and DayNumber are inverse on valid dates. */
  lemma DateOfDayNumber(c: Date)
    requires ValidDate(c)
    ensures DateOf(DayNumber(c.year, c.month, c.day)) == c
  {
    SameDay(c, DateOf(DayNumber(c.year, c.month, c.day)));
  }

  lemma InYear(c: Date)
    requires ValidDate(c)
    ensures YearStart(c.year) <= DayNumber(c.year, c.month, c.day) < YearStart(c.year + 1)
  {
    YearLength(c.year);
    InMonth(c.year, c.month, c.day);
    MonthsApart(c.year, c.month, 13);
    if 1 < c.month { MonthsApart(c.year, 1, c.month); }
  }

  /** Time.AddDate: shift the date, keep the time of day. */
  ghost function AddDate(t: Time, years: int, months: int, days: int): Time {
    var c := DateOf(DayOf(t));
    Days(DayNumber(c.year + years, c.month + months, c.day + days)) + TimeOfDay(t)
  }

  /** AddDate from any instant of a known date leads to the day d. */
  lemma AddDateFrom(t: Time, c: Date, years: int, months: int, days: int, d: int)
    requires ValidDate(c) && DayOf(t) == DayNumber(c.year, c.month, c.day)
    requires d == DayNumber(c.year + years, c.month + months, c.day + days)
    ensures AddDate(t, years, months, days) == Days(d) + TimeOfDay(t)
  {
    DateOfDayNumber(c);
  }

  lemma EarlierYear(c: Date, y: int)
    requires ValidDate(c) && y < c.year
    ensures DayNumber(y, c.month, c.day) < DayNumber(c.year, c.month, c.day)
  {
    YearsApart(y, c.year);
    InMonth(y, c.month, c.day);
    InMonth(c.year, c.month, c.day);
  }

  lemma EarlierDay(d: int, t: Time)
    requires d < DayOf(t)
    ensures Days(d) + TimeOfDay(t) < t
  {
  }

  /** The retention cutoff lies before the cycle's time: cleanup spares the future. */
  lemma CutoffBeforeNow(now: Time, years: int)
    requires years > 0
    ensures AddDate(now, -years, 0, 0) < now
  {
    var c := DateOf(DayOf(now));
    EarlierYear(c, c.year - years);
    EarlierDay(DayNumber(c.year - years, c.month, c.day), now);
  }

  lemma DayNumberShift(y: int, m: int, d: int, k: int)
    ensures DayNumber(y, m, d + k) == DayNumber(y, m, d) + k
  {
  }

  lemma AddDays(t: Time, k: int)
    ensures AddDate(t, 0, 0, k) == t + Days(k)
  {
    var c := DateOf(DayOf(t));
    DayNumberShift(c.year, c.month, c.day, k);
  }

  // ----- the Gregorian calendar, by its closed forms

  /** Years have 365 days, one more every fourth, but not every hundredth, yet every four hundredth. */
  lemma {:induction false} YearStartClosed(y: int)
    ensures YearStart(y) == 365 * (y - 1) + (y - 1) / 4 - (y - 1) / 100 + (y - 1) / 400
    decreases if y >= 1 then y else 2 - y
  {
    if y > 1 {
      YearStartClosed(y - 1);
      Quotients(y - 1);
    } else if y < 1 {
      YearStartClosed(y + 1);
      Quotients(y);
    }
  }

  /** How the quotients of the closed form grow from y - 1 to y. */
  lemma Quotients(y: int)
    ensures y / 4 == (y - 1) / 4 + (if y % 4 == 0 then 1 else 0)
    ensures y / 100 == (y - 1) / 100 + (if y % 100 == 0 then 1 else 0)
    ensures y / 400 == (y - 1) / 400 + (if y % 400 == 0 then 1 else 0)
    ensures y % 100 == 0 ==> y % 4 == 0
    ensures y % 400 == 0 ==> y % 100 == 0
  {
  }

  /** Months of 31 and 30 days alternate from March on in groups of five; January has 31, and February the rest. */
  lemma MonthStartClosed(y: int, m: int)
    requires 1 <= m <= 12
    ensures MonthStart(y, 1) == YearStart(y) && MonthStart(y, 2) == YearStart(y) + 31
    ensures 3 <= m ==> MonthStart(y, m) == YearStart(y + 1) - 306 + (153 * (m - 3) + 2) / 5
  {
    YearLength(y);
  }

  /** The day number of any date, from the quotients alone; the epoch of Unix is day 719162. */
  lemma DayNumberClosed(y: int, m: int, d: int)
    requires 3 <= m <= 12
    ensures DayNumber(y, m, d) == 365 * y + y / 4 - y / 100 + y / 400 - 306 + (153 * (m - 3) + 2) / 5 + d - 1
    ensures DayNumber(1970, 1, 1) == 719162
  {
    InMonth(y, m, d);
    MonthStartClosed(y, m);
    YearStartClosed(y + 1);
    InMonth(1970, 1, 1);
    MonthStartClosed(1970, 1);
    YearStartClosed(1970);
  }

  // ----- what AddDate means for dates

  /** A shift that leads to the day of a valid date leads to that date, at the same time of day. */
  lemma ShiftsTo(t: Time, c: Date, years: int, months: int, c': Date, d: int)
    requires ValidDate(c) && DayOf(t) == DayNumber(c.year, c.month, c.day)
    requires d == DayNumber(c.year + years, c.month + months, c.day)
    requires ValidDate(c') && d == DayNumber(c'.year, c'.month, c'.day)
    ensures var t' := AddDate(t, years, months, 0);
      TimeOfDay(t') == TimeOfDay(t) && DateOf(DayOf(t')) == c'
  {
    AddDateFrom(t, c, years, months, 0, d);
    LandsOn(d, TimeOfDay(t), c', AddDate(t, years, months, 0));
  }

  lemma LandsOn(d: int, time: Duration, c: Date, t: Time)
    requires t == Days(d) + time && 0 <= time < 24 * 60 * 60 * 1_000_000_000
    requires ValidDate(c) && d == DayNumber(c.year, c.month, c.day)
    ensures TimeOfDay(t) == time && DateOf(DayOf(t)) == c
  {
    Recompose(d, time);
    DateOfDayNumber(c);
  }

  lemma YearShift(c: Date, y: int, c': Date)
    requires ValidDate(c)
    requires c' == if c.month == 2 && c.day == 29 && !Leap(y) then Date(y, 3, 1) else Date(y, c.month, c.day)
    ensures ValidDate(c') && DayNumber(c'.year, c'.month, c'.day) == DayNumber(y, c.month, c.day)
  {
    InMonth(y, c.month, c.day);
    InMonth(y, c'.month, c'.day);
  }

  /** Adding years keeps month, day and time of day; February 29 becomes March 1 where there is none. */
  lemma AddYears(t: Time, c: Date, years: int)
    requires ValidDate(c) && DayOf(t) == DayNumber(c.year, c.month, c.day)
    ensures var t', y := AddDate(t, years, 0, 0), c.year + years;
      && TimeOfDay(t') == TimeOfDay(t)
      && DateOf(DayOf(t')) ==
           if c.month == 2 && c.day == 29 && !Leap(y) then Date(y, 3, 1) else Date(y, c.month, c.day)
  {
    var y := c.year + years;
    var c' := if c.month == 2 && c.day == 29 && !Leap(y) then Date(y, 3, 1) else Date(y, c.month, c.day);
    YearShift(c, y, c');
    ShiftsTo(t, c, years, 0, c', DayNumber(y, c.month, c.day));
  }

  /** Months outside 1..12 carry into the year. */
  lemma MonthShift(y: int, k: int, d: int)
    requires 1 <= d <= 28
    ensures ValidDate(Date(y + k / 12, k % 12 + 1, d))
    ensures DayNumber(y + k / 12, k % 12 + 1, d) == DayNumber(y, k + 1, d)
  {
    InMonth(y + k / 12, k % 12 + 1, d);
  }

  /** Adding months keeps days that every month has, and the time of day. */
  lemma AddMonths(t: Time, c: Date, months: int, k: int)
    requires ValidDate(c) && c.day <= 28 && DayOf(t) == DayNumber(c.year, c.month, c.day)
    requires k == c.month - 1 + months
    ensures var t' := AddDate(t, 0, months, 0);
      TimeOfDay(t') == TimeOfDay(t) && DateOf(DayOf(t')) == Date(c.year + k / 12, k % 12 + 1, c.day)
  {
    var c', d := Date(c.year + k / 12, k % 12 + 1, c.day), DayNumber(c.year, c.month + months, c.day);
    MonthShift(c.year, k, c.day);
    assert ValidDate(c') && d == DayNumber(c'.year, c'.month, c'.day);
    ShiftsTo(t, c, 0, months, c', d);
  }

  /** A day has 24 hours. */
  lemma Recompose(d: int, time: Duration)
    requires 0 <= time < 24 * 60 * 60 * 1_000_000_000
    ensures DayOf(Days(d) + time) == d && TimeOfDay(Days(d) + time) == time
    ensures Days(d) == d * (24 * 60 * 60 * 1_000_000_000)
  {
  }

  // ----- computing dates

  method ComputeDate(n: int) returns (c: Date)
    ensures c == DateOf(n)
  {
    EarlyYearIsEarly(n);
    var y := EarlyYear(n);
    while n >= YearStart(y + 1)
      invariant YearStart(y) <= n
      decreases n - YearStart(y)
    {
      YearLength(y);
      y := y + 1;
    }
    YearLength(y);
    var m := 1;
    while n >= MonthStart(y, m + 1)
      invariant 1 <= m <= 12 && MonthStart(y, m) <= n < YearStart(y + 1)
      decreases 12 - m
    {
      m := m + 1;
    }
    c := Date(y, m, n - MonthStart(y, m) + 1);
    InMonth(c.year, c.month, c.day);
    SameDay(c, DateOf(n));
  }

  method ComputeAddDate(t: Time, years: int, months: int, days: int) returns (r: Time)
    ensures r == AddDate(t, years, months, days)
  {
    var c := ComputeDate(DayOf(t));
    r := Days(DayNumber(c.year + years, c.month + months, c.day + days)) + TimeOfDay(t);
  }

  /** The cutoff of a cycle. */
  method ComputeCutoff(now: Time, years: int) returns (cutoff: Time)
    requires years > 0
    ensures cutoff == AddDate(now, -years, 0, 0) && cutoff < now
  {
    cutoff := ComputeAddDate(now, -years, 0, 0);
    CutoffBeforeNow(now, years);
  }
}
