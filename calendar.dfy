/** Date arithmetic as JavaScript's `Date` performs it (the time-value
    algorithms of the ECMAScript language specification), in one fixed time
    zone, UTC, so that local and UTC accessors agree. Months are numbered
    from 0 (January) to 11 (December), as `getMonth` numbers them. */
module Calendar {

  /** Milliseconds since 1970-01-01T00:00:00. */
  type Instant = int

  /** Days since 1970-01-01. A stored date string "YYYY-MM-DD" is the
      day it names; `new Date("YYYY-MM-DD")` is `DayStart` of it. */
  type Day = int

  const MsPerDay: int := 86400000

  /** `Day(t)`: the day an instant falls on. */
  function DayOf(t: Instant): (d: Day)
    ensures DayStart(d) <= t < DayStart(d) + MsPerDay
  {
    t / 86400000
  }

  /** `TimeWithinDay(t)`: milliseconds since the start of that day. */
  function TimeWithinDay(t: Instant): (ms: int)
    ensures 0 <= ms < MsPerDay
    ensures DayStart(DayOf(t)) + ms == t
  {
    t % 86400000
  }

  /** Midnight at the start of day `d`. */
  function DayStart(d: Day): Instant
  {
    d * 86400000
  }

  /** `MakeDate(day, time)`. */
  function MakeDate(day: Day, time: int): (t: Instant)
    requires 0 <= time < MsPerDay
    ensures DayOf(t) == day && TimeWithinDay(t) == time
  {
    DayStart(day) + time
  }

  /** `getDay()`: 0 is Sunday, 1 is Monday, ..., 6 is Saturday;
      1970-01-01 was a Thursday. */
  function WeekDay(t: Instant): (w: int)
    ensures 0 <= w < 7
    ensures w == (DayOf(t) + 4) % 7
  {
    (DayOf(t) + 4) % 7
  }

  /** A day later is the next weekday, Saturday wrapping round to Sunday. */
  lemma WeekDayNext(t: Instant)
    ensures WeekDay(t + MsPerDay) == (WeekDay(t) + 1) % 7
  {
    assert t + MsPerDay == MakeDate(DayOf(t) + 1, TimeWithinDay(t));
  }

  predicate IsLeapYear(y: int)
  {
    y % 4 == 0 && (y % 100 != 0 || y % 400 == 0)
  }

  function DaysInYear(y: int): (n: int)
    ensures n == 365 || n == 366
    ensures n == 366 <==> IsLeapYear(y)
  {
    if IsLeapYear(y) then 366 else 365
  }

  /** `DayFromYear(y)`: the day on which year `y` begins, counted year by
      year from 1970 (DayFromYearFormula gives the closed form). */
  function DayFromYear(y: int): Day
    decreases if y >= 1970 then y - 1970 else 1970 - y
  {
    if y == 1970 then 0
    else if y > 1970 then DayFromYear(y - 1) + DaysInYear(y - 1)
    else DayFromYear(y + 1) - DaysInYear(y)
  }

  /** Each year begins where the previous one ends. */
  lemma DayFromYearNext(y: int)
    ensures DayFromYear(y + 1) == DayFromYear(y) + DaysInYear(y)
  {
  }

  /** The closed form of the ECMAScript specification:
      365 * (y - 1970) + floor((y - 1969) / 4) - floor((y - 1901) / 100)
      + floor((y - 1601) / 400). */
  lemma {:induction false} DayFromYearFormula(y: int)
    ensures DayFromYear(y) == 365 * (y - 1970) + (y - 1969) / 4 - (y - 1901) / 100 + (y - 1601) / 400
    decreases if y >= 1970 then y - 1970 else 1970 - y
  {
    if y > 1970 {
      DayFromYearFormula(y - 1);
      FormulaStep(y - 1);
    } else if y < 1970 {
      DayFromYearFormula(y + 1);
      FormulaStep(y);
    }
  }

  /** The closed form grows by the length of year `y` from `y` to `y + 1`. */
  lemma FormulaStep(y: int)
    ensures 365 * (y + 1 - 1970) + (y + 1 - 1969) / 4 - (y + 1 - 1901) / 100 + (y + 1 - 1601) / 400
         == 365 * (y - 1970) + (y - 1969) / 4 - (y - 1901) / 100 + (y - 1601) / 400 + DaysInYear(y)
  {
    FloorStep(y - 1969, 4);
    FloorStep(y - 1901, 100);
    FloorStep(y - 1601, 400);
    assert (y - 1968) % 4 == 0 <==> y % 4 == 0;
    assert (y - 1900) % 100 == 0 <==> y % 100 == 0;
    assert (y - 1600) % 400 == 0 <==> y % 400 == 0;
  }

  /** Flooring `x / k` steps up by one exactly when `x + 1` is a multiple of `k`. */
  lemma FloorStep(x: int, k: int)
    requires k == 4 || k == 100 || k == 400
    ensures (x + 1) / k == x / k + (if (x + 1) % k == 0 then 1 else 0)
  {
    var q, r := x / k, x % k;
    assert x == k * q + r && 0 <= r < k;
    if r == k - 1 {
      assert x + 1 == k * (q + 1) + 0;
    } else {
      assert x + 1 == k * q + (r + 1);
    }
  }

  /** Later years begin on later days. */
  lemma {:induction false} DayFromYearMonotone(a: int, b: int)
    requires a <= b
    ensures DayFromYear(a) + 365 * (b - a) <= DayFromYear(b)
    decreases b - a
  {
    if a < b {
      DayFromYearMonotone(a, b - 1);
      DayFromYearNext(b - 1);
    }
  }

  /** `YearFromTime` on days: the year whose span contains day `d`. */
  function YearFromDay(d: Day): (y: int)
    ensures DayFromYear(y) <= d < DayFromYear(y + 1)
  {
    YearSearch(d, 1970)
  }

  /** Walks year by year from `y` towards the year containing `d`. */
  function YearSearch(d: Day, y: int): (r: int)
    ensures DayFromYear(r) <= d < DayFromYear(r + 1)
    decreases if d < DayFromYear(y) then DayFromYear(y) - d
              else if d >= DayFromYear(y + 1) then d - DayFromYear(y + 1) + 1
              else 0
  {
    DayFromYearNext(y - 1);
    DayFromYearNext(y);
    DayFromYearNext(y + 1);
    if d < DayFromYear(y) then YearSearch(d, y - 1)
    else if d >= DayFromYear(y + 1) then YearSearch(d, y + 1)
    else y
  }

  /** The year containing a day is the only year whose span contains it. */
  lemma YearFromDayUnique(d: Day, y: int)
    requires DayFromYear(y) <= d < DayFromYear(y + 1)
    ensures YearFromDay(d) == y
  {
    var r := YearFromDay(d);
    if r < y {
      DayFromYearMonotone(r + 1, y);
    } else if y < r {
      DayFromYearMonotone(y + 1, r);
    }
  }

  function DaysInMonth(y: int, m: int): (n: int)
    requires 0 <= m < 12
    ensures 28 <= n <= 31
    ensures m == 1 ==> (n == 29 <==> IsLeapYear(y))
  {
    if m == 1 then (if IsLeapYear(y) then 29 else 28)
    else if m == 3 || m == 5 || m == 8 || m == 10 then 30
    else 31
  }

  /** Days of year `y` before the first of month `m` (`m` = 12: the whole year). */
  function DaysBeforeMonth(y: int, m: int): (n: int)
    requires 0 <= m <= 12
    ensures 0 <= n <= DaysInYear(y)
    ensures m == 12 ==> n == DaysInYear(y)
  {
    var leap := if m >= 2 && IsLeapYear(y) then 1 else 0;
    leap + match m
      case 0 => 0
      case 1 => 31
      case 2 => 59
      case 3 => 90
      case 4 => 120
      case 5 => 151
      case 6 => 181
      case 7 => 212
      case 8 => 243
      case 9 => 273
      case 10 => 304
      case 11 => 334
      case _ => 365
  }

  /** Each month begins where the previous one ends. */
  lemma DaysBeforeMonthNext(y: int, m: int)
    requires 0 <= m < 12
    ensures DaysBeforeMonth(y, m + 1) == DaysBeforeMonth(y, m) + DaysInMonth(y, m)
  {
  }

  /** `MonthFromTime` on days. */
  function MonthFromDay(d: Day): (m: int)
    ensures 0 <= m < 12
    ensures var y := YearFromDay(d);
            DaysBeforeMonth(y, m) <= d - DayFromYear(y) < DaysBeforeMonth(y, m + 1)
  {
    var y := YearFromDay(d);
    DayFromYearNext(y);
    MonthSearch(y, d - DayFromYear(y), 0)
  }

  /** The first month from `m` on that ends after day `doy` of year `y`. */
  function MonthSearch(y: int, doy: int, m: int): (r: int)
    requires 0 <= m < 12
    requires DaysBeforeMonth(y, m) <= doy < DaysInYear(y)
    ensures m <= r < 12
    ensures DaysBeforeMonth(y, r) <= doy < DaysBeforeMonth(y, r + 1)
    decreases 12 - m
  {
    if doy < DaysBeforeMonth(y, m + 1) then m else MonthSearch(y, doy, m + 1)
  }

  /** `DateFromTime` on days: the day of the month, from 1. */
  function DateFromDay(d: Day): (date: int)
    ensures 1 <= date <= DaysInMonth(YearFromDay(d), MonthFromDay(d))
  {
    var y := YearFromDay(d);
    var m := MonthFromDay(d);
    DaysBeforeMonthNext(y, m);
    d - DayFromYear(y) - DaysBeforeMonth(y, m) + 1
  }

  /** `MakeDay(year, month, date)`: a month outside 0..11 moves into the
      neighbouring years and a date outside the month runs on into the
      neighbouring months, as JavaScript normalises them. */
  function MakeDay(year: int, month: int, date: int): (d: Day)
    ensures 0 <= month < 12 ==> d == DayFromYear(year) + DaysBeforeMonth(year, month) + date - 1
  {
    assert 0 <= month < 12 ==> month / 12 == 0 && month % 12 == month;
    var ym := year + month / 12;
    var mn := month % 12;
    DayFromYear(ym) + DaysBeforeMonth(ym, mn) + date - 1
  }

  /** Splitting a day into year, month and date and rebuilding it gives it back. */
  lemma MakeDayOfParts(d: Day)
    ensures MakeDay(YearFromDay(d), MonthFromDay(d), DateFromDay(d)) == d
  {
  }

  /** A calendar date within its month is split back into the same parts. */
  lemma PartsOfMakeDay(y: int, m: int, date: int)
    requires 0 <= m < 12 && 1 <= date <= DaysInMonth(y, m)
    ensures YearFromDay(MakeDay(y, m, date)) == y
    ensures MonthFromDay(MakeDay(y, m, date)) == m
    ensures DateFromDay(MakeDay(y, m, date)) == date
  {
    var doy := DaysBeforeMonth(y, m) + date - 1;
    DaysBeforeMonthNext(y, m);
    YearOfDayInYear(y, doy);
    PartsOfDayInYear(MakeDay(y, m, date), y, m, doy);
  }

  /** A day of a known year that falls in month `m` has month `m` and the
      matching date. */
  lemma PartsOfDayInYear(d: Day, y: int, m: int, doy: int)
    requires 0 <= m < 12 && d == DayFromYear(y) + doy && YearFromDay(d) == y
    requires DaysBeforeMonth(y, m) <= doy < DaysBeforeMonth(y, m + 1)
    ensures MonthFromDay(d) == m
    ensures DateFromDay(d) == doy - DaysBeforeMonth(y, m) + 1
  {
    MonthOfDayInYear(y, m, doy, MonthFromDay(d));
  }

  lemma YearOfDayInYear(y: int, doy: int)
    requires 0 <= doy < DaysInYear(y)
    ensures YearFromDay(DayFromYear(y) + doy) == y
  {
    DayFromYearNext(y);
    YearFromDayUnique(DayFromYear(y) + doy, y);
  }

  /** Only one month of a year contains a given day of that year. */
  lemma MonthOfDayInYear(y: int, m: int, doy: int, r: int)
    requires 0 <= m < 12 && 0 <= r < 12
    requires DaysBeforeMonth(y, m) <= doy < DaysBeforeMonth(y, m + 1)
    requires DaysBeforeMonth(y, r) <= doy < DaysBeforeMonth(y, r + 1)
    ensures r == m
  {
    if r < m {
      DaysBeforeMonthMonotone(y, r + 1, m);
    } else if m < r {
      DaysBeforeMonthMonotone(y, m + 1, r);
    }
  }

  lemma DaysBeforeMonthMonotone(y: int, a: int, b: int)
    requires 0 <= a <= b <= 12
    ensures DaysBeforeMonth(y, a) <= DaysBeforeMonth(y, b)
  {
  }

  function YearFromTime(t: Instant): int { YearFromDay(DayOf(t)) }

  /** `getMonth()`. */
  function MonthFromTime(t: Instant): (m: int)
    ensures 0 <= m < 12
  {
    MonthFromDay(DayOf(t))
  }

  /** `getDate()`. */
  function DateFromTime(t: Instant): (date: int)
    ensures 1 <= date <= 31
  {
    DateFromDay(DayOf(t))
  }

  /** `new Date(t).setMonth(month)`: same date and time of day, other month. */
  function SetMonth(t: Instant, month: int): (r: Instant)
    ensures 0 <= month < 12 && DateFromTime(t) <= DaysInMonth(YearFromTime(t), month) ==>
              YearFromTime(r) == YearFromTime(t) && MonthFromTime(r) == month &&
              DateFromTime(r) == DateFromTime(t) && TimeWithinDay(r) == TimeWithinDay(t)
  {
    var r := MakeDate(MakeDay(YearFromTime(t), month, DateFromTime(t)), TimeWithinDay(t));
    if 0 <= month < 12 && DateFromTime(t) <= DaysInMonth(YearFromTime(t), month) then
      PartsOfMakeDay(YearFromTime(t), month, DateFromTime(t));
      r
    else r
  }

  /** `new Date(t).setDate(date)`: same month and time of day, other date. */
  function SetDate(t: Instant, date: int): (r: Instant)
    ensures r == t + (date - DateFromTime(t)) * MsPerDay
  {
    MakeDayOfParts(DayOf(t));
    MakeDate(MakeDay(YearFromTime(t), MonthFromTime(t), date), TimeWithinDay(t))
  }

  /** `new Date(t).setHours(0, 0, 0, 0)`. */
  function StartOfDay(t: Instant): (s: Instant)
    ensures s <= t < s + MsPerDay
    ensures DayOf(s) == DayOf(t) && TimeWithinDay(s) == 0
  {
    MakeDate(DayOf(t), 0)
  }

  /** An instant between two midnights falls on the day the first one starts. */
  lemma DayOfWithin(t: Instant, d: Day)
    requires DayStart(d) <= t < DayStart(d + 1)
    ensures DayOf(t) == d
  {
  }

  /** Midnight of the day `k` days before the day of `t`. */
  lemma DaysBackStart(t: Instant, k: int)
    ensures StartOfDay(t - k * MsPerDay) == DayStart(DayOf(t) - k)
    ensures DayOf(t - k * MsPerDay) == DayOf(t) - k
  {
    var d := DayOf(t);
    assert t - k * MsPerDay == DayStart(d - k) + TimeWithinDay(t);
  }

  /** The month before the month of `t`, as a (year, month) pair. */
  function PreviousMonth(t: Instant): (ym: (int, int))
    ensures 0 <= ym.1 < 12
  {
    var y, m := YearFromTime(t), MonthFromTime(t);
    if m == 0 then (y - 1, 11) else (y, m - 1)
  }

  /** `oneMonthAgo.setMonth(now.getMonth() - 1)` on a copy of `now`. It is
      exactly as many days back as the previous month has: between 28 and 31
      days. On 31 March this lands in early March, as `setMonth` lets
      31 February run on into March. */
  function OneMonthAgo(now: Instant): (r: Instant)
    ensures now - r == DaysInMonth(PreviousMonth(now).0, PreviousMonth(now).1) * MsPerDay
    ensures now - 31 * MsPerDay <= r <= now - 28 * MsPerDay
  {
    var back := DaysInMonth(PreviousMonth(now).0, PreviousMonth(now).1);
    MonthBackFrom(now, back);
    DaysBack(now, back, SetMonth(now, MonthFromTime(now) - 1));
    SetMonth(now, MonthFromTime(now) - 1)
  }

  lemma MonthBackFrom(now: Instant, back: int)
    requires back == DaysInMonth(PreviousMonth(now).0, PreviousMonth(now).1)
    ensures MakeDay(YearFromTime(now), MonthFromTime(now) - 1, DateFromTime(now)) == DayOf(now) - back
  {
    var d := DayOf(now);
    MakeDayOfParts(d);
    MonthBackBy(YearFromDay(d), MonthFromDay(d), DateFromDay(d), d, back);
  }

  /** The same time of day `back` days earlier. */
  lemma DaysBack(now: Instant, back: int, earlier: Instant)
    requires 28 <= back <= 31
    requires earlier == MakeDate(DayOf(now) - back, TimeWithinDay(now))
    ensures now - earlier == back * MsPerDay
    ensures now - 31 * MsPerDay <= earlier <= now - 28 * MsPerDay
  {
  }

  lemma MonthBackBy(y: int, m: int, date: int, d: Day, back: int)
    requires 0 <= m < 12
    requires MakeDay(y, m, date) == d
    requires back == if m == 0 then DaysInMonth(y - 1, 11) else DaysInMonth(y, m - 1)
    ensures MakeDay(y, m - 1, date) == d - back
  {
    MakeDayMonthBack(y, m, date);
  }

  /** Rebuilding a date one month earlier moves back by the length of that
      earlier month. */
  lemma MakeDayMonthBack(y: int, m: int, date: int)
    requires 0 <= m < 12
    ensures m == 0 ==> MakeDay(y, m - 1, date) == MakeDay(y, m, date) - DaysInMonth(y - 1, 11)
    ensures m > 0 ==> MakeDay(y, m - 1, date) == MakeDay(y, m, date) - DaysInMonth(y, m - 1)
  {
    if m == 0 {
      assert (m - 1) / 12 == -1 && (m - 1) % 12 == 11;
      DayFromYearNext(y - 1);
      DaysBeforeMonthNext(y - 1, 11);
    } else {
      DaysBeforeMonthNext(y, m - 1);
    }
  }

  /** For instance, one month before 31 March is 3 March (2 March in a leap
      year), at the same time of day. */
  lemma OneMonthBeforeMarch31(y: int, time: int)
    requires 0 <= time < MsPerDay
    ensures OneMonthAgo(MakeDate(MakeDay(y, 2, 31), time))
         == MakeDate(MakeDay(y, 2, if IsLeapYear(y) then 2 else 3), time)
  {
    var now := MakeDate(MakeDay(y, 2, 31), time);
    PartsOfMakeDay(y, 2, 31);
  }
}
