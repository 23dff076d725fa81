/** The part of JavaScript's `Date` that the customer model relies on: the
    local calendar date (year, month, day of month) of a `Date` built with
    `new Date(year, monthIndex, day)`, including the way that constructor
    normalises out-of-range months and days and maps two-digit years onto the
    1900s. Days are counted from 1 January 1970 in the proleptic Gregorian
    calendar, as ECMAScript's MakeDay does. */
module JsDate {

  /** A calendar date as `getFullYear()`, `getMonth() + 1` and `getDate()`
      report it. The month is 1-based here; every comparison the model makes
      is a difference of months, so the shift changes nothing. */
  datatype CalendarDate = CalendarDate(year: int, month: int, day: int)

  predicate IsLeapYear(y: int) {
    y % 4 == 0 && (y % 100 != 0 || y % 400 == 0)
  }

  function DaysInYear(y: int): int {
    if IsLeapYear(y) then 366 else 365
  }

  function DaysInMonth(y: int, m: int): (n: int)
    requires 1 <= m <= 12
    ensures 28 <= n <= 31
  {
    if m == 2 then (if IsLeapYear(y) then 29 else 28)
    else if m == 4 || m == 6 || m == 9 || m == 11 then 30
    else 31
  }

  /** Days in the months of year `y` that come before month `m`. */
  function DaysBeforeMonth(y: int, m: int): int
    requires 1 <= m <= 12
  {
    [0, 31, 59, 90, 120, 151, 181, 212, 243, 273, 304, 334][m - 1]
    + (if m > 2 && IsLeapYear(y) then 1 else 0)
  }

  /** Days from 1 January 1970 to 1 January of year `y` (negative before 1970). */
  function DayFromYear(y: int): int
    decreases if y >= 1970 then y - 1970 else 1970 - y
  {
    if y == 1970 then 0
    else if y > 1970 then DayFromYear(y - 1) + DaysInYear(y - 1)
    else DayFromYear(y + 1) - DaysInYear(y)
  }

  predicate Valid(d: CalendarDate) {
    1 <= d.month <= 12 && 1 <= d.day <= DaysInMonth(d.year, d.month)
  }

  /** The day number of a date counted from 1 January 1970; for a month in
      range it is defined for any day, so it also gives the meaning of an
      out-of-range day of month. */
  function DayNumber(d: CalendarDate): int
    requires 1 <= d.month <= 12
  {
    DayFromYear(d.year) + DaysBeforeMonth(d.year, d.month) + d.day - 1
  }

  /** Lexicographic order of (year, month, day): `a` is strictly earlier than `b`. */
  predicate Before(a: CalendarDate, b: CalendarDate) {
    a.year < b.year
    || (a.year == b.year && (a.month < b.month || (a.month == b.month && a.day < b.day)))
  }

  /** The first day of the month after (y, m) starts DaysInMonth(y, m) days later. */
  lemma NextMonthStart(y: int, m: int)
    requires 1 <= m <= 12
    ensures m < 12 ==> DayNumber(CalendarDate(y, m + 1, 1)) == DayNumber(CalendarDate(y, m, 1)) + DaysInMonth(y, m)
    ensures m == 12 ==> DayNumber(CalendarDate(y + 1, 1, 1)) == DayNumber(CalendarDate(y, 12, 1)) + 31
  {
    if m == 12 {
      assert DayFromYear(y + 1) == DayFromYear(y) + DaysInYear(y);
    }
  }

  /** Moves a day of month that lies past the end of month (y, m) into the
      following months, one month at a time. */
  function RollForward(y: int, m: int, d: int): (r: CalendarDate)
    requires 1 <= m <= 12 && d >= 1
    ensures Valid(r)
    decreases d
  {
    if d <= DaysInMonth(y, m) then CalendarDate(y, m, d)
    else if m == 12 then RollForward(y + 1, 1, d - 31)
    else RollForward(y, m + 1, d - DaysInMonth(y, m))
  }

  /** Rolling forward keeps the day number: day `d` of month (y, m), counted
      past the month's end, is the date it lands on. */
  lemma {:induction false} RollForwardDayNumber(y: int, m: int, d: int)
    requires 1 <= m <= 12 && d >= 1
    ensures DayNumber(RollForward(y, m, d)) == DayNumber(CalendarDate(y, m, 1)) + d - 1
    decreases d
  {
    if d > DaysInMonth(y, m) {
      NextMonthStart(y, m);
      if m == 12 {
        RollForwardDayNumber(y + 1, 1, d - 31);
      } else {
        RollForwardDayNumber(y, m + 1, d - DaysInMonth(y, m));
      }
    }
  }

  /** Moves a day of month that lies before the start of month (y, m) (day 0
      or less) into the preceding months, one month at a time. */
  function RollBack(y: int, m: int, d: int): (r: CalendarDate)
    requires 1 <= m <= 12 && d <= 0
    ensures Valid(r)
    decreases -d
  {
    var py := if m == 1 then y - 1 else y;
    var pm := if m == 1 then 12 else m - 1;
    var e := d + DaysInMonth(py, pm);
    if e >= 1 then CalendarDate(py, pm, e) else RollBack(py, pm, e)
  }

  /** Rolling back keeps the day number: day `d` <= 0 of month (y, m) is the
      date it lands on in an earlier month. */
  lemma {:induction false} RollBackDayNumber(y: int, m: int, d: int)
    requires 1 <= m <= 12 && d <= 0
    ensures DayNumber(RollBack(y, m, d)) == DayNumber(CalendarDate(y, m, 1)) + d - 1
    decreases -d
  {
    var py := if m == 1 then y - 1 else y;
    var pm := if m == 1 then 12 else m - 1;
    NextMonthStart(py, pm);
    var e := d + DaysInMonth(py, pm);
    if e < 1 {
      RollBackDayNumber(py, pm, e);
    }
  }

  /** The year `new Date(year, …)` actually uses: 0..99 stand for 1900..1999. */
  function FullYear(year: int): int {
    if 0 <= year <= 99 then 1900 + year else year
  }

  /** The calendar date of `new Date(year, monthIndex, day)`: the month index
      is 0-based and may lie outside 0..11 (it carries into the year), and the
      day may lie outside the month (it carries into neighbouring months).
      The result is always a real calendar date. */
  function MakeDate(year: int, monthIndex: int, day: int): (r: CalendarDate)
    ensures Valid(r)
  {
    var y := FullYear(year) + monthIndex / 12;
    var m := monthIndex % 12 + 1;
    if day >= 1 then RollForward(y, m, day) else RollBack(y, m, day)
  }

  /** MakeDate agrees with ECMAScript's MakeDay: its date lies `day - 1` days
      after the first of the (normalised) month. */
  lemma MakeDateDayNumber(year: int, monthIndex: int, day: int)
    ensures DayNumber(MakeDate(year, monthIndex, day))
         == DayNumber(CalendarDate(FullYear(year) + monthIndex / 12, monthIndex % 12 + 1, 1)) + day - 1
  {
    var y := FullYear(year) + monthIndex / 12;
    var m := monthIndex % 12 + 1;
    if day >= 1 {
      RollForwardDayNumber(y, m, day);
    } else {
      RollBackDayNumber(y, m, day);
    }
  }

  /** Later years start later: the whole of year y1 lies before year y2. */
  lemma {:induction false} DayFromYearGrows(y1: int, y2: int)
    requires y1 < y2
    ensures DayFromYear(y1) + DaysInYear(y1) <= DayFromYear(y2)
    decreases y2 - y1
  {
    YearStep(y2 - 1);
    if y1 < y2 - 1 {
      DayFromYearGrows(y1, y2 - 1);
    }
  }

  lemma YearStep(y: int)
    ensures DayFromYear(y + 1) == DayFromYear(y) + DaysInYear(y)
  {
  }

  /** A valid date of year y falls inside that year's block of day numbers. */
  lemma DayNumberWithinYear(d: CalendarDate)
    requires Valid(d)
    ensures DayFromYear(d.year) <= DayNumber(d) < DayFromYear(d.year) + DaysInYear(d.year)
  {
  }

  /** Day numbers follow calendar order on valid dates. */
  lemma DayNumberMonotone(a: CalendarDate, b: CalendarDate)
    requires Valid(a) && Valid(b) && Before(a, b)
    ensures DayNumber(a) < DayNumber(b)
  {
    DayNumberWithinYear(a);
    DayNumberWithinYear(b);
    if a.year < b.year {
      DayFromYearGrows(a.year, b.year);
    }
  }

  /** Two valid dates with the same day number are the same date. */
  lemma DayNumberInjective(a: CalendarDate, b: CalendarDate)
    requires Valid(a) && Valid(b) && DayNumber(a) == DayNumber(b)
    ensures a == b
  {
    if Before(a, b) {
      DayNumberMonotone(a, b);
    } else if Before(b, a) {
      DayNumberMonotone(b, a);
    }
  }

  /** `new Date(year, monthIndex, day)` denotes exactly one calendar date: any
      valid date with the day number MakeDay gives is the one MakeDate returns. */
  lemma MakeDateUnique(year: int, monthIndex: int, day: int, d: CalendarDate)
    requires Valid(d)
    requires DayNumber(d)
          == DayNumber(CalendarDate(FullYear(year) + monthIndex / 12, monthIndex % 12 + 1, 1)) + day - 1
    ensures MakeDate(year, monthIndex, day) == d
  {
    MakeDateDayNumber(year, monthIndex, day);
    DayNumberInjective(MakeDate(year, monthIndex, day), d);
  }

  /** A date already in range is kept as it is (apart from the 1900 offset of
      two-digit years). */
  lemma MakeDateKeepsValidDate(year: int, monthIndex: int, day: int)
    requires 0 <= monthIndex < 12
    requires Valid(CalendarDate(FullYear(year), monthIndex + 1, day))
    ensures MakeDate(year, monthIndex, day) == CalendarDate(FullYear(year), monthIndex + 1, day)
  {
  }

  /** 31 February 1990 is 3 March 1990; day 0 of January 2000 is 31 December
      1999; month index -1 (a month field "00") is December of the year before. */
  lemma MakeDateRollsOver()
    ensures MakeDate(1990, 1, 31) == CalendarDate(1990, 3, 3)
    ensures MakeDate(2000, 0, 0) == CalendarDate(1999, 12, 31)
    ensures MakeDate(2000, -1, 15) == CalendarDate(1999, 12, 15)
    ensures MakeDate(85, 5, 10) == CalendarDate(1985, 6, 10)
  {
  }
}
