/**
 The proleptic Gregorian calendar that std::chrono::year_month_day supplies: the date of a day
 counted from 1970-01-01, checked against a calendar that only knows the next day.
 */
module Calendar {
  datatype Date = Date(year: int, month: int, day: int)

  predicate IsLeap(year: int) {
    year % 4 == 0 && (year % 100 != 0 || year % 400 == 0)
  }

  function DaysInMonth(year: int, month: int): int {
    if month == 2 then (if IsLeap(year) then 29 else 28)
    else if month == 4 || month == 6 || month == 9 || month == 11 then 30
    else 31
  }

  predicate IsDate(d: Date) {
    1 <= d.month <= 12 && 1 <= d.day <= DaysInMonth(d.year, d.month)
  }

  /** The day after. */
  function Next(d: Date): (n: Date)
    requires IsDate(d)
    ensures IsDate(n)
  {
    if d.day < DaysInMonth(d.year, d.month) then Date(d.year, d.month, d.day + 1)
    else if d.month < 12 then Date(d.year, d.month + 1, 1)
    else Date(d.year + 1, 1, 1)
  }

  // Years are counted from March, so that a leap day is the last day of its year.

  /** Days from 0000-03-01 to the first of March of `year`. */
  function DaysBeforeYear(year: int): int {
    365 * year + year / 4 - year / 100 + year / 400
  }

  /** Days from the first of March to the first of month `m`, March being 0. */
  function DaysBeforeMonth(m: int): int {
    (153 * m + 2) / 5
  }

  const EPOCH := 719468  // days from 0000-03-01 to 1970-01-01

  function MarchYear(d: Date): int {
    if d.month <= 2 then d.year - 1 else d.year
  }

  function MarchMonth(d: Date): int {
    if d.month <= 2 then d.month + 9 else d.month - 3
  }

  /** The days-from-civil formula. */
  function DaysFromCivil(d: Date): int {
    DaysBeforeYear(MarchYear(d)) + DaysBeforeMonth(MarchMonth(d)) + d.day - 1 - EPOCH
  }

  function Min(a: int, b: int): int {
    if a < b then a else b
  }

  /** The date of day `n`: 400-year eras, then centuries, then four-year cycles, then years. */
  function CivilFromDays(n: int): Date {
    var z := n + EPOCH;
    var era, dayOfEra := z / 146097, z % 146097;
    var century := Min(dayOfEra / 36524, 3);
    var dayOfCentury := dayOfEra - 36524 * century;
    var cycle, dayOfCycle := dayOfCentury / 1461, dayOfCentury % 1461;
    var yearOfCycle := Min(dayOfCycle / 365, 3);
    FromMarch(400 * era + 100 * century + 4 * cycle + yearOfCycle, dayOfCycle - 365 * yearOfCycle)
  }

  /** Day `dayOfYear`, from 0, of the year that starts in March of `year`. */
  function FromMarch(year: int, dayOfYear: int): Date {
    var m := (5 * dayOfYear + 2) / 153;
    var day := dayOfYear - DaysBeforeMonth(m) + 1;
    if m < 10 then Date(year, m + 3, day) else Date(year + 1, m - 9, day)
  }

  // ---- years ---------------------------------------------------------------------------------

  lemma {:induction false} YearLength(year: int)
    ensures DaysBeforeYear(year + 1) - DaysBeforeYear(year) == if IsLeap(year + 1) then 366 else 365
  {
    var y := year + 1;
    assert y / 4 - year / 4 == if y % 4 == 0 then 1 else 0;
    assert y / 100 - year / 100 == if y % 100 == 0 then 1 else 0;
    assert y / 400 - year / 400 == if y % 400 == 0 then 1 else 0;
    assert y % 400 == 0 ==> y % 100 == 0;
    assert y % 100 == 0 ==> y % 4 == 0;
  }

  lemma {:induction false} YearsGrow(a: int, b: int)
    requires a <= b
    ensures DaysBeforeYear(b) - DaysBeforeYear(a) >= 365 * (b - a)
    decreases b - a
  {
    if a < b {
      YearsGrow(a, b - 1);
      YearLength(b - 1);
    }
  }

  lemma {:induction false} YearParts(era: int, century: int, cycle: int, year: int)
    requires 0 <= century <= 3 && 0 <= cycle <= 24 && 0 <= year <= 3
    ensures DaysBeforeYear(400 * era + 100 * century + 4 * cycle + year)
            == 146097 * era + 36524 * century + 1461 * cycle + 365 * year
  {
    var y := 400 * era + 100 * century + 4 * cycle + year;
    assert y / 4 == 100 * era + 25 * century + cycle;
    assert y / 100 == 4 * era + century;
    assert y / 400 == era;
  }

  lemma {:induction false} LastYearOfCycle(era: int, century: int, cycle: int)
    requires 0 <= century <= 3 && 0 <= cycle <= 24 && (cycle < 24 || century == 3)
    ensures IsLeap(400 * era + 100 * century + 4 * cycle + 4)
  {
    var y := 400 * era + 100 * century + 4 * cycle + 4;
    assert y % 4 == 0 by { assert y == 4 * (100 * era + 25 * century + cycle + 1); }
    if cycle == 24 {
      assert y == 400 * (era + 1);
    } else {
      assert y == 100 * (4 * era + century) + (4 * cycle + 4);
    }
  }

  // ---- months --------------------------------------------------------------------------------

  lemma {:induction false} MonthOfDay(dayOfYear: int)
    requires 0 <= dayOfYear <= 365
    ensures var m := (5 * dayOfYear + 2) / 153;
            0 <= m <= 11 && DaysBeforeMonth(m) <= dayOfYear < DaysBeforeMonth(m + 1)
  {
  }

  lemma {:induction false} MonthLengths(d: Date)
    requires 1 <= d.month <= 12 && d.month != 2
    ensures DaysBeforeMonth(MarchMonth(d) + 1) - DaysBeforeMonth(MarchMonth(d)) == DaysInMonth(d.year, d.month)
  {
  }

  lemma {:induction false} FromMarchIsDate(year: int, dayOfYear: int)
    requires 0 <= dayOfYear <= 364 || (dayOfYear == 365 && IsLeap(year + 1))
    ensures var d := FromMarch(year, dayOfYear);
            IsDate(d) && DaysFromCivil(d) == DaysBeforeYear(year) + dayOfYear - EPOCH
  {
    MonthOfDay(dayOfYear);
    var d := FromMarch(year, dayOfYear);
    if d.month != 2 {
      hide IsLeap, DaysBeforeYear;
      MonthLengths(d);
    }
  }

  // ---- day numbers and dates are one-to-one --------------------------------------------------

  /** Where a day of an era falls: the parts are in range, and only the last day of a full cycle is
      a leap day. */
  lemma {:induction false} EraParts(dayOfEra: int)
    requires 0 <= dayOfEra < 146097
    ensures var century := Min(dayOfEra / 36524, 3);
            var dayOfCentury := dayOfEra - 36524 * century;
            var cycle, dayOfCycle := dayOfCentury / 1461, dayOfCentury % 1461;
            var year := Min(dayOfCycle / 365, 3);
            var dayOfYear := dayOfCycle - 365 * year;
            && 0 <= century <= 3 && 0 <= cycle <= 24 && 0 <= year <= 3 && 0 <= dayOfYear <= 365
            && (dayOfYear == 365 ==> year == 3 && (cycle < 24 || century == 3))
            && dayOfEra == 36524 * century + 1461 * cycle + 365 * year + dayOfYear
  {
    var century := Min(dayOfEra / 36524, 3);
    var dayOfCentury := dayOfEra - 36524 * century;
    assert 0 <= dayOfCentury <= 36524 && (dayOfCentury == 36524 ==> century == 3);
  }

  /** The date of a day is a date, and the formula takes it back to the day. */
  lemma {:induction false} CivilThenDays(n: int)
    ensures IsDate(CivilFromDays(n)) && DaysFromCivil(CivilFromDays(n)) == n
  {
    hide IsLeap, DaysBeforeYear, DaysFromCivil, FromMarch, IsDate, Min;
    var z := n + EPOCH;
    var era, dayOfEra := z / 146097, z % 146097;
    EraParts(dayOfEra);
    var century := Min(dayOfEra / 36524, 3);
    var dayOfCentury := dayOfEra - 36524 * century;
    var cycle, dayOfCycle := dayOfCentury / 1461, dayOfCentury % 1461;
    var year := Min(dayOfCycle / 365, 3);
    var dayOfYear := dayOfCycle - 365 * year;
    YearParts(era, century, cycle, year);
    if dayOfYear == 365 { LastYearOfCycle(era, century, cycle); }
    FromMarchIsDate(400 * era + 100 * century + 4 * cycle + year, dayOfYear);
  }

  predicate DateLess(a: Date, b: Date) {
    a.year < b.year || (a.year == b.year && (a.month < b.month || (a.month == b.month && a.day < b.day)))
  }

  function DayOfYear(d: Date): int {
    DaysBeforeMonth(MarchMonth(d)) + d.day - 1
  }

  lemma {:induction false} DayOfYearBound(d: Date)
    requires IsDate(d)
    ensures 0 <= DayOfYear(d) < DaysBeforeMonth(MarchMonth(d) + 1)
    ensures DayOfYear(d) <= (if IsLeap(MarchYear(d) + 1) then 365 else 364)
  {
    if d.month != 2 { MonthLengths(d); }
  }

  /** Later dates have larger day numbers. */
  lemma {:induction false} DaysGrow(a: Date, b: Date)
    requires IsDate(a) && IsDate(b) && DateLess(a, b)
    ensures DaysFromCivil(a) < DaysFromCivil(b)
  {
    DayOfYearBound(a);
    DayOfYearBound(b);
    var x, y := MarchYear(a), MarchYear(b);
    hide IsLeap, DaysBeforeYear, DaysInMonth;
    if x < y {
      YearLength(x);
      YearsGrow(x + 1, y);
    } else {
      assert x == y;
      if MarchMonth(a) < MarchMonth(b) {
        assert DaysBeforeMonth(MarchMonth(a) + 1) <= DaysBeforeMonth(MarchMonth(b));
      }
    }
  }

  /** The date of a day is the only date with that day number. */
  lemma {:induction false} DaysThenCivil(d: Date)
    requires IsDate(d)
    ensures CivilFromDays(DaysFromCivil(d)) == d
  {
    hide DaysFromCivil, CivilFromDays, IsDate;
    var e := CivilFromDays(DaysFromCivil(d));
    CivilThenDays(DaysFromCivil(d));
    if DateLess(d, e) {
      DaysGrow(d, e);
    } else if DateLess(e, d) {
      DaysGrow(e, d);
    }
  }

  /** The formula counts one more for the day after. */
  lemma {:induction false} NextDay(d: Date)
    requires IsDate(d)
    ensures DaysFromCivil(Next(d)) == DaysFromCivil(d) + 1
  {
    YearLength(MarchYear(d));
    hide DaysBeforeYear;
    if d.month != 2 {
      MonthLengths(d);
    } else {
      assert MarchYear(d) + 1 == d.year && DaysBeforeMonth(11) == 337;
    }
  }

  lemma {:induction false} EpochIsDayZero()
    ensures IsDate(Date(1970, 1, 1)) && DaysFromCivil(Date(1970, 1, 1)) == 0
  {
  }

  /** The conversion is the calendar that starts at 1970-01-01 and only ever moves to the next day. */
  lemma {:induction false} CivilIsTheCalendar(n: int)
    ensures CivilFromDays(0) == Date(1970, 1, 1)
    ensures IsDate(CivilFromDays(n)) && CivilFromDays(n + 1) == Next(CivilFromDays(n))
  {
    EpochIsDayZero();
    hide DaysFromCivil, CivilFromDays, Next, IsDate;
    DaysThenCivil(Date(1970, 1, 1));
    CivilThenDays(n);
    NextDay(CivilFromDays(n));
    DaysThenCivil(Next(CivilFromDays(n)));
  }

  /** Day order is date order. */
  lemma {:induction false} DayOrderIsDateOrder(m: int, n: int)
    ensures m < n <==> DateLess(CivilFromDays(m), CivilFromDays(n))
  {
    hide DaysFromCivil, CivilFromDays, IsDate;
    var a, b := CivilFromDays(m), CivilFromDays(n);
    CivilThenDays(m);
    CivilThenDays(n);
    if DateLess(a, b) {
      DaysGrow(a, b);
    } else if DateLess(b, a) {
      DaysGrow(b, a);
    } else {
      assert a == b;
    }
  }
}
