/**
  * Local calendar arithmetic behind `new Date(year, month)`, `startOfMonth`,
  * `endOfMonth` and `getDay`, on whole days. A day is an integer day number:
  * the count of days since 1 January 1970 in the proleptic Gregorian calendar.
  * Time of day, time zones and daylight saving are left out: only the day a
  * date falls on matters here, not its time within that day.
  */
module Civil {

  /** Days since 1 January 1970. */
  type Day = int

  /** 1 January 1970 (day 0) was a Thursday. */
  const EpochWeekday: int := 4

  /** `getDay`: 0 for Sunday through 6 for Saturday. */
  function Weekday(d: Day): (w: int)
    ensures 0 <= w < 7
    ensures d == 0 ==> w == 4
  {
    (d + EpochWeekday) % 7
  }

  /** The weekday of the following day is the next weekday, wrapping from Saturday to Sunday. */
  lemma WeekdaySucc(d: Day)
    ensures Weekday(d + 1) == (Weekday(d) + 1) % 7
  {
  }

  /** Two days seven apart fall on the same weekday; a Sunday is a day whose number is 3 modulo 7. */
  lemma WeekdayResidue(d: Day)
    ensures Weekday(d) == 0 <==> d % 7 == 3
    ensures Weekday(d) == 6 <==> d % 7 == 2
    ensures Weekday(d + 7) == Weekday(d)
  {
  }

  /**
    * The Date constructor reads a year argument from 0 to 99 as 1900 to 1999
    * (the MakeFullYear step of the Date constructor in ECMA-262).
    */
  function FullYear(year: int): (y: int)
    ensures 0 <= year <= 99 ==> y == year + 1900
    ensures !(0 <= year <= 99) ==> y == year
  {
    if 0 <= year <= 99 then year + 1900 else year
  }

  predicate IsLeapYear(y: int)
  {
    y % 4 == 0 && (y % 100 != 0 || y % 400 == 0)
  }

  function DaysInYear(y: int): (n: int)
    ensures n == 365 || n == 366
    ensures n == 366 <==> IsLeapYear(y)
  {
    if IsLeapYear(y) then 366 else 365
  }

  /** Day number of 1 January of year `y` (the DayFromYear operation of ECMA-262). */
  function DayFromYear(y: int): Day
  {
    365 * (y - 1970) + (y - 1969) / 4 - (y - 1901) / 100 + (y - 1601) / 400
  }

  /**
    * Floor division by one of the calendar's constants steps up by one exactly
    * when the new dividend is a multiple of it.
    */
  lemma FloorStep(a: int, k: int)
    requires k == 4 || k == 100 || k == 400
    ensures (a + 1) / k - a / k == if (a + 1) % k == 0 then 1 else 0
  {
    if k == 4 {
      assert a == 4 * (a / 4) + a % 4;
    } else if k == 100 {
      assert a == 100 * (a / 100) + a % 100;
    } else {
      assert a == 400 * (a / 400) + a % 400;
    }
  }

  /** Leap-day count steps: the quarter, century and quad-century terms of DayFromYear. */
  lemma QuarterStep(y: int)
    ensures (y - 1968) / 4 - (y - 1969) / 4 == if y % 4 == 0 then 1 else 0
  {
    FloorStep(y - 1969, 4);
    assert (y - 1968) % 4 == y % 4;
  }

  lemma CenturyStep(y: int)
    ensures (y - 1900) / 100 - (y - 1901) / 100 == if y % 100 == 0 then 1 else 0
  {
    FloorStep(y - 1901, 100);
    assert (y - 1900) % 100 == y % 100;
  }

  lemma QuadCenturyStep(y: int)
    ensures (y - 1600) / 400 - (y - 1601) / 400 == if y % 400 == 0 then 1 else 0
  {
    FloorStep(y - 1601, 400);
    assert (y - 1600) % 400 == y % 400;
  }

  /** A multiple of 400 is a multiple of 100. */
  lemma QuadCenturyIsCentury(y: int)
    requires y % 400 == 0
    ensures y % 100 == 0
  {
    var q := y / 400;
    assert y == 100 * (4 * q) + 0;
  }

  /** A multiple of 100 is a multiple of 4. */
  lemma CenturyIsQuarter(y: int)
    requires y % 100 == 0
    ensures y % 4 == 0
  {
    var q := y / 100;
    assert y == 4 * (25 * q) + 0;
  }

  /** Consecutive New Year's days are one year length apart. */
  lemma YearStep(y: int)
    ensures DayFromYear(y + 1) == DayFromYear(y) + DaysInYear(y)
  {
    QuarterStep(y);
    CenturyStep(y);
    QuadCenturyStep(y);
    if y % 400 == 0 {
      QuadCenturyIsCentury(y);
    }
    if y % 100 == 0 {
      CenturyIsQuarter(y);
    }
    var leapDays := ((y - 1968) / 4 - (y - 1969) / 4)
                  - ((y - 1900) / 100 - (y - 1901) / 100)
                  + ((y - 1600) / 400 - (y - 1601) / 400);
    assert DayFromYear(y + 1) == DayFromYear(y) + 365 + leapDays;
    assert leapDays == if IsLeapYear(y) then 1 else 0;
  }

  /** Length of month `m` (0 = January) of year `y`. */
  function DaysInMonth(y: int, m: int): (n: int)
    requires 0 <= m < 12
    ensures 28 <= n <= 31
    ensures m == 1 ==> (n == 29 <==> IsLeapYear(y))
  {
    if m == 1 then (if IsLeapYear(y) then 29 else 28)
    else if m == 3 || m == 5 || m == 8 || m == 10 then 30
    else 31
  }

  /** Days of year `y` before the first of month `m`. */
  function DaysBeforeMonth(y: int, m: int): (n: int)
    requires 0 <= m < 12
    decreases m
  {
    if m == 0 then 0 else DaysBeforeMonth(y, m - 1) + DaysInMonth(y, m - 1)
  }

  /** Each month ends within its year. */
  lemma MonthWithinYear(y: int, m: int)
    requires 0 <= m < 12
    ensures 0 <= DaysBeforeMonth(y, m)
    ensures DaysBeforeMonth(y, m) + DaysInMonth(y, m) <= DaysInYear(y)
  {
  }

  /** The twelve months fill the year exactly. */
  lemma MonthsFillYear(y: int)
    ensures DaysBeforeMonth(y, 11) + DaysInMonth(y, 11) == DaysInYear(y)
  {
  }

  /** A year and a month in 0..11. */
  datatype YearMonth = YearMonth(year: int, month: int)

  /**
    * How `new Date(year, month)` resolves its arguments: the year through
    * MakeFullYear, then a month outside 0..11 carried into the year
    * (the MakeDay operation of ECMA-262).
    */
  function Resolve(year: int, month: int): (ym: YearMonth)
    ensures 0 <= ym.month < 12
    ensures ym.year * 12 + ym.month == FullYear(year) * 12 + month
  {
    YearMonth(FullYear(year) + month / 12, month % 12)
  }

  /**
    * `startOfMonth(new Date(year, month))`: the first day of the resolved
    * month, which lies in the resolved year together with the whole month.
    * January begins on New Year's day.
    */
  function StartOfMonth(year: int, month: int): (d: Day)
    ensures var ym := Resolve(year, month);
      && DayFromYear(ym.year) <= d
      && d + DaysInMonth(ym.year, ym.month) <= DayFromYear(ym.year) + DaysInYear(ym.year)
      && (ym.month == 0 ==> d == DayFromYear(ym.year))
  {
    var ym := Resolve(year, month);
    MonthWithinYear(ym.year, ym.month);
    DayFromYear(ym.year) + DaysBeforeMonth(ym.year, ym.month)
  }

  /** Number of days of the month `new Date(year, month)` falls in. */
  function MonthLength(year: int, month: int): (n: int)
    ensures 28 <= n <= 31
  {
    var ym := Resolve(year, month);
    DaysInMonth(ym.year, ym.month)
  }

  /**
    * `endOfMonth(new Date(year, month))`, as a day: the day before the first
    * of the following month, the month's length minus one day after its first.
    */
  function EndOfMonth(year: int, month: int): (d: Day)
    ensures d + 1 == StartOfMonth(year, month + 1)
    ensures d - StartOfMonth(year, month) + 1 == MonthLength(year, month)
  {
    MonthsTile(year, month);
    StartOfMonth(year, month) + MonthLength(year, month) - 1
  }

  /** Months tile the day line: each month begins its length in days after the previous one began. */
  lemma MonthsTile(year: int, month: int)
    ensures StartOfMonth(year, month + 1) == StartOfMonth(year, month) + MonthLength(year, month)
  {
    var ym := Resolve(year, month);
    ResolveNext(year, month);
    if ym.month == 11 {
      DecemberTile(ym.year);
    }
  }

  /** The month after a resolved month: the next month of the same year, or January of the next year after December. */
  lemma ResolveNext(year: int, month: int)
    ensures var ym := Resolve(year, month);
      Resolve(year, month + 1) == if ym.month < 11 then YearMonth(ym.year, ym.month + 1) else YearMonth(ym.year + 1, 0)
  {
    var ym := Resolve(year, month);
    var next := Resolve(year, month + 1);
    assert next.year * 12 + next.month == ym.year * 12 + ym.month + 1;
  }

  /** The day after 31 December is New Year's day of the next year. */
  lemma DecemberTile(y: int)
    ensures DayFromYear(y + 1) + DaysBeforeMonth(y + 1, 0) == DayFromYear(y) + DaysBeforeMonth(y, 11) + DaysInMonth(y, 11)
  {
    YearStep(y);
    MonthsFillYear(y);
  }

  /** 1 May 2024 is day 19844, a Wednesday, and May 2024 has 31 days. */
  lemma May2024()
    ensures StartOfMonth(2024, 4) == 19844
    ensures Weekday(StartOfMonth(2024, 4)) == 3
    ensures MonthLength(2024, 4) == 31
  {
    assert Resolve(2024, 4) == YearMonth(2024, 4);
    assert DayFromYear(2024) == 19723;
    assert DaysBeforeMonth(2024, 2) == 60;
    assert DaysBeforeMonth(2024, 4) == 121;
  }

  /** February 2024 has 29 days and begins on a Thursday; `new Date(24, 1)` means February 1924. */
  lemma February2024()
    ensures MonthLength(2024, 1) == 29
    ensures Weekday(StartOfMonth(2024, 1)) == 4
    ensures StartOfMonth(24, 1) == StartOfMonth(1924, 1)
  {
    assert Resolve(2024, 1) == YearMonth(2024, 1);
    assert Resolve(24, 1) == Resolve(1924, 1);
    assert DayFromYear(2024) == 19723;
    assert StartOfMonth(2024, 1) == 19723 + 31;
  }
}
