/** Calendar days as the application keeps them: midnight UTC and no zone, so a day is
    one integer, counted from 1 January of the year 1 of the proleptic Gregorian
    calendar. Civil triples and day numbers are in bijection. */
module Calendar {

  type Day = int

  datatype Civil = Civil(year: int, month: int, day: int) {
    predicate Valid() {
      1 <= month <= 12 && 1 <= day <= MonthLength(year, month)
    }
  }

  const SUNDAY := 0
  const MONDAY := 1
  const TUESDAY := 2
  const WEDNESDAY := 3
  const THURSDAY := 4
  const FRIDAY := 5
  const SATURDAY := 6

  const DAYS_IN_400_YEARS := 146097
  const DAYS_IN_100_YEARS := 36524
  const DAYS_IN_4_YEARS := 1461

  predicate Leap(year: int) {
    year % 4 == 0 && (year % 100 != 0 || year % 400 == 0)
  }

  function YearLength(year: int): int {
    if Leap(year) then 366 else 365
  }

  function MonthLength(year: int, month: int): int
    requires 1 <= month <= 12
  {
    if month == 2 then (if Leap(year) then 29 else 28)
    else if month == 4 || month == 6 || month == 9 || month == 11 then 30
    else 31
  }

  /** The day number of 1 January. */
  function NewYearsDay(year: int): Day {
    var y := year - 1;
    365 * y + y / 4 - y / 100 + y / 400
  }

  /** The days of a year that lie before the first of a month; month 13 is the next January. */
  function DaysBefore(year: int, month: int): int
    requires 1 <= month <= 13
  {
    var common := [0, 31, 59, 90, 120, 151, 181, 212, 243, 273, 304, 334, 365];
    common[month - 1] + (if month > 2 && Leap(year) then 1 else 0)
  }

  /** A day written as year, month and day, where the day may run past either end of the
      month and month 13 is the next January, as Go's time.Date normalises them. */
  function DateOf(year: int, month: int, day: int): Day
    requires 1 <= month <= 13
  {
    NewYearsDay(year) + DaysBefore(year, month) + day - 1
  }

  /** The day number of a civil date. */
  function DayOf(date: Civil): Day
    requires date.Valid()
  {
    DateOf(date.year, date.month, date.day)
  }

  /** The year a day falls in: whole cycles of 400, 100, 4 and 1 years, the last century
      of a cycle and the last year of four taking in the leap day they end with. */
  function YearOf(day: Day): int {
    var cycles, inCycle := day / DAYS_IN_400_YEARS, day % DAYS_IN_400_YEARS;
    var centuries := Min(inCycle / DAYS_IN_100_YEARS, 3);
    var inCentury := inCycle - centuries * DAYS_IN_100_YEARS;
    var fours, inFour := inCentury / DAYS_IN_4_YEARS, inCentury % DAYS_IN_4_YEARS;
    400 * cycles + 100 * centuries + 4 * fours + Min(inFour / 365, 3) + 1
  }

  function Min(a: int, b: int): int { if a <= b then a else b }

  /** The month a day of the year falls in. */
  function MonthFrom(year: int, dayOfYear: int, month: int): (m: int)
    requires 1 <= month <= 12
    requires DaysBefore(year, month) <= dayOfYear < YearLength(year)
    ensures 1 <= m <= 12 && DaysBefore(year, m) <= dayOfYear < DaysBefore(year, m + 1)
    decreases 12 - month
  {
    if month < 12 && dayOfYear >= DaysBefore(year, month + 1)
    then MonthFrom(year, dayOfYear, month + 1)
    else month
  }

  /** The civil date of a day number. */
  function CivilOf(day: Day): Civil {
    YearHolds(day);
    var year := YearOf(day);
    var dayOfYear := day - NewYearsDay(year);
    var month := MonthFrom(year, dayOfYear, 1);
    Civil(year, month, dayOfYear - DaysBefore(year, month) + 1)
  }

  function Weekday(day: Day): (w: int)
    ensures 0 <= w <= 6
  {
    (day + 1) % 7
  }

  predicate Weekend(day: Day) {
    Weekday(day) == SATURDAY || Weekday(day) == SUNDAY
  }

  // ----- the year of a day -----

  lemma Quarters(year: int)
    ensures year / 4 - (year - 1) / 4 == if year % 4 == 0 then 1 else 0
  {
  }

  lemma By100(q: int, r: int)
    requires 0 <= r < 100
    ensures (100 * q + r) / 100 == q
  {
  }

  lemma By400(q: int, r: int)
    requires 0 <= r < 400
    ensures (400 * q + r) / 400 == q
  {
  }

  lemma Centuries(year: int)
    ensures year / 100 - (year - 1) / 100 == if year % 100 == 0 then 1 else 0
    ensures year % 100 == 0 ==> year % 4 == 0
  {
    var q, r := year / 100, year % 100;
    if r == 0 {
      By100(q - 1, 99);
    } else {
      By100(q, r - 1);
    }
  }

  lemma Cycles(year: int)
    ensures year / 400 - (year - 1) / 400 == if year % 400 == 0 then 1 else 0
    ensures year % 400 == 0 ==> year % 100 == 0
  {
    var q, r := year / 400, year % 400;
    if r == 0 {
      By400(q - 1, 399);
    } else {
      By400(q, r - 1);
    }
  }

  lemma YearsFollow(year: int)
    ensures NewYearsDay(year + 1) == NewYearsDay(year) + YearLength(year)
  {
    Quarters(year);
    Centuries(year);
    Cycles(year);
  }

  lemma {:induction false} YearsAscend(a: int, b: int)
    requires a <= b
    ensures NewYearsDay(a) + 365 * (b - a) <= NewYearsDay(b)
    decreases b - a
  {
    if a < b {
      YearsAscend(a, b - 1);
      YearsFollow(b - 1);
    }
  }

  /** New Year's Day written in whole cycles of 400, 100, 4 and 1 years. */
  lemma NewYearByCycles(cycles: int, centuries: int, fours: int, years: int)
    requires 0 <= centuries <= 3 && 0 <= fours <= 24 && 0 <= years <= 3
    ensures NewYearsDay(400 * cycles + 100 * centuries + 4 * fours + years + 1)
            == DAYS_IN_400_YEARS * cycles + DAYS_IN_100_YEARS * centuries + DAYS_IN_4_YEARS * fours + 365 * years
  {
    var y := 400 * cycles + 100 * centuries + 4 * fours + years;
    assert y / 4 == 100 * cycles + 25 * centuries + fours;
    assert y / 100 == 4 * cycles + centuries;
    assert y / 400 == cycles;
  }

  lemma LastOfFourIsLeap(cycles: int, centuries: int, fours: int)
    requires 0 <= centuries <= 3 && 0 <= fours <= 24 && (fours == 24 ==> centuries == 3)
    ensures Leap(400 * cycles + 100 * centuries + 4 * fours + 4)
  {
    var year := 400 * cycles + 100 * centuries + 4 * fours + 4;
    assert year == 4 * (100 * cycles + 25 * centuries + fours + 1);
    if fours == 24 {
      assert year == 400 * (cycles + 1);
    } else {
      assert year == 100 * (4 * cycles + centuries) + (4 * fours + 4);
    }
  }

  /** YearOf finds the year whose days hold the day. */
  lemma YearHolds(day: Day)
    ensures NewYearsDay(YearOf(day)) <= day < NewYearsDay(YearOf(day) + 1)
    ensures 0 <= day - NewYearsDay(YearOf(day)) < YearLength(YearOf(day))
  {
    var cycles, inCycle := day / DAYS_IN_400_YEARS, day % DAYS_IN_400_YEARS;
    var centuries := Min(inCycle / DAYS_IN_100_YEARS, 3);
    var inCentury := inCycle - centuries * DAYS_IN_100_YEARS;
    var fours, inFour := inCentury / DAYS_IN_4_YEARS, inCentury % DAYS_IN_4_YEARS;
    var years := Min(inFour / 365, 3);
    NewYearByCycles(cycles, centuries, fours, years);
    if inFour == 1460 {
      LastOfFourIsLeap(cycles, centuries, fours);
    }
    YearsFollow(YearOf(day));
  }

  /** A day lies in exactly one year. */
  lemma YearIsUnique(day: Day, year: int)
    requires NewYearsDay(year) <= day < NewYearsDay(year + 1)
    ensures YearOf(day) == year
  {
    YearHolds(day);
    var found := YearOf(day);
    if found < year {
      YearsAscend(found + 1, year);
    } else if year < found {
      YearsAscend(year + 1, found);
    }
  }

  lemma YearsOrdered(a: Day, b: Day)
    requires a <= b
    ensures YearOf(a) <= YearOf(b)
  {
    YearHolds(a);
    YearHolds(b);
    if YearOf(b) < YearOf(a) {
      YearsAscend(YearOf(b) + 1, YearOf(a));
    }
  }

  // ----- the bijection -----

  lemma MonthStart(year: int, month: int)
    requires 1 <= month <= 12
    ensures DaysBefore(year, month + 1) == DaysBefore(year, month) + MonthLength(year, month)
    ensures 0 <= DaysBefore(year, month) && DaysBefore(year, month + 1) <= YearLength(year)
  {
  }

  lemma {:induction false} MonthsAscend(year: int, a: int, b: int)
    requires 1 <= a <= b <= 13
    ensures DaysBefore(year, a) <= DaysBefore(year, b)
    decreases b - a
  {
    if a < b {
      MonthsAscend(year, a, b - 1);
      MonthStart(year, b - 1);
    }
  }

  lemma DayInItsYear(date: Civil)
    requires date.Valid()
    ensures YearOf(DayOf(date)) == date.year
    ensures NewYearsDay(date.year) <= DayOf(date) < NewYearsDay(date.year + 1)
  {
    MonthStart(date.year, date.month);
    YearsFollow(date.year);
    YearIsUnique(DayOf(date), date.year);
  }

  /** Only one month of a year holds a day of the year. */
  lemma MonthFound(year: int, month: int, dayOfYear: int)
    requires 1 <= month <= 12
    requires DaysBefore(year, month) <= dayOfYear < DaysBefore(year, month + 1)
    requires 0 <= dayOfYear < YearLength(year)
    ensures MonthFrom(year, dayOfYear, 1) == month
  {
    var found := MonthFrom(year, dayOfYear, 1);
    if found < month {
      MonthsAscend(year, found + 1, month);
    } else if month < found {
      MonthsAscend(year, month + 1, found);
    }
  }

  /** The day of the year a date has, and its month by that. */
  lemma MonthOfDate(date: Civil)
    requires date.Valid()
    ensures var dayOfYear := DaysBefore(date.year, date.month) + date.day - 1;
            && DayOf(date) == NewYearsDay(date.year) + dayOfYear && 0 <= dayOfYear < YearLength(date.year)
            && MonthFrom(date.year, dayOfYear, 1) == date.month
  {
    hide Leap, NewYearsDay, DaysBefore, MonthLength, MonthFrom, YearLength;
    MonthStart(date.year, date.month);
    MonthFound(date.year, date.month, DaysBefore(date.year, date.month) + date.day - 1);
  }

  /** The date of a day number whose year and month are known. */
  lemma CivilOfParts(day: Day, year: int, month: int)
    requires YearOf(day) == year && 0 <= day - NewYearsDay(year) < YearLength(year)
    requires MonthFrom(year, day - NewYearsDay(year), 1) == month && 1 <= month <= 12
    ensures CivilOf(day) == Civil(year, month, day - NewYearsDay(year) - DaysBefore(year, month) + 1)
  {
    hide YearOf, NewYearsDay, YearLength, MonthFrom, Leap, DaysBefore;
  }

  /** Every civil date is recovered from its day number. */
  lemma CivilOfDayOf(date: Civil)
    requires date.Valid()
    ensures CivilOf(DayOf(date)) == date
  {
    hide CivilOf, DayOf, YearOf, NewYearsDay, DaysBefore, MonthLength, MonthFrom, YearLength;
    DayInItsYear(date);
    MonthOfDate(date);
    CivilOfParts(DayOf(date), date.year, date.month);
  }

  /** Every day number is the day of a real civil date, and of the date it is read as. */
  lemma DayOfCivilOf(day: Day)
    ensures CivilOf(day).Valid() && DayOf(CivilOf(day)) == day
  {
    YearHolds(day);
    hide YearOf, NewYearsDay, Leap;
    var year := YearOf(day);
    MonthStart(year, MonthFrom(year, day - NewYearsDay(year), 1));
  }

  /** The civil date that follows a civil date. */
  function Following(d: Civil): (next: Civil)
    requires d.Valid()
    ensures next.Valid()
  {
    if d.day < MonthLength(d.year, d.month) then Civil(d.year, d.month, d.day + 1)
    else if d.month < 12 then Civil(d.year, d.month + 1, 1)
    else Civil(d.year + 1, 1, 1)
  }

  /** The day after a date is the next in the month, else the first of the next month,
      else New Year's Day. */
  lemma NextDay(day: Day)
    ensures CivilOf(day).Valid() && CivilOf(day + 1) == Following(CivilOf(day))
  {
    DayOfCivilOf(day);
    hide CivilOf, YearOf, NewYearsDay, Leap, MonthFrom;
    var d := CivilOf(day);
    assert DayOf(Following(d)) == day + 1 by {
      if d.day == MonthLength(d.year, d.month) {
        MonthStart(d.year, d.month);
        YearsFollow(d.year);
      }
    }
    CivilOfDayOf(Following(d));
  }

  /** The months are as long as the knuckles of a hand have it, and 1 January 1970 was a Thursday. */
  lemma KnownMonthsAndDays(year: int, month: int)
    requires 1 <= month <= 12
    ensures month != 2 ==> MonthLength(year, month) == 30 + (month + month / 8) % 2
    ensures month == 2 ==> MonthLength(year, month) == YearLength(year) - 337
    ensures DayOf(Civil(1970, 1, 1)) == 719162 && Weekday(719162) == THURSDAY
  {
  }
}
