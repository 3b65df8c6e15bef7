/** Easter Sunday by the arithmetic of Meeus, proved to be the first Sunday strictly after
    the full moon of the Gregorian epact tables. */
module Computus {
  import opened Calendar

  // Go's / and % truncate toward zero, which differs from Dafny's below zero.

  function Quo(x: int, y: int): int
    requires y > 0
  {
    if x >= 0 then x / y else -((-x) / y)
  }

  function Rem(x: int, y: int): (r: int)
    requires y > 0
    ensures -y < r < y
    ensures x >= 0 ==> r == x % y
  {
    if x >= 0 then x % y else -((-x) % y)
  }

  // The intermediate values of easterSunday, under the letters it gives them.

  function A(year: int): int { Rem(year, 19) }
  function B(year: int): int { Quo(year, 100) }
  function C(year: int): int { Rem(year, 100) }
  function D(year: int): int { Quo(B(year), 4) }
  function E(year: int): int { Rem(B(year), 4) }
  function F(year: int): int { Quo(B(year) + 8, 25) }
  function G(year: int): int { Quo(B(year) - F(year) + 1, 3) }
  function H(year: int): int { Rem(19 * A(year) + B(year) - D(year) - G(year) + 15, 30) }
  function I(year: int): int { Quo(C(year), 4) }
  function K(year: int): int { Rem(C(year), 4) }
  function L(year: int): int { Rem(32 + 2 * E(year) + 2 * I(year) - H(year) - K(year), 7) }
  function M(year: int): int { Quo(A(year) + 11 * H(year) + 22 * L(year), 451) }
  function N(year: int): int { H(year) + L(year) - 7 * M(year) + 114 }

  lemma TermBounds(year: int)
    ensures -18 <= A(year) <= 18
    ensures -29 <= H(year) <= 29 && -6 <= L(year) <= 6 && -1 <= M(year) <= 1
    ensures 72 <= N(year) <= 156
  {
  }

  /** Easter Sunday; for any year at all it is a date. */
  function EasterSunday(year: int): Day {
    TermBounds(year);
    DateOf(year, Quo(N(year), 31), Rem(N(year), 31) + 1)
  }

  /** The day stays from 11 February to 3 May of its own year, whatever the year. */
  lemma EasterInItsYear(year: int)
    ensures NewYearsDay(year) + 41 <= EasterSunday(year) <= NewYearsDay(year) + 122
  {
    TermBounds(year);
    var month, day := Quo(N(year), 31), Rem(N(year), 31) + 1;
    assert N(year) == 31 * month + day - 1;
    assert 2 <= month <= 5;
    DaysBeforeBounds(year, month);
  }

  lemma DaysBeforeBounds(year: int, month: int)
    requires 2 <= month <= 5
    ensures month == 2 ==> DaysBefore(year, month) == 31
    ensures month == 3 ==> 59 <= DaysBefore(year, month) <= 60
    ensures month == 4 ==> 90 <= DaysBefore(year, month) <= 91
    ensures month == 5 ==> 120 <= DaysBefore(year, month) <= 121
  {
  }

  // ----- the reference: the epact tables -----

  /** The age of the moon on 1 January by the golden number and the century, with the
      two lunar corrections; the table entries 24 and, late in the cycle, 25 count as one more. */
  function Epact(year: int): (epact: int)
    requires year >= 0
    ensures 0 <= epact < 30
  {
    var golden := year % 19 + 1;
    var century := year / 100 + 1;
    var dropped := 3 * century / 4 - 12;
    var lunar := (8 * century + 5) / 25 - 5;
    var raw := (11 * golden + 20 + lunar - dropped) % 30;
    if raw == 24 || (raw == 25 && golden > 11) then raw + 1 else raw
  }

  /** The day of March, counted on into April, of the paschal full moon: the first full
      moon of the tables on or after 21 March. */
  function MoonOfMarch(year: int): int
    requires year >= 0
  {
    var day := 44 - Epact(year);
    if day < 21 then day + 30 else day
  }

  function PaschalMoon(year: int): Day
    requires year >= 0
  {
    DateOf(year, 3, MoonOfMarch(year))
  }

  predicate FirstSundayAfter(day: Day, moon: Day) {
    Weekday(day) == SUNDAY && moon < day <= moon + 7
  }

  // ----- the proof -----

  /** The moon's correction is Gauss's (8b + 13) / 25. */
  lemma GaussCorrection(b: int)
    requires b >= 0
    ensures Quo(b - Quo(b + 8, 25) + 1, 3) == (8 * b + 13) / 25
  {
    var u, v := b / 25, b % 25;
    assert b == 25 * u + v;
    assert (b + 8) / 25 == u + (v + 8) / 25;
    assert (b - (b + 8) / 25 + 1) / 3 == 8 * u + (v - (v + 8) / 25 + 1) / 3;
    assert (8 * b + 13) / 25 == 8 * u + (8 * v + 13) / 25;
  }

  lemma DroppedLeapDays(b: int)
    requires b >= 0
    ensures 3 * (b + 1) / 4 == b - b / 4
  {
  }

  /** The terms for a year of the common era, in Dafny's own division. */
  lemma CommonEra(year: int)
    requires year >= 0
    ensures A(year) == year % 19 && B(year) == year / 100 && C(year) == year % 100
    ensures D(year) == B(year) / 4 && E(year) == B(year) % 4
    ensures I(year) == C(year) / 4 && K(year) == C(year) % 4
    ensures G(year) == (8 * B(year) + 13) / 25
    ensures H(year) == (19 * A(year) + B(year) - D(year) - G(year) + 15) % 30
    ensures L(year) == (32 + 2 * E(year) + 2 * I(year) - H(year) - K(year)) % 7
  {
    GaussCorrection(B(year));
  }

  /** h counts the days from 21 March to the uncorrected full moon: with the raw epact it
      makes 23 around the cycle of thirty. */
  lemma MoonFromEpact(year: int)
    requires year >= 0
    ensures var h := if H(year) == 29 || (H(year) == 28 && A(year) >= 11) then H(year) - 1 else H(year);
            MoonOfMarch(year) == 21 + h
  {
    CommonEra(year);
    var b := B(year);
    DroppedLeapDays(b);
    var golden := year % 19 + 1;
    var p := 11 * golden + 20 + ((8 * (b + 1) + 5) / 25 - 5) - (3 * (b + 1) / 4 - 12);
    var q := 19 * A(year) + b - D(year) - G(year) + 15;
    assert p + q == 30 * (A(year) + 1) + 23;
    ComplementMod30(p, q, A(year) + 1);
  }

  lemma ComplementMod30(p: int, q: int, n: int)
    requires p + q == 30 * n + 23
    ensures p % 30 == (if q % 30 <= 23 then 23 - q % 30 else 53 - q % 30)
  {
  }

  /** The weekday of 1 March from the parts of the year: the day number is a number of
      whole weeks and 5e + 5i + k + 2 days. */
  lemma FirstOfMarch(d: int, e: int, i: int, k: int) returns (weeks: int)
    requires 0 <= e <= 3 && 0 <= i <= 24 && 0 <= k <= 3
    ensures DateOf(100 * (4 * d + e) + 4 * i + k, 3, 1) == 7 * weeks + 5 * e + 5 * i + k + 2
  {
    var year := 100 * (4 * d + e) + 4 * i + k;
    NewYearByCycles(d, e, i, k);
    YearsFollow(year);
    assert DateOf(year, 3, 1) == NewYearsDay(year + 1) - 306;
    weeks := 20871 * d + 5217 * e + 208 * i + 52 * k - 44;
  }

  /** 22 March + h + l is a Sunday. */
  lemma SundayAfter(year: int)
    requires year >= 0
    ensures Weekday(DateOf(year, 3, 1) + 21 + H(year) + L(year)) == SUNDAY
  {
    CommonEra(year);
    var d, e, i, k, h := D(year), E(year), I(year), K(year), H(year);
    var r := 32 + 2 * e + 2 * i - h - k;
    var w := FirstOfMarch(d, e, i, k);
    assert year == 100 * (4 * d + e) + 4 * i + k by {
      assert B(year) == 4 * d + e && C(year) == 4 * i + k;
    }
    assert L(year) == r - 7 * (r / 7);
    assert DateOf(year, 3, 1) + 21 + h + L(year) == 6 + 7 * (w - r / 7 + e + i + 7);
    WholeWeek(6, -(w - r / 7 + e + i + 7));
  }

  /** m is 1 exactly when the Sunday found is a whole week past the corrected moon. */
  lemma WeekTooFar(year: int)
    requires year >= 0
    ensures M(year) == if L(year) == 6 && (H(year) == 29 || (H(year) == 28 && A(year) >= 11)) then 1 else 0
  {
    CommonEra(year);
  }

  /** The month and day read out of n are n days after 22 March, as long as that is no
      later than 25 April. */
  lemma DateFromN(year: int)
    ensures 114 <= N(year) <= 148 ==> EasterSunday(year) == DateOf(year, 3, 1) + 21 + (N(year) - 114)
  {
    var n := N(year);
    hide N;
    if 114 <= n <= 123 {
      assert n / 31 == 3 && n % 31 == n - 93;
    } else if 124 <= n <= 148 {
      assert n / 31 == 4 && n % 31 == n - 124;
    }
  }

  lemma TermsInTheEra(year: int)
    requires year >= 0
    ensures 0 <= H(year) <= 29 && 0 <= L(year) <= 6 && 0 <= M(year) <= 1
    ensures 0 <= H(year) + L(year) - 7 * M(year) <= 34
  {
    CommonEra(year);
    WeekTooFar(year);
    hide M;
  }

  lemma EasterByTerms(year: int)
    requires year >= 0
    ensures 0 <= H(year) + L(year) - 7 * M(year) <= 34
    ensures EasterSunday(year) == DateOf(year, 3, 1) + 21 + H(year) + L(year) - 7 * M(year)
    ensures Weekday(EasterSunday(year)) == SUNDAY
  {
    hide EasterSunday, H, L, M, N, DateOf, Weekday;
    TermsInTheEra(year);
    CountedInWeeks(year);
    DateFromN(year);
    SundayAfter(year);
    WholeWeek(DateOf(year, 3, 1) + 21 + H(year) + L(year), M(year));
  }

  lemma EasterIsASunday(year: int)
    requires year >= 0
    ensures Weekday(EasterSunday(year)) == SUNDAY
  {
    EasterByTerms(year);
  }

  lemma OneSundayAWeek(day: Day, other: Day, moon: Day)
    requires FirstSundayAfter(day, moon) && FirstSundayAfter(other, moon)
    ensures day == other
  {
  }

  /** easterSunday is Easter: for every year of the common era the first Sunday strictly
      after the paschal full moon, from 22 March to 25 April. */
  lemma EasterIsTheSundayAfterTheMoon(year: int)
    requires year >= 0
    ensures FirstSundayAfter(EasterSunday(year), PaschalMoon(year))
    ensures DateOf(year, 3, 22) <= EasterSunday(year) <= DateOf(year, 4, 25)
    ensures forall day :: FirstSundayAfter(day, PaschalMoon(year)) ==> day == EasterSunday(year)
  {
    EasterByTerms(year);
    assert EasterSunday(year) - PaschalMoon(year) in {1, 2, 3, 4, 5, 6, 7} by {
      assert 0 <= H(year) <= 29 && 0 <= L(year) <= 6 by { CommonEra(year); }
      WeekTooFar(year);
      MoonFromEpact(year);
    }
    forall day | FirstSundayAfter(day, PaschalMoon(year)) ensures day == EasterSunday(year) {
      OneSundayAWeek(day, EasterSunday(year), PaschalMoon(year));
    }
  }

  // ----- before the year 0 -----

  /** What the years around a negative one add to the days before its 1 March. */
  lemma FirstOfMarchBefore(d: int, e: int, i: int, k: int) returns (weeks: int)
    requires -3 <= e <= 0 && -24 <= i <= 0 && -3 <= k <= 0
    ensures var year := 100 * (4 * d + e) + 4 * i + k;
            DateOf(year, 3, 1) == 7 * weeks + 5 * e + 5 * i + k + if Leap(year) then 2 else 1
  {
    var b, c := 4 * d + e, 4 * i + k;
    var year := 100 * b + c;
    YearsFollow(year);
    assert DateOf(year, 3, 1) == NewYearsDay(year + 1) - 306;
    var fours, hundreds, cycles := if k < 0 then 1 else 0, if c < 0 then 1 else 0, if 100 * e + c < 0 then 1 else 0;
    Fourths(25 * b + i, k);
    Hundredths(b, c);
    FourHundredths(d, 100 * e + c);
    weeks := 20871 * d + 5217 * e + 208 * i + 52 * k - 44;
    assert NewYearsDay(year + 1) == 365 * year + year / 4 - year / 100 + year / 400;
    assert Leap(year) <==> k == 0 && (c != 0 || e == 0);
  }

  lemma Fourths(q: int, k: int)
    requires -3 <= k <= 0
    ensures (4 * q + k) / 4 == q - (if k < 0 then 1 else 0) && ((4 * q + k) % 4 == 0 <==> k == 0)
  {
  }

  lemma Hundredths(q: int, c: int)
    requires -99 <= c <= 0
    ensures (100 * q + c) / 100 == q - (if c < 0 then 1 else 0) && ((100 * q + c) % 100 == 0 <==> c == 0)
  {
  }

  lemma FourHundredths(q: int, r: int)
    requires -399 <= r <= 0
    ensures (400 * q + r) / 400 == q - (if r < 0 then 1 else 0) && ((400 * q + r) % 400 == 0 <==> r == 0)
  {
  }

  /** Where it falls in March or later, n counts from 22 March as it does in other years;
      February has fewer than the 31 days it is taken to have. */
  lemma DateFromNBefore(year: int)
    requires year < 0
    ensures EasterSunday(year) ==
            DateOf(year, 3, 1) + 21 + (N(year) - 114) + if N(year) >= 93 then 0 else if Leap(year) then 2 else 3
  {
    TermBounds(year);
    var n := N(year);
    assert n <= 154;
    if n >= 124 {
      assert n / 31 == 4 && n % 31 == n - 124;
    } else if n >= 93 {
      assert n / 31 == 3 && n % 31 == n - 93;
    } else {
      assert n / 31 == 2 && n % 31 == n - 62;
    }
  }

  lemma PartsBefore(year: int)
    requires year < 0
    ensures -3 <= E(year) <= 0 && -24 <= I(year) <= 0 && -3 <= K(year) <= 0
    ensures year == 100 * (4 * D(year) + E(year)) + 4 * I(year) + K(year)
  {
    assert B(year) == 4 * D(year) + E(year) && C(year) == 4 * I(year) + K(year);
  }

  lemma TruncatedRem(x: int, y: int)
    requires y > 0
    ensures x == y * Quo(x, y) + Rem(x, y)
  {
  }

  /** The dividend whose remainder l is. */
  function Dividend(year: int): int {
    32 + 2 * E(year) + 2 * I(year) - H(year) - K(year)
  }

  lemma CountedInWeeks(year: int)
    ensures L(year) == Dividend(year) - 7 * Quo(Dividend(year), 7)
    ensures N(year) - 114 == H(year) + L(year) - 7 * M(year)
  {
    TruncatedRem(Dividend(year), 7);
    hide Quo, Rem;
  }

  /** The day n counts to from 22 March: one before the day that is a Sunday in leap years. */
  lemma WeeksBefore(year: int) returns (weeks: int)
    requires year < 0
    ensures DateOf(year, 3, 1) + 21 + (N(year) - 114) == 7 * weeks + if Leap(year) then 6 else 5
  {
    hide D, E, H, I, K, M, L, N, Quo, Rem, Leap, DateOf, NewYearsDay;
    PartsBefore(year);
    CountedInWeeks(year);
    var w := FirstOfMarchBefore(D(year), E(year), I(year), K(year));
    weeks := w - Quo(Dividend(year), 7) + E(year) + I(year) + 7 - M(year);
  }

  /** Before the year 0 division toward zero makes the day another weekday: a Tuesday where the
      terms count back more than 21 days from 22 March, into a February taken for 31 days long,
      and else a Sunday in leap years alone and a Saturday in all others. */
  lemma WeekdayBeforeYearZero(year: int)
    requires year < 0
    ensures Weekday(EasterSunday(year))
            == if H(year) + L(year) - 7 * M(year) < -21 then TUESDAY else if Leap(year) then SUNDAY else SATURDAY
  {
    hide EasterSunday, D, E, H, I, K, M, L, N, Leap, DateOf, NewYearsDay, Weekday;
    CountedInWeeks(year);
    DateFromNBefore(year);
    var weeks := WeeksBefore(year);
    WeekOf(weeks);
    DaysOn(DateOf(year, 3, 1) + 21 + (N(year) - 114));
  }

  lemma WeekOf(weeks: int)
    ensures Weekday(7 * weeks + 6) == SUNDAY && Weekday(7 * weeks + 5) == SATURDAY
  {
    WholeWeek(6, -weeks);
    WholeWeek(5, -weeks);
  }

  lemma DaysOn(day: Day)
    ensures Weekday(day) == SATURDAY ==> Weekday(day + 3) == TUESDAY
    ensures Weekday(day) == SUNDAY ==> Weekday(day + 2) == TUESDAY
  {
  }

  lemma TermsOfYearMinusOne()
    ensures N(-1) == 112
  {
    assert A(-1) == -1 && B(-1) == 0 && C(-1) == -1;
    assert D(-1) == 0 && E(-1) == 0 && G(-1) == 0 && I(-1) == 0 && K(-1) == -1;
    assert H(-1) == -4;
    assert L(-1) == 2;
    assert M(-1) == 0;
  }

  /** The year -1, whose day would be a Saturday. */
  lemma YearMinusOne()
    ensures EasterSunday(-1) == DateOf(-1, 3, 20) && Weekday(EasterSunday(-1)) == SATURDAY
  {
    TermsOfYearMinusOne();
    assert !Leap(-1);
    DateFromNBefore(-1);
    WeekdayBeforeYearZero(-1);
    hide EasterSunday, N, Leap;
  }

  lemma TermsOfYearMinusForty()
    ensures H(-40) == -23 && L(-40) == 0 && M(-40) == 0 && N(-40) == 91
  {
    assert A(-40) == -2 && B(-40) == 0 && C(-40) == -40;
    assert D(-40) == 0 && E(-40) == 0 && G(-40) == 0 && I(-40) == -10 && K(-40) == 0;
    assert H(-40) == -23;
    assert L(-40) == 0;
    assert M(-40) == 0;
  }

  /** The leap year -40, whose day would be a Tuesday. */
  lemma YearMinusForty()
    ensures Leap(-40) && EasterSunday(-40) == DateOf(-40, 3, 1) && Weekday(EasterSunday(-40)) == TUESDAY
  {
    TermsOfYearMinusForty();
    assert Leap(-40);
    hide EasterSunday, H, L, M, N, Leap;
    DateFromNBefore(-40);
    WeekdayBeforeYearZero(-40);
  }

  lemma WholeWeek(day: Day, weeks: int)
    ensures Weekday(day - 7 * weeks) == Weekday(day)
  {
    assert day - 7 * weeks + 1 == (day + 1) + 7 * (-weeks);
  }
}
