/** No place keeps a day twice: a year's holidays ascend strictly, substitutes and the
    neighbouring years' among them. */
module HolidayOrder {
  import opened Options
  import opened Calendar
  import Computus
  import opened HolidayRules
  import opened Sorting
  import opened Strings
  import opened HolidayYear
  import opened HolidayTables
  import opened Holidays

  // ----- substitutes that stay close -----

  /** No weekend holiday has more than two others within four days of it. */
  ghost predicate Sparse(days: set<Day>) {
    forall h :: h in days && Weekend(h) ==> exists p, q, r :: ClusterOf(days, h, p, q, r)
  }

  ghost predicate ClusterOf(days: set<Day>, h: Day, p: Day, q: Day, r: Day) {
    h in {p, q, r} && forall a :: a in days && h - 4 <= a <= h + 4 ==> a in {p, q, r}
  }

  ghost predicate Close(hs: seq<Holiday>, k: nat, j: nat)
    requires k <= |hs| && j < |OnWeekend(hs, k)| == |Substitutes(NextFreeWeekday, hs, k)|
  {
    OnWeekend(hs, k)[j].day < Substitutes(NextFreeWeekday, hs, k)[j].day <= OnWeekend(hs, k)[j].day + 4
  }

  lemma {:induction false} WeekendOnes(hs: seq<Holiday>, k: nat)
    requires k <= |hs| && StrictlyAscending(ByDay, hs)
    ensures StrictlyAscending(ByDay, OnWeekend(hs, k))
    ensures forall h :: h in OnWeekend(hs, k) <==> h in hs[..k] && Weekend(h.day)
  {
    if k == 0 {
    } else {
      WeekendOnes(hs, k - 1);
      assert hs[..k] == hs[..k - 1] + [hs[k - 1]];
    }
  }

  ghost predicate CloseUpTo(hs: seq<Holiday>, k: nat)
    requires k <= |hs|
  {
    && |OnWeekend(hs, k)| == |Substitutes(NextFreeWeekday, hs, k)|
    && forall j: nat :: j < |OnWeekend(hs, k)| ==> Close(hs, k, j)
  }

  /** What takes a weekday w within four days after the k-th holiday: a holiday on that very
      day, or an earlier weekend holiday, the j-th, whose substitute it is. */
  ghost predicate Blocks(hs: seq<Holiday>, k: nat, w: Day, b: Day, j: int)
    requires k < |hs| && CloseUpTo(hs, k)
  {
    && b in Days(hs) && hs[k].day - 4 <= b <= hs[k].day + 4
    && if j < 0 then b == w && b > hs[k].day
       else j < |OnWeekend(hs, k)| && b == OnWeekend(hs, k)[j].day && b < hs[k].day
            && w == Substitutes(NextFreeWeekday, hs, k)[j].day
  }

  lemma Blocker(hs: seq<Holiday>, k: nat, w: Day) returns (b: Day, j: int)
    requires k < |hs| && StrictlyAscending(ByDay, hs) && CloseUpTo(hs, k)
    requires hs[k].day < w <= hs[k].day + 4
    requires w in Days(hs) + Days(Substitutes(NextFreeWeekday, hs, k))
    ensures Blocks(hs, k, w, b, j)
  {
    if w in Days(hs) {
      return w, -1;
    }
    var subs := Substitutes(NextFreeWeekday, hs, k);
    j :| 0 <= j < |subs| && subs[j].day == w;
    assert Close(hs, k, j);
    WeekendOnes(hs, k);
    var held := OnWeekend(hs, k)[j];
    assert held in OnWeekend(hs, k) && held in hs[..k];
    var i :| 0 <= i < k && hs[i] == held;
    b := held.day;
  }

  lemma BlockersDiffer(hs: seq<Holiday>, k: nat, w: Day, b: Day, j: int, w': Day, b': Day, j': int)
    requires k < |hs| && StrictlyAscending(ByDay, hs) && CloseUpTo(hs, k)
    requires Blocks(hs, k, w, b, j) && Blocks(hs, k, w', b', j') && w != w'
    ensures b != b'
  {
    WeekendOnes(hs, k);
  }

  lemma OneMoreClose(hs: seq<Holiday>, k: nat)
    requires 0 < k <= |hs| && CloseUpTo(hs, k - 1)
    requires |Substitutes(NextFreeWeekday, hs, k)| == |OnWeekend(hs, k)|
    requires Weekend(hs[k - 1].day) ==>
               hs[k - 1].day < NextFree(hs[k - 1].day,
                 Days(hs) + Days(Substitutes(NextFreeWeekday, hs, k - 1))) <= hs[k - 1].day + 4
    ensures CloseUpTo(hs, k)
  {
    hide NextFree, Weekend, Days;
    forall j: nat | j < |OnWeekend(hs, k)| ensures Close(hs, k, j) {
      if j < |OnWeekend(hs, k - 1)| {
        assert Close(hs, k - 1, j);
      }
    }
  }

  lemma {:induction false} SubstitutesStayClose(hs: seq<Holiday>, k: nat)
    requires k <= |hs| && StrictlyAscending(ByDay, hs) && Sparse(Days(hs))
    ensures CloseUpTo(hs, k)
  {
    OneSubstituteEach(hs, k);
    if k == 0 {
    } else {
      SubstitutesStayClose(hs, k - 1);
      if Weekend(hs[k - 1].day) {
        FreeWithinFour(hs, k - 1);
      }
      hide CloseUpTo, OnWeekend, Substitutes, NextFree, Weekend, Days;
      OneMoreClose(hs, k);
    }
  }

  lemma ThreeWeekdays(h: Day) returns (u: Day)
    requires Weekend(h)
    ensures h < u <= h + 2 && !Weekend(u) && !Weekend(u + 1) && !Weekend(u + 2)
  {
    u := if Weekday(h) == SATURDAY then h + 2 else h + 1;
  }

  lemma NextFreeAtMost(day: Day, taken: set<Day>, free: Day)
    requires day <= free && !Weekend(free) && free !in taken
    ensures NextFree(day, taken) <= free
    ensures Weekend(day) ==> day < NextFree(day, taken)
  {
  }

  lemma ThreeFillThree(h: Day, a: Day, b: Day, c: Day, p: Day, q: Day, r: Day)
    requires a in {p, q, r} && b in {p, q, r} && c in {p, q, r} && h in {p, q, r}
    requires a != b && a != c && b != c
    ensures h == a || h == b || h == c
  {
  }

  /** Were three weekdays of the next four days all taken, each would be on account of a
      holiday of its own, and the cluster has no room for three besides the first. */
  lemma OneOfThreeIsFree(hs: seq<Holiday>, k: nat, u: Day) returns (free: Day)
    requires k < |hs| && StrictlyAscending(ByDay, hs) && Sparse(Days(hs)) && Weekend(hs[k].day)
    requires CloseUpTo(hs, k)
    requires hs[k].day < u <= hs[k].day + 2 && !Weekend(u) && !Weekend(u + 1) && !Weekend(u + 2)
    ensures u <= free <= u + 2 && !Weekend(free)
    ensures free !in Days(hs) + Days(Substitutes(NextFreeWeekday, hs, k))
  {
    var taken := Days(hs) + Days(Substitutes(NextFreeWeekday, hs, k));
    free := if u !in taken then u else if u + 1 !in taken then u + 1 else u + 2;
    if free in taken {
      var h := hs[k].day;
      assert hs[k] in hs && h in Days(hs);
      var b0, j0 := Blocker(hs, k, u);
      var b1, j1 := Blocker(hs, k, u + 1);
      var b2, j2 := Blocker(hs, k, u + 2);
      BlockersDiffer(hs, k, u, b0, j0, u + 1, b1, j1);
      BlockersDiffer(hs, k, u, b0, j0, u + 2, b2, j2);
      BlockersDiffer(hs, k, u + 1, b1, j1, u + 2, b2, j2);
      var p, q, r :| ClusterOf(Days(hs), h, p, q, r);
      ThreeFillThree(h, b0, b1, b2, p, q, r);
    }
  }

  lemma FreeWithinFour(hs: seq<Holiday>, k: nat)
    requires k < |hs| && StrictlyAscending(ByDay, hs) && Sparse(Days(hs)) && Weekend(hs[k].day)
    requires CloseUpTo(hs, k)
    ensures hs[k].day < NextFree(hs[k].day, Days(hs) + Days(Substitutes(NextFreeWeekday, hs, k))) <= hs[k].day + 4
  {
    var u := ThreeWeekdays(hs[k].day);
    var free := OneOfThreeIsFree(hs, k, u);
    NextFreeAtMost(hs[k].day, Days(hs) + Days(Substitutes(NextFreeWeekday, hs, k)), free);
  }

  // ----- Britain -----

  /** The standing rules of Britain's table that hold in a year, by their form. */
  ghost predicate StandingForm(on: On, year: int) {
    || on == Fixed(1, 1) || on == Fixed(1, 2) || on == Fixed(3, 17) || on == AfterEaster(-2) || on == AfterEaster(1)
    || (on == NthWeekday(1, MONDAY, 5) && year >= 1978)
    || on == LastWeekday(MONDAY, 5)
    || on == Fixed(7, 12) || on == NthWeekday(1, MONDAY, 8) || on == LastWeekday(MONDAY, 8)
    || on == Fixed(11, 30) || on == Fixed(12, 25) || on == Fixed(12, 26)
  }

  /** The days proclaimed for one year. */
  ghost predicate ProclaimedForm(on: On, year: int) {
    || (on == Fixed(5, 8) && (year == 2020 || year == 2023))
    || (on == Fixed(6, 4) && year == 2012) || (on == Fixed(6, 2) && year == 2022)
    || (on == Fixed(4, 29) && year == 2011) || (on == Fixed(6, 5) && year == 2012)
      || (on == Fixed(6, 3) && year == 2022)
    || (on == Fixed(9, 19) && year == 2022) || (on == Fixed(6, 15) && year == 2026)
  }

  lemma EarlyBritishForms(i: int, year: int)
    requires 0 <= i < 11 && GB.rules[i].HoldsInYear(year)
    ensures StandingForm(GB.rules[i].on, year) || ProclaimedForm(GB.rules[i].on, year)
  {
  }

  lemma LateBritishForms(i: int, year: int)
    requires 11 <= i < |GB.rules| && GB.rules[i].HoldsInYear(year)
    ensures StandingForm(GB.rules[i].on, year) || ProclaimedForm(GB.rules[i].on, year)
  {
  }

  lemma BritishForms(rule: Rule, year: int)
    ensures rule in GB.rules && rule.HoldsInYear(year) ==> StandingForm(rule.on, year) || ProclaimedForm(rule.on, year)
  {
    if rule in GB.rules && rule.HoldsInYear(year) {
      var i :| 0 <= i < |GB.rules| && GB.rules[i] == rule;
      if i < 11 {
        EarlyBritishForms(i, year);
      } else {
        LateBritishForms(i, year);
      }
    }
  }

  /** Where a British holiday can lie, and which of them can fall on a weekend. */
  ghost predicate BritishDay(day: Day, year: int, easter: Day) {
    var first, leap := NewYearsDay(year), if Leap(year) then 1 else 0;
    || day == first || day == first + 1
    || day == first + 75 + leap || day == easter - 2 || day == easter + 1
    || (year >= 1978 && first + 118 <= day <= first + 128 && !Weekend(day))
    || (first + 144 <= day <= first + 170 && !Weekend(day))
    || day == first + 192 + leap
    || (first + 212 <= day <= first + 262 && !Weekend(day))
    || day == first + 333 + leap || day == first + 358 + leap || day == first + 359 + leap
  }

  lemma NewYearsOfNote()
    ensures NewYearsDay(2011) == 734137 && NewYearsDay(2012) == 734502 && NewYearsDay(2020) == 737424
    ensures NewYearsDay(2022) == 738155 && NewYearsDay(2023) == 738520 && NewYearsDay(2026) == 739616
    ensures Leap(2012) && Leap(2020) && !Leap(2011) && !Leap(2022) && !Leap(2023) && !Leap(2026)
  {
  }

  /** None of the days proclaimed for one year is on a weekend. */
  lemma ProclaimedDays(on: On, year: int)
    requires ProclaimedForm(on, year)
    ensures year >= 1978 && !Weekend(DayOn(on, year))
    ensures var n := DayOn(on, year) - NewYearsDay(year); 118 <= n <= 128 || 144 <= n <= 170 || 212 <= n <= 262
  {
    NewYearsOfNote();
    hide NewYearsDay, Leap;
  }

  lemma MondayIsNoWeekend(day: Day)
    requires Weekday(day) == MONDAY
    ensures !Weekend(day)
  {
  }

  lemma MovingDays(on: On, year: int)
    requires StandingForm(on, year) && (on.NthWeekday? || on.LastWeekday?)
    ensures !Weekend(DayOn(on, year))
    ensures var n := DayOn(on, year) - NewYearsDay(year);
            (on.month == 5 && on.NthWeekday? && 118 <= n <= 128)
              || (on.month == 5 && on.LastWeekday? && 144 <= n <= 170) || 212 <= n <= 262
  {
    hide NewYearsDay, Leap, WeekdayFrom, WeekdayUpTo, Weekend, Computus.EasterSunday;
    MondayIsNoWeekend(DayOn(on, year));
  }

  lemma StandingDays(on: On, year: int)
    requires StandingForm(on, year)
    ensures BritishDay(DayOn(on, year), year, Computus.EasterSunday(year))
  {
    hide NewYearsDay, Leap, Weekday, WeekdayFrom, WeekdayUpTo, Computus.EasterSunday;
    if on.NthWeekday? || on.LastWeekday? {
      MovingDays(on, year);
    }
  }

  lemma BritishHolidays(region: string, year: int)
    ensures forall day :: day in Days(Standing(GB, region, year)) ==> BritishDay(day, year, Computus.EasterSunday(year))
  {
    StandingExactly(GB, region, year);
    forall day | day in Days(Standing(GB, region, year)) ensures BritishDay(day, year, Computus.EasterSunday(year)) {
      var rule := GivenByARule(GB.rules, region, year, day);
      BritishForms(rule, year);
      if StandingForm(rule.on, year) {
        StandingDays(rule.on, year);
      } else {
        ProclaimedDays(rule.on, year);
      }
    }
  }

  lemma BritainIsSparse(region: string, year: int)
    ensures Sparse(Days(Standing(GB, region, year)))
  {
    var days := Days(Standing(GB, region, year));
    BritishHolidays(region, year);
    Computus.EasterInItsYear(year);
    if year >= 1978 {
      Computus.EasterIsASunday(year);
    }
    forall h | h in days && Weekend(h) ensures exists p, q, r :: ClusterOf(days, h, p, q, r) {
      BritishCluster(days, h, year, Computus.EasterSunday(year));
    }
  }

  lemma AroundASunday(day: Day)
    requires Weekday(day) == SUNDAY
    ensures !Weekend(day - 2) && !Weekend(day + 1)
  {
  }

  /** The weekend holidays and their neighbours; from 1978 on, as in every year of the common
      era, Good Friday is a Friday and Easter Monday a Monday. */
  lemma BritishCluster(days: set<Day>, h: Day, year: int, easter: Day)
    requires forall day :: day in days ==> BritishDay(day, year, easter)
    requires NewYearsDay(year) + 41 <= easter <= NewYearsDay(year) + 122
    requires year >= 1978 ==> Weekday(easter) == SUNDAY
    requires h in days && Weekend(h)
    ensures exists p, q, r :: ClusterOf(days, h, p, q, r)
  {
    var first, leap := NewYearsDay(year), if Leap(year) then 1 else 0;
    if year >= 1978 {
      AroundASunday(easter);
    }
    if h <= first + 1 {
      assert ClusterOf(days, h, first, first + 1, first);
    } else if h < first + 140 {
      assert ClusterOf(days, h, first + 75 + leap, easter - 2, easter + 1);
    } else if h < first + 340 {
      assert ClusterOf(days, h, h, h, h);
    } else {
      assert ClusterOf(days, h, first + 358 + leap, first + 359 + leap, first + 358 + leap);
    }
  }

  lemma LastDaysOfTheYear(h: Day, year: int)
    requires NewYearsDay(year) <= h <= DateOf(year, 12, 26)
    ensures forall day :: h <= day <= h + 4 ==> YearOf(day) == year
  {
    YearsFollow(year);
    forall day | h <= day <= h + 4 ensures YearOf(day) == year {
      YearIsUnique(day, year);
    }
  }

  lemma BritishYear(day: Day, year: int)
    ensures BritishDay(day, year, Computus.EasterSunday(year)) ==> NewYearsDay(year) <= day <= DateOf(year, 12, 26)
  {
    Computus.EasterInItsYear(year);
  }

  /** Britain keeps every substitute in the year of its holiday. */
  lemma BritainStaysInItsYear(region: string, year: int)
    ensures GB.Valid()
    ensures forall h :: h in YearOfHolidays(GB, region, year) ==> YearOf(h.day) == year
  {
    var hs := Standing(GB, region, year);
    StandingExactly(GB, region, year);
    BritainIsSparse(region, year);
    SubstitutesStayClose(hs, |hs|);
    NextFreeYear(GB, region, year);
    hide Standing, Substitutes, YearOfHolidays, StrictlyAscending, OnWeekend;
    forall h | h in Substitutes(NextFreeWeekday, hs, |hs|) ensures YearOf(h.day) == year {
      var j :| 0 <= j < |Substitutes(NextFreeWeekday, hs, |hs|)| && Substitutes(NextFreeWeekday, hs, |hs|)[j] == h;
      assert Close(hs, |hs|, j);
      BritishHolidayOf(region, year, j);
      LastDaysOfTheYear(OnWeekend(hs, |hs|)[j].day, year);
    }
  }

  lemma BritishHolidayOf(region: string, year: int, j: nat)
    requires GB.Valid() && j < |OnWeekend(Standing(GB, region, year), |Standing(GB, region, year)|)|
    ensures var hs := Standing(GB, region, year);
            NewYearsDay(year) <= OnWeekend(hs, |hs|)[j].day <= DateOf(year, 12, 26)
  {
    var hs := Standing(GB, region, year);
    var weekend := OnWeekend(hs, |hs|);
    StandingExactly(GB, region, year);
    WeekendOnes(hs, |hs|);
    BritishHolidays(region, year);
    hide Standing, OnWeekend, StrictlyAscending, BritishDay;
    assert weekend[j] in weekend && hs[..|hs|] == hs;
    assert weekend[j].day in Days(hs);
    BritishYear(weekend[j].day, year);
  }

  // ----- the United States -----

  /** Where a federal holiday can lie, by its number in the table. */
  ghost predicate FederalDay(day: Day, year: int, n: int) {
    var first, leap := NewYearsDay(year), if Leap(year) then 1 else 0;
    match n
    case 0 => day == first
    case 1 => first + 14 <= day <= first + 20 && day == WeekdayFrom(MONDAY, first) + 14
    case 2 => first + 45 <= day <= first + 51 && day == WeekdayFrom(MONDAY, first + 31) + 14
    case 3 => first + 144 <= day <= first + 151 && day == WeekdayUpTo(MONDAY, first + leap + 150)
    case 4 => day == first + leap + 169
    case 5 => day == first + leap + 184
    case 6 => first + 243 <= day <= first + 250 && day == WeekdayFrom(MONDAY, first + leap + 243)
    case 7 => first + 280 <= day <= first + 287 && day == WeekdayFrom(MONDAY, first + leap + 273) + 7
    case 8 => day == first + leap + 314
    case 9 => first + 325 <= day <= first + 332 && day == WeekdayFrom(THURSDAY, first + leap + 304) + 21
    case _ => n == 10 && day == first + leap + 358
  }

  function FederalForm(n: int): On
    requires 0 <= n <= 10
  {
    match n
    case 0 => Fixed(1, 1)
    case 1 => NthWeekday(3, MONDAY, 1)
    case 2 => NthWeekday(3, MONDAY, 2)
    case 3 => LastWeekday(MONDAY, 5)
    case 4 => Fixed(6, 19)
    case 5 => Fixed(7, 4)
    case 6 => NthWeekday(1, MONDAY, 9)
    case 7 => NthWeekday(2, MONDAY, 10)
    case 8 => Fixed(11, 11)
    case 9 => NthWeekday(4, THURSDAY, 11)
    case _ => Fixed(12, 25)
  }

  lemma FederalForms(rule: Rule) returns (n: int)
    requires rule in US.rules
    ensures 0 <= n <= 10 && rule.on == FederalForm(n)
  {
    n :| 0 <= n < |US.rules| && US.rules[n] == rule;
  }

  lemma FederalDays(n: int, year: int)
    requires 0 <= n <= 10
    ensures FederalDay(DayOn(FederalForm(n), year), year, n)
  {
    hide NewYearsDay, Leap, Weekday, WeekdayFrom, WeekdayUpTo, Computus.EasterSunday;
  }

  /** Any two federal holidays, of one year or of two, are at least three days apart. */
  lemma FederalApart(a: Day, y: int, m: int, b: Day, z: int, n: int)
    requires FederalDay(a, y, m) && FederalDay(b, z, n)
    ensures a == b || a + 3 <= b || b + 3 <= a
  {
    hide NewYearsDay, Leap, Weekday, WeekdayFrom, WeekdayUpTo;
    YearsFollow(y);
    YearsFollow(z);
    if y < z {
      YearsAscend(y + 1, z);
    } else if z < y {
      YearsAscend(z + 1, y);
    }
  }

  lemma FederalHolidays(region: string, year: int, day: Day) returns (n: int)
    requires day in Days(Standing(US, region, year))
    ensures 0 <= n <= 10 && FederalDay(day, year, n) && YearOf(day) == year
  {
    StandingExactly(US, region, year);
    var rule := GivenByARule(US.rules, region, year, day);
    n := FederalForms(rule);
    FederalDays(n, year);
    RuleStaysInItsYear(rule.on, year);
  }

  /** Each weekend holiday has one substitute, the weekday beside it, under its name. */
  lemma {:induction false} OneNeighbourEach(hs: seq<Holiday>, k: nat)
    requires k <= |hs|
    ensures |Substitutes(NearestWeekday, hs, k)| == |OnWeekend(hs, k)|
    ensures forall j :: 0 <= j < |OnWeekend(hs, k)|
                        ==> IsNeighbour(Substitutes(NearestWeekday, hs, k)[j], OnWeekend(hs, k)[j])
  {
    if k == 0 {
    } else {
      OneNeighbourEach(hs, k - 1);
    }
  }

  ghost predicate IsNeighbour(s: Holiday, held: Holiday) {
    s.substitute && s.name == held.name && Nearest(held.day) == Some(s.day)
  }

  /** A holiday itself, or the substitute beside it. */
  ghost predicate KeptFor(h: Holiday, held: Day) {
    if h.substitute then Nearest(held) == Some(h.day) else h.day == held
  }

  lemma KeptForWhich(region: string, year: int, h: Holiday) returns (held: Day)
    requires US.Valid() && h in YearOfHolidays(US, region, year)
    ensures held in Days(Standing(US, region, year)) && KeptFor(h, held)
  {
    var hs := Standing(US, region, year);
    StandingExactly(US, region, year);
    var subs := Substitutes(NearestWeekday, hs, |hs|);
    SortBySorts(ByDay, hs + subs);
    assert h in hs + subs;
    if h in hs {
      return h.day;
    }
    OneNeighbourEach(hs, |hs|);
    WeekendOnes(hs, |hs|);
    var j :| 0 <= j < |subs| && subs[j] == h;
    assert IsNeighbour(subs[j], OnWeekend(hs, |hs|)[j]);
    assert OnWeekend(hs, |hs|)[j] in OnWeekend(hs, |hs|);
    held := OnWeekend(hs, |hs|)[j].day;
  }

  /** Holidays three days apart are kept on different days. */
  lemma KeptApart(h: Holiday, held: Day, other: Holiday, otherHeld: Day)
    requires KeptFor(h, held) && KeptFor(other, otherHeld)
    requires held == otherHeld || held + 3 <= otherHeld || otherHeld + 3 <= held
    ensures h.day == other.day ==> held == otherHeld && h.substitute == other.substitute
  {
  }

  /** A holiday's substitute is for one that is a holiday of the year. */
  lemma HeldBy(hs: seq<Holiday>, j: nat)
    requires StrictlyAscending(ByDay, hs)
    requires |Substitutes(NearestWeekday, hs, |hs|)| == |OnWeekend(hs, |hs|)|
    requires j < |Substitutes(NearestWeekday, hs, |hs|)|
    ensures var s, held := Substitutes(NearestWeekday, hs, |hs|)[j], OnWeekend(hs, |hs|)[j];
            s.substitute && KeptFor(s, held.day) && held in hs
  {
    OneNeighbourEach(hs, |hs|);
    WeekendOnes(hs, |hs|);
    hide Substitutes, OnWeekend, Nearest;
    assert IsNeighbour(Substitutes(NearestWeekday, hs, |hs|)[j], OnWeekend(hs, |hs|)[j]);
    assert OnWeekend(hs, |hs|)[j] in OnWeekend(hs, |hs|) && hs[..|hs|] == hs;
  }

  /** Of one year, only the substitute and the substituted are for the same holiday. */
  lemma FederalPair(region: string, year: int, x: Holiday, held: Holiday, y: Holiday, otherHeld: Holiday)
    requires held in Standing(US, region, year) && otherHeld in Standing(US, region, year)
    requires KeptFor(x, held.day) && KeptFor(y, otherHeld.day)
    ensures x.day == y.day ==> held.day == otherHeld.day && x.substitute == y.substitute
  {
    hide Standing, KeptFor, FederalDay;
    var m := FederalHolidays(region, year, held.day);
    var n := FederalHolidays(region, year, otherHeld.day);
    FederalApart(held.day, year, m, otherHeld.day, year, n);
    KeptApart(x, held.day, y, otherHeld.day);
  }

  lemma DaysApart(hs: seq<Holiday>, i: nat, j: nat)
    requires StrictlyAscending(ByDay, hs) && i < j < |hs|
    ensures hs[i].day < hs[j].day
  {
  }

  function FederalSubstitutes(region: string, year: int): seq<Holiday>
    requires US.Valid()
  {
    Substitutes(NearestWeekday, Standing(US, region, year), |Standing(US, region, year)|)
  }

  /** A year's holidays and their substitutes, not yet sorted together. */
  function FederalDaysOf(region: string, year: int): seq<Holiday>
    requires US.Valid()
  {
    Standing(US, region, year) + FederalSubstitutes(region, year)
  }

  /** The j-th substitute of a federal year is for the j-th of its weekend holidays. */
  lemma FederalSubstitute(region: string, year: int, j: nat)
    requires US.Valid()
    ensures var hs, subs := Standing(US, region, year), FederalSubstitutes(region, year);
            && |OnWeekend(hs, |hs|)| == |subs|
            && (j < |subs| ==>
                  subs[j].substitute && KeptFor(subs[j], OnWeekend(hs, |hs|)[j].day) && OnWeekend(hs, |hs|)[j] in hs)
  {
    var hs := Standing(US, region, year);
    StandingExactly(US, region, year);
    OneNeighbourEach(hs, |hs|);
    if j < |FederalSubstitutes(region, year)| {
      HeldBy(hs, j);
    }
  }

  lemma NoFederalHolidayTwice(region: string, year: int, i: nat, j: nat)
    requires US.Valid()
    ensures i < j < |Standing(US, region, year)|
      ==> Standing(US, region, year)[i].day < Standing(US, region, year)[j].day
  {
    StandingExactly(US, region, year);
    if i < j < |Standing(US, region, year)| {
      hide Standing, StrictlyAscending;
      DaysApart(Standing(US, region, year), i, j);
    }
  }

  lemma FederalHolidayAndSubstitute(region: string, year: int, i: nat, j: nat)
    requires US.Valid()
    ensures i < |Standing(US, region, year)| && j < |FederalSubstitutes(region, year)| ==>
              Standing(US, region, year)[i].day != FederalSubstitutes(region, year)[j].day
  {
    var hs := Standing(US, region, year);
    StandingExactly(US, region, year);
    FederalSubstitute(region, year, j);
    hide Standing, FederalSubstitutes, OnWeekend, StrictlyAscending, FirstRuleNames, SomeRuleGives;
    if i < |hs| && j < |FederalSubstitutes(region, year)| {
      assert hs[i] in hs;
      FederalPair(region, year, hs[i], hs[i], FederalSubstitutes(region, year)[j], OnWeekend(hs, |hs|)[j]);
    }
  }

  lemma TwoFederalSubstitutes(region: string, year: int, i: nat, j: nat)
    requires US.Valid()
    ensures i < j < |FederalSubstitutes(region, year)| ==>
              FederalSubstitutes(region, year)[i].day != FederalSubstitutes(region, year)[j].day
  {
    var hs := Standing(US, region, year);
    StandingExactly(US, region, year);
    WeekendOnes(hs, |hs|);
    FederalSubstitute(region, year, i);
    FederalSubstitute(region, year, j);
    hide Standing, FederalSubstitutes, OnWeekend, StrictlyAscending, FirstRuleNames, SomeRuleGives, KeptFor;
    var subs, weekend := FederalSubstitutes(region, year), OnWeekend(hs, |hs|);
    if i < j < |subs| {
      DaysApart(weekend, i, j);
      FederalPair(region, year, subs[i], weekend[i], subs[j], weekend[j]);
    }
  }

  lemma FederalDaysDiffer(region: string, year: int, i: nat, j: nat)
    requires US.Valid()
    ensures i < j < |FederalDaysOf(region, year)|
      ==> FederalDaysOf(region, year)[i].day != FederalDaysOf(region, year)[j].day
  {
    var hs, subs := Standing(US, region, year), FederalSubstitutes(region, year);
    assert FederalDaysOf(region, year) == hs + subs;
    hide Standing, FederalSubstitutes, FederalDaysOf;
    if i < j < |hs + subs| {
      if j < |hs| {
        NoFederalHolidayTwice(region, year, i, j);
      } else if i < |hs| {
        FederalHolidayAndSubstitute(region, year, i, j - |hs|);
      } else {
        TwoFederalSubstitutes(region, year, i - |hs|, j - |hs|);
      }
    }
  }

  lemma FederalYearAscends(region: string, year: int)
    ensures US.Valid()
    ensures StrictlyAscending(ByDay, YearOfHolidays(US, region, year))
  {
    var all := FederalDaysOf(region, year);
    assert YearOfHolidays(US, region, year) == SortBy(ByDay, all);
    hide FederalDaysOf, YearOfHolidays, StrictlyAscending, SortBy;
    forall i, j | 0 <= i < j < |all| ensures all[i].day != all[j].day {
      FederalDaysDiffer(region, year, i, j);
    }
    DistinctSortsStrictly(ByDay, all);
  }

  // ----- the window ascends -----

  lemma {:induction false} InYearSplits(a: seq<Holiday>, b: seq<Holiday>, year: int)
    ensures InYear(a + b, year) == InYear(a, year) + InYear(b, year)
  {
    if b == [] {
      assert a + b == a;
    } else {
      assert (a + b)[..|a + b| - 1] == a + b[..|b| - 1];
      InYearSplits(a, b[..|b| - 1], year);
    }
  }

  lemma {:induction false} InYearAscends(hs: seq<Holiday>, year: int)
    requires StrictlyAscending(ByDay, hs)
    ensures StrictlyAscending(ByDay, InYear(hs, year))
  {
    if hs == [] {
    } else {
      InYearAscends(hs[..|hs| - 1], year);
      InYearMembers(hs[..|hs| - 1], year);
      forall h | h in InYear(hs[..|hs| - 1], year) ensures h.day < hs[|hs| - 1].day {
        assert h in hs[..|hs| - 1];
      }
    }
  }

  lemma {:induction false} InYearAll(hs: seq<Holiday>, year: int, other: int)
    requires forall h :: h in hs ==> YearOf(h.day) == other
    ensures InYear(hs, year) == if year == other then hs else []
  {
    if hs == [] {
    } else {
      InYearAll(hs[..|hs| - 1], year, other);
      assert hs == hs[..|hs| - 1] + [hs[|hs| - 1]];
    }
  }

  /** Where no substitute leaves its year, the window is the year itself. */
  lemma WindowIsTheYear(c: Country, region: string, year: int)
    requires c.Valid()
    requires forall y, h :: h in YearOfHolidays(c, region, y) ==> YearOf(h.day) == y
    ensures Window(c, region, year) == YearOfHolidays(c, region, year)
  {
    var a, b, d := YearOfHolidays(c, region, year - 1), YearOfHolidays(c, region, year),
      YearOfHolidays(c, region, year + 1);
    InYearSplits(a + b, d, year);
    InYearSplits(a, b, year);
    InYearAll(a, year, year - 1);
    InYearAll(b, year, year);
    InYearAll(d, year, year + 1);
  }

  /** Entries that years beside each other give one year: only its first day can come from
      the year before, and only its last from the year after. */
  lemma FederalNeighbourYears(region: string, y: int, x: Holiday, z: int, w: Holiday)
    requires US.Valid() && y < z
    requires x in YearOfHolidays(US, region, y) && w in YearOfHolidays(US, region, z)
    ensures x.day < w.day
  {
    var a := KeptForWhich(region, y, x);
    var b := KeptForWhich(region, z, w);
    var m := FederalHolidays(region, y, a);
    var n := FederalHolidays(region, z, b);
    assert a < b by {
      if b <= a {
        YearsOrdered(b, a);
      }
    }
    FederalApart(a, y, m, b, z, n);
    KeptInOrder(x, a, w, b);
  }

  lemma KeptInOrder(h: Holiday, held: Day, other: Holiday, otherHeld: Day)
    requires KeptFor(h, held) && KeptFor(other, otherHeld) && held + 3 <= otherHeld
    ensures h.day < other.day
  {
  }

  lemma FederalWindowAscends(region: string, year: int)
    ensures US.Valid() && StrictlyAscending(ByDay, Window(US, region, year))
  {
    var a, b, d := YearOfHolidays(US, region, year - 1), YearOfHolidays(US, region, year),
      YearOfHolidays(US, region, year + 1);
    var ia, ib, id := InYear(a, year), InYear(b, year), InYear(d, year);
    InYearSplits(a + b, d, year);
    InYearSplits(a, b, year);
    assert Window(US, region, year) == ia + ib + id;
    FederalYearAscends(region, year - 1);
    FederalYearAscends(region, year);
    FederalYearAscends(region, year + 1);
    InYearAscends(a, year);
    InYearAscends(b, year);
    InYearAscends(d, year);
    InYearMembers(a, year);
    InYearMembers(b, year);
    InYearMembers(d, year);
    forall x, w | x in ia && w in ib ensures x.day < w.day {
      FederalNeighbourYears(region, year - 1, x, year, w);
    }
    forall x, w | x in ia && w in id ensures x.day < w.day {
      FederalNeighbourYears(region, year - 1, x, year + 1, w);
    }
    forall x, w | x in ib && w in id ensures x.day < w.day {
      FederalNeighbourYears(region, year, x, year + 1, w);
    }
    AscendsInThree(ia, ib, id);
  }

  lemma AscendsInThree(a: seq<Holiday>, b: seq<Holiday>, c: seq<Holiday>)
    requires StrictlyAscending(ByDay, a) && StrictlyAscending(ByDay, b) && StrictlyAscending(ByDay, c)
    requires forall x, y :: x in a && y in b ==> x.day < y.day
    requires forall x, y :: x in a && y in c ==> x.day < y.day
    requires forall x, y :: x in b && y in c ==> x.day < y.day
    ensures StrictlyAscending(ByDay, a + b + c)
  {
    var s := a + b + c;
    forall i, j | 0 <= i < j < |s| ensures s[i].day < s[j].day {
      assert s[i] in a || s[i] in b || s[i] in c;
      assert s[j] in a || s[j] in b || s[j] in c;
    }
  }

  lemma CountryWindowAscends(c: Country, region: string, year: int)
    requires c.Valid()
    requires c.substitution == NextFreeWeekday ==> c == GB
    requires c.substitution == NearestWeekday ==> c == US
    ensures StrictlyAscending(ByDay, Window(c, region, year))
  {
    if c.substitution == NearestWeekday {
      FederalWindowAscends(region, year);
    } else {
      forall y, h | h in YearOfHolidays(c, region, y) ensures YearOf(h.day) == y {
        if c.substitution == WhereItFalls {
          StandingExactly(c, region, y);
        } else {
          BritainStaysInItsYear(region, y);
        }
      }
      WindowIsTheYear(c, region, year);
      StandingExactly(c, region, year);
      if c.substitution == NextFreeWeekday {
        NextFreeYear(c, region, year);
      }
    }
  }

  /** In every place and every year the holidays ascend strictly, so no day is kept twice. */
  lemma HolidaysAscend(place: string, year: int)
    ensures StrictlyAscending(ByDay, HolidaysOf(place, year))
  {
    if ValidPlace(place) {
      var (code, region, _) := CutAt(place, '-');
      var c := CountryOf(code).value;
      CountriesValid(code);
      WhoSubstitutes(code);
      CountryWindowAscends(c, region, year);
    }
  }

  // ----- across New Year -----

  lemma FirstRuleFirst(c: Country, region: string, year: int, day: Day) returns (h: Holiday)
    requires c.Valid() && c.rules != [] && RuleGives(c.rules[0], region, year, day)
    ensures h in Standing(c, region, year) && h == Holiday(day, c.rules[0].name, false)
  {
    StandingExactly(c, region, year);
    forall k | 0 < k <= |c.rules| ensures SomeRuleGives(c.rules[..k], region, year, day) {
      assert RuleGives(c.rules[..k][0], region, year, day);
    }
    assert c.rules[..|c.rules|] == c.rules;
    h :| h in Standing(c, region, year) && h.day == day;
    var i :| 0 <= i < |c.rules| && RuleGives(c.rules[i], region, year, h.day) && h.name == c.rules[i].name
             && !SomeRuleGives(c.rules[..i], region, year, h.day);
  }

  lemma SubstituteOf(hs: seq<Holiday>, held: Holiday) returns (s: Holiday)
    requires StrictlyAscending(ByDay, hs) && held in hs && Weekend(held.day)
    ensures s in Substitutes(NearestWeekday, hs, |hs|) && IsNeighbour(s, held)
  {
    OneNeighbourEach(hs, |hs|);
    WeekendOnes(hs, |hs|);
    assert hs[..|hs|] == hs;
    var weekend := OnWeekend(hs, |hs|);
    assert held in weekend;
    var j :| 0 <= j < |weekend| && weekend[j] == held;
    s := Substitutes(NearestWeekday, hs, |hs|)[j];
  }

  lemma NewYearRule(region: string, year: int)
    ensures US.Valid() && US.rules != [] && US.substitution == NearestWeekday
    ensures RuleGives(US.rules[0], region, year, NewYearsDay(year)) && US.rules[0].name == "newYear"
  {
  }

  lemma SaturdayKeptOnFriday(c: Country, region: string, year: int, day: Day)
    requires c.Valid() && c.rules != [] && c.substitution == NearestWeekday
    ensures RuleGives(c.rules[0], region, year, day) && Weekday(day) == SATURDAY ==>
              Holiday(day - 1, c.rules[0].name, true) in YearOfHolidays(c, region, year)
  {
    if RuleGives(c.rules[0], region, year, day) && Weekday(day) == SATURDAY {
      var hs := Standing(c, region, year);
      var held := FirstRuleFirst(c, region, year, day);
      StandingExactly(c, region, year);
      var s := SubstituteOf(hs, held);
      SortBySorts(ByDay, hs + Substitutes(NearestWeekday, hs, |hs|));
      assert s in hs + Substitutes(NearestWeekday, hs, |hs|);
    }
  }

  lemma DayBeforeNewYear(year: int)
    ensures YearOf(NewYearsDay(year) - 1) == year - 1
  {
    YearsFollow(year - 1);
    YearIsUnique(NewYearsDay(year) - 1, year - 1);
  }

  /** A New Year's Day on a Saturday is kept, in the United States, on the last day of the
      old year, and the old year's holidays hold it. */
  lemma NewYearKeptInTheOldYear(region: string, year: int)
    requires Weekday(NewYearsDay(year)) == SATURDAY
    ensures US.Valid() && Holiday(NewYearsDay(year) - 1, "newYear", true) in Window(US, region, year - 1)
    ensures YearOf(NewYearsDay(year) - 1) == year - 1
  {
    NewYearRule(region, year);
    SaturdayKeptOnFriday(US, region, year, NewYearsDay(year));
    DayBeforeNewYear(year);
    WindowIsComplete(US, region, year - 1);
  }

  // ----- rules that overlap -----

  lemma ReformationRule(region: string)
    ensures DE.Valid() && |DE.rules| > 19 && RuleGives(DE.rules[19], region, 2017, DateOf(2017, 10, 31))
  {
  }

  lemma OnceADay(hs: seq<Holiday>, h: Holiday, other: Holiday)
    requires StrictlyAscending(ByDay, hs) && h in hs && other in hs && h.day == other.day
    ensures h == other
  {
  }

  lemma StandsOnce(c: Country, region: string, year: int, day: Day) returns (h: Holiday)
    requires c.Valid() && SomeRuleGives(c.rules, region, year, day)
    ensures h in Standing(c, region, year) && h.day == day && FirstRuleNames(c.rules, region, year, h)
    ensures forall other :: other in Standing(c, region, year) && other.day == day ==> other == h
  {
    hide SomeRuleGives, FirstRuleNames, StrictlyAscending, Standing;
    StandingExactly(c, region, year);
    h :| h in Standing(c, region, year) && h.day == day;
    forall other | other in Standing(c, region, year) && other.day == day ensures other == h {
      OnceADay(Standing(c, region, year), h, other);
    }
  }

  lemma NamedByTheFirst(rules: seq<Rule>, region: string, year: int, h: Holiday, i: nat)
    requires FirstRuleNames(rules, region, year, h) && i < |rules| && RuleGives(rules[i], region, year, h.day)
    ensures exists k :: 0 <= k <= i && RuleGives(rules[k], region, year, h.day) && h.name == rules[k].name
  {
    var k :| 0 <= k < |rules| && RuleGives(rules[k], region, year, h.day) && h.name == rules[k].name
             && !SomeRuleGives(rules[..k], region, year, h.day);
    assert forall m :: 0 <= m < k ==> rules[..k][m] == rules[m];
  }

  /** Where two rules give one day, a place keeps it once, under the name of the earlier of them
      or of one before that, in any country, region and year. */
  lemma OverlapsAreKeptOnce(c: Country, region: string, year: int, i: nat, j: nat, day: Day) returns (h: Holiday)
    requires c.Valid() && i < j < |c.rules|
    requires RuleGives(c.rules[i], region, year, day) && RuleGives(c.rules[j], region, year, day)
    ensures h in Standing(c, region, year) && h.day == day
    ensures forall other :: other in Standing(c, region, year) && other.day == day ==> other == h
    ensures exists k :: 0 <= k <= i && RuleGives(c.rules[k], region, year, day) && h.name == c.rules[k].name
  {
    hide RuleGives, Standing, FirstRuleNames;
    assert SomeRuleGives(c.rules, region, year, day);
    h := StandsOnce(c, region, year, day);
    NamedByTheFirst(c.rules, region, year, h, i);
  }

  /** In 2017 every German state kept 31 October, and once, whether its own rule gave it or
      the rule of that year or both. */
  lemma ReformationKeptOnce(region: string) returns (h: Holiday)
    ensures DE.Valid() && h in Standing(DE, region, 2017) && h.day == DateOf(2017, 10, 31)
    ensures forall other :: other in Standing(DE, region, 2017) && other.day == h.day ==> other == h
  {
    hide RuleGives, Standing, FirstRuleNames;
    ReformationRule(region);
    var c := DE;
    RuleGivesADay(c.rules, region, 2017, 19, DateOf(2017, 10, 31));
    h := StandsOnce(DE, region, 2017, DateOf(2017, 10, 31));
  }

  lemma RuleGivesADay(rules: seq<Rule>, region: string, year: int, i: nat, day: Day)
    requires i < |rules| && RuleGives(rules[i], region, year, day)
    ensures SomeRuleGives(rules, region, year, day)
  {
  }
}
