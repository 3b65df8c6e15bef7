/** From the rules of a country to a year of days: first those the rules give, and then those
    that are taken for a Saturday or a Sunday among them. */
module HolidayYear {
  import opened Options
  import opened Calendar
  import opened HolidayRules
  import opened Sorting

  datatype Holiday = Holiday(day: Day, name: string, substitute: bool)

  /** What a country does with a holiday on a weekend; WhereItFalls is the source's nil. */
  datatype Substitution = WhereItFalls | NextFreeWeekday | NearestWeekday

  datatype Country = Country(
    rules: seq<Rule>,
    nameonly regions: seq<string> := [],
    nameonly regionRequired: bool := false,
    nameonly substitution: Substitution := WhereItFalls)
  {
    /** Sixty rules are more than any country has, and few enough that no substitute
        can be pushed a whole year on. */
    predicate Valid() {
      |rules| <= 60
    }
  }

  function ByDay(h: Holiday): int { h.day }

  function Days(hs: seq<Holiday>): set<Day> {
    set h | h in hs :: h.day
  }

  // ----- the next free weekday -----

  function OnOrAfter(day: Day, taken: set<Day>): set<Day> {
    set t | t in taken && t >= day
  }

  /** An upper bound on the days nextFreeWeekday walks past. */
  function Room(day: Day, taken: set<Day>): nat {
    3 * |OnOrAfter(day, taken)| + (if Weekday(day) == SATURDAY then 2 else if Weekday(day) == SUNDAY then 1 else 0)
  }

  lemma RoomShrinks(day: Day, taken: set<Day>)
    requires Weekend(day) || day in taken
    ensures Room(day + 1, taken) < Room(day, taken)
  {
    if day in taken {
      assert OnOrAfter(day, taken) == OnOrAfter(day + 1, taken) + {day};
    } else {
      assert OnOrAfter(day, taken) == OnOrAfter(day + 1, taken);
    }
  }

  /** The first day from a day on that is a weekday and not taken. */
  function NextFree(day: Day, taken: set<Day>): (r: Day)
    ensures day <= r <= day + Room(day, taken)
    ensures !Weekend(r) && r !in taken
    ensures forall e :: day <= e < r ==> Weekend(e) || e in taken
    decreases Room(day, taken)
  {
    if Weekend(day) || day in taken then
      RoomShrinks(day, taken);
      NextFree(day + 1, taken)
    else day
  }

  method FindNextFree(from: Day, taken: set<Day>) returns (instead: Option<Day>)
    ensures instead == if Weekend(from) then Some(NextFree(from, taken)) else None
  {
    if !Weekend(from) {
      return None;
    }
    var day := from;
    while Weekend(day) || day in taken
      invariant NextFree(day, taken) == NextFree(from, taken)
      decreases Room(day, taken)
    {
      RoomShrinks(day, taken);
      day := day + 1;
    }
    return Some(day);
  }

  /** The weekday beside a weekend day. */
  function Nearest(day: Day): (instead: Option<Day>)
    ensures instead.Some? <==> Weekend(day)
    ensures instead.Some? ==> !Weekend(instead.value) && (instead.value == day - 1 || instead.value == day + 1)
  {
    if Weekday(day) == SATURDAY then Some(day - 1)
    else if Weekday(day) == SUNDAY then Some(day + 1)
    else None
  }

  // ----- the year -----

  /** The holidays of the rules that hold, in the order of the rules, without those whose
      day an earlier rule gave already. */
  function Kept(rules: seq<Rule>, region: string, year: int): seq<Holiday>
  {
    if rules == [] then []
    else
      var before := Kept(rules[..|rules| - 1], region, year);
      var rule := rules[|rules| - 1];
      if rule.HoldsIn(region, year) && DayOn(rule.on, year) !in Days(before)
      then before + [Holiday(DayOn(rule.on, year), rule.name, false)]
      else before
  }

  function Instead(substitution: Substitution, day: Day, taken: set<Day>): Option<Day> {
    match substitution
    case WhereItFalls => None
    case NextFreeWeekday => if Weekend(day) then Some(NextFree(day, taken)) else None
    case NearestWeekday => Nearest(day)
  }

  /** The substitutes for the first k holidays, in their order. */
  function Substitutes(substitution: Substitution, hs: seq<Holiday>, k: nat): (subs: seq<Holiday>)
    requires k <= |hs|
    ensures |subs| <= k
  {
    if k == 0 then []
    else
      var before := Substitutes(substitution, hs, k - 1);
      match Instead(substitution, hs[k - 1].day, Days(hs) + Days(before))
      case None => before
      case Some(day) => before + [Holiday(day, hs[k - 1].name, true)]
  }

  function Standing(c: Country, region: string, year: int): seq<Holiday>
    requires c.Valid()
  {
    SortBy(ByDay, Kept(c.rules, region, year))
  }

  function YearOfHolidays(c: Country, region: string, year: int): seq<Holiday>
    requires c.Valid()
  {
    var hs := Standing(c, region, year);
    if c.substitution == WhereItFalls then hs
    else SortBy(ByDay, hs + Substitutes(c.substitution, hs, |hs|))
  }

  lemma DaysAppend(hs: seq<Holiday>, h: Holiday)
    ensures Days(hs + [h]) == Days(hs) + {h.day}
  {
    assert forall x :: x in hs + [h] <==> x in hs || x == h;
  }

  /** The first pass of the year: the rules that hold, each day once. */
  method KeepHolding(rules: seq<Rule>, region: string, year: int) returns (holidays: seq<Holiday>, taken: set<Day>)
    ensures holidays == Kept(rules, region, year) && taken == Days(holidays)
  {
    holidays, taken := [], {};
    for i := 0 to |rules|
      invariant holidays == Kept(rules[..i], region, year)
      invariant taken == Days(holidays)
    {
      var rule := rules[i];
      assert rules[..i + 1][..i] == rules[..i];
      if rule.HoldsIn(region, year) {
        var day := FindDay(rule.on, year);
        if day !in taken {
          DaysAppend(holidays, Holiday(day, rule.name, false));
          taken := taken + {day};
          holidays := holidays + [Holiday(day, rule.name, false)];
        }
      }
    }
    assert rules[..|rules|] == rules;
  }

  /** The second pass: the substitutes, each for the days taken so far. */
  method AddSubstitutes(substitution: Substitution, hs: seq<Holiday>, kept: set<Day>) returns (holidays: seq<Holiday>)
    requires kept == Days(hs)
    ensures holidays == hs + Substitutes(substitution, hs, |hs|)
  {
    var taken := kept;
    holidays := hs;
    ghost var subs := Substitutes(substitution, hs, 0);
    for k := 0 to |hs|
      invariant subs == Substitutes(substitution, hs, k)
      invariant holidays == hs + subs
      invariant taken == Days(hs) + Days(subs)
    {
      var instead := None;
      if substitution == NextFreeWeekday {
        instead := FindNextFree(hs[k].day, taken);
      } else if substitution == NearestWeekday {
        instead := Nearest(hs[k].day);
      }
      if instead.Some? {
        var substitute := Holiday(instead.value, hs[k].name, true);
        DaysAppend(subs, substitute);
        taken := taken + {instead.value};
        holidays := holidays + [substitute];
        subs := subs + [substitute];
      }
    }
  }

  method HolidaysOfYear(c: Country, region: string, year: int) returns (holidays: seq<Holiday>)
    requires c.Valid()
    ensures holidays == YearOfHolidays(c, region, year)
  {
    var kept, taken := KeepHolding(c.rules, region, year);
    holidays := SortBy(ByDay, kept);
    SortBySorts(ByDay, kept);
    if c.substitution == WhereItFalls {
      return;
    }
    assert taken == Days(holidays);
    holidays := AddSubstitutes(c.substitution, holidays, taken);
    holidays := SortBy(ByDay, holidays);
  }

  // ----- what the first pass keeps -----

  ghost predicate RuleGives(rule: Rule, region: string, year: int, day: Day)
  {
    rule.HoldsIn(region, year) && DayOn(rule.on, year) == day
  }

  /** A day some rule gives is given by one that holds in the year. */
  lemma GivenByARule(rules: seq<Rule>, region: string, year: int, day: Day) returns (rule: Rule)
    requires SomeRuleGives(rules, region, year, day)
    ensures rule in rules && rule.HoldsInYear(year) && DayOn(rule.on, year) == day
  {
    var i :| 0 <= i < |rules| && RuleGives(rules[i], region, year, day);
    rule := rules[i];
  }

  ghost predicate SomeRuleGives(rules: seq<Rule>, region: string, year: int, day: Day)
  {
    exists i :: 0 <= i < |rules| && RuleGives(rules[i], region, year, day)
  }

  /** The first rule that gives a day gives its name as well. */
  ghost predicate FirstRuleNames(rules: seq<Rule>, region: string, year: int, h: Holiday)
  {
    exists i :: 0 <= i < |rules| && RuleGives(rules[i], region, year, h.day) && h.name == rules[i].name
                && !SomeRuleGives(rules[..i], region, year, h.day)
  }

  lemma GivenUpToLast(rules: seq<Rule>, region: string, year: int, day: Day)
    requires rules != []
    ensures SomeRuleGives(rules, region, year, day)
            <==> SomeRuleGives(rules[..|rules| - 1], region, year, day)
                 || RuleGives(rules[|rules| - 1], region, year, day)
  {
    var init := rules[..|rules| - 1];
    if SomeRuleGives(init, region, year, day) {
      var i :| 0 <= i < |init| && RuleGives(init[i], region, year, day);
      assert RuleGives(rules[i], region, year, day);
    }
  }

  /** The days kept are exactly those some rule that holds gives. */
  lemma {:induction false} KeptDays(rules: seq<Rule>, region: string, year: int)
    ensures DistinctKeys(ByDay, Kept(rules, region, year)) && |Kept(rules, region, year)| <= |rules|
    ensures forall day :: day in Days(Kept(rules, region, year)) <==> SomeRuleGives(rules, region, year, day)
  {
    if rules == [] {
    } else {
      var init, last := rules[..|rules| - 1], rules[|rules| - 1];
      KeptDays(init, region, year);
      var before := Kept(init, region, year);
      DaysAppend(before, Holiday(DayOn(last.on, year), last.name, false));
      forall h | h in before ensures h.day in Days(before) {
      }
      forall day ensures day in Days(Kept(rules, region, year)) <==> SomeRuleGives(rules, region, year, day) {
        GivenUpToLast(rules, region, year, day);
      }
    }
  }

  /** Each day is kept under the name of the first rule that gives it. */
  lemma {:induction false} KeptNames(rules: seq<Rule>, region: string, year: int)
    ensures forall h :: h in Kept(rules, region, year) ==> !h.substitute && FirstRuleNames(rules, region, year, h)
  {
    if rules == [] {
    } else {
      var n := |rules| - 1;
      var init := rules[..n];
      KeptNames(init, region, year);
      KeptDays(init, region, year);
      forall h | h in Kept(rules, region, year) ensures !h.substitute && FirstRuleNames(rules, region, year, h) {
        if h in Kept(init, region, year) {
          var i :| 0 <= i < n && RuleGives(init[i], region, year, h.day) && h.name == init[i].name
                   && !SomeRuleGives(init[..i], region, year, h.day);
          assert rules[..i] == init[..i];
          assert RuleGives(rules[i], region, year, h.day);
        } else {
          assert RuleGives(rules[n], region, year, h.day) && h.name == rules[n].name;
        }
      }
    }
  }

  /** The holidays of a year before any substitution: exactly the days some rule that
      holds gives, in strictly ascending order, all of them in the year. */
  lemma StandingExactly(c: Country, region: string, year: int)
    requires c.Valid()
    ensures StrictlyAscending(ByDay, Standing(c, region, year))
    ensures |Standing(c, region, year)| <= |c.rules|
    ensures forall day :: day in Days(Standing(c, region, year)) <==> SomeRuleGives(c.rules, region, year, day)
    ensures forall h :: h in Standing(c, region, year) ==>
                        !h.substitute && FirstRuleNames(c.rules, region, year, h) && YearOf(h.day) == year
  {
    var kept := Kept(c.rules, region, year);
    KeptDays(c.rules, region, year);
    KeptNames(c.rules, region, year);
    SortBySorts(ByDay, kept);
    DistinctSortsStrictly(ByDay, kept);
    assert Days(Standing(c, region, year)) == Days(kept);
    forall h | h in Standing(c, region, year) ensures YearOf(h.day) == year {
      var i :| 0 <= i < |c.rules| && RuleGives(c.rules[i], region, year, h.day);
      RuleStaysInItsYear(c.rules[i].on, year);
    }
  }

  // ----- the substitution pass -----

  /** The holidays among the first k that fell on a weekend, in their order. */
  function OnWeekend(hs: seq<Holiday>, k: nat): seq<Holiday>
    requires k <= |hs|
  {
    if k == 0 then []
    else OnWeekend(hs, k - 1) + if Weekend(hs[k - 1].day) then [hs[k - 1]] else []
  }

  /** The earliest later weekday that is not blocked. */
  ghost predicate EarliestFree(day: Day, after: Day, blocked: set<Day>) {
    && after < day && !Weekend(day) && day !in blocked
    && forall e :: after < e < day ==> Weekend(e) || e in blocked
  }

  /** Each weekend holiday has exactly one substitute, under its name, in the order the
      they are kept: the earliest later weekday that is neither a holiday of the year nor
      an earlier substitute. No weekday holiday has one, and no two days coincide. */
  ghost predicate InItsPlace(hs: seq<Holiday>, weekend: seq<Holiday>, subs: seq<Holiday>, j: nat)
    requires j < |weekend| == |subs|
  {
    && subs[j].substitute && subs[j].name == weekend[j].name
    && EarliestFree(subs[j].day, weekend[j].day, Days(hs) + Days(subs[..j]))
  }

  lemma {:induction false} OneSubstituteEach(hs: seq<Holiday>, k: nat)
    requires k <= |hs|
    ensures |Substitutes(NextFreeWeekday, hs, k)| == |OnWeekend(hs, k)|
    ensures forall j: nat :: j < |OnWeekend(hs, k)| ==>
                             InItsPlace(hs, OnWeekend(hs, k), Substitutes(NextFreeWeekday, hs, k), j)
  {
    if k == 0 {
    } else {
      OneSubstituteEach(hs, k - 1);
      var before, subs := Substitutes(NextFreeWeekday, hs, k - 1), Substitutes(NextFreeWeekday, hs, k);
      var was, weekend := OnWeekend(hs, k - 1), OnWeekend(hs, k);
      if Weekend(hs[k - 1].day) {
        forall j: nat | j < |weekend| ensures InItsPlace(hs, weekend, subs, j) {
          assert subs[..j] == before[..j];
          if j < |before| {
            assert InItsPlace(hs, was, before, j);
          } else {
            assert before[..j] == before;
          }
        }
      } else {
        assert weekend == was;
      }
    }
  }

  /** No day of the year is kept twice. */
  lemma {:induction false} SubstitutesDistinct(hs: seq<Holiday>, k: nat)
    requires k <= |hs| && DistinctKeys(ByDay, hs)
    ensures DistinctKeys(ByDay, hs + Substitutes(NextFreeWeekday, hs, k))
  {
    if k == 0 {
      assert hs + Substitutes(NextFreeWeekday, hs, 0) == hs;
    } else {
      SubstitutesDistinct(hs, k - 1);
      hide Weekend;
      var before, subs := Substitutes(NextFreeWeekday, hs, k - 1), Substitutes(NextFreeWeekday, hs, k);
      if Weekend(hs[k - 1].day) {
        assert hs + subs == (hs + before) + [subs[|before|]];
        forall h | h in hs + before ensures h.day in Days(hs) + Days(before) {
          assert h in hs || h in before;
        }
      }
    }
  }

  /** A year has the holidays its rules give and their substitutes, each once, and nothing else; a
      country that keeps holidays where they fall has no substitutes. */
  lemma YearLosesNothing(c: Country, region: string, year: int)
    requires c.Valid()
    ensures var hs := Standing(c, region, year);
            && multiset(YearOfHolidays(c, region, year))
               == multiset(hs) + multiset(Substitutes(c.substitution, hs, |hs|))
            && (c.substitution == WhereItFalls ==> YearOfHolidays(c, region, year) == hs)
  {
    hide Standing;
    var hs := Standing(c, region, year);
    SortBySorts(ByDay, hs + Substitutes(c.substitution, hs, |hs|));
    if c.substitution == WhereItFalls {
      NoSubstitutes(hs, |hs|);
    }
  }

  lemma {:induction false} NoSubstitutes(hs: seq<Holiday>, k: nat)
    requires k <= |hs|
    ensures Substitutes(WhereItFalls, hs, k) == []
  {
    if k == 0 {
    } else {
      NoSubstitutes(hs, k - 1);
    }
  }

  /** The substitution pass of a country that takes the next free weekday. */
  lemma NextFreeYear(c: Country, region: string, year: int)
    requires c.Valid() && c.substitution == NextFreeWeekday
    ensures var hs := Standing(c, region, year);
            var subs, weekend := Substitutes(NextFreeWeekday, hs, |hs|), OnWeekend(hs, |hs|);
            && |subs| == |weekend|
            && (forall j: nat :: j < |subs| ==> InItsPlace(hs, weekend, subs, j))
            && (forall h :: h in YearOfHolidays(c, region, year) <==> h in hs || h in subs)
    ensures StrictlyAscending(ByDay, YearOfHolidays(c, region, year))
  {
    var hs := Standing(c, region, year);
    StandingExactly(c, region, year);
    OneSubstituteEach(hs, |hs|);
    SubstitutesDistinct(hs, |hs|);
    SortBySorts(ByDay, hs + Substitutes(NextFreeWeekday, hs, |hs|));
    DistinctSortsStrictly(ByDay, hs + Substitutes(NextFreeWeekday, hs, |hs|));
  }

  // ----- how far a substitute reaches -----

  /** Where a substitute lies relative to the holiday it stands in for. */
  ghost predicate Reaches(hs: seq<Holiday>, s: Holiday) {
    exists h :: h in hs && h.name == s.name && Weekend(h.day) && h.day - 1 <= s.day <= h.day + 362
  }

  lemma {:induction false} SubstitutesReach(substitution: Substitution, hs: seq<Holiday>, k: nat)
    requires k <= |hs| <= 60
    ensures forall s :: s in Substitutes(substitution, hs, k) ==> s.substitute && Reaches(hs, s)
  {
    if k == 0 {
    } else {
      SubstitutesReach(substitution, hs, k - 1);
      var before := Substitutes(substitution, hs, k - 1);
      var h := hs[k - 1];
      var taken := Days(hs) + Days(before);
      DaysBound(hs);
      DaysBound(before);
      assert |taken| <= 120;
      if substitution == NextFreeWeekday && Weekend(h.day) {
        assert OnOrAfter(h.day, taken) <= taken;
        SubsetCount(OnOrAfter(h.day, taken), taken);
        assert NextFree(h.day, taken) <= h.day + 362;
      }
      forall s | s in Substitutes(substitution, hs, k) ensures s.substitute && Reaches(hs, s) {
        if s !in before {
          assert h in hs && h.name == s.name && Weekend(h.day) && h.day - 1 <= s.day <= h.day + 362;
        }
      }
    }
  }

  lemma SubsetCount(a: set<Day>, b: set<Day>)
    requires a <= b
    ensures |a| <= |b|
  {
    assert b == a + (b - a);
  }

  lemma {:induction false} DaysBound(hs: seq<Holiday>)
    ensures |Days(hs)| <= |hs|
  {
    if hs == [] {
    } else {
      var init, last := hs[..|hs| - 1], hs[|hs| - 1];
      DaysBound(init);
      assert hs == init + [last];
      assert Days(hs) == Days(init) + {last.day};
    }
  }

  /** Every holiday a year's rules give, substitutes included, falls in that year or one
      beside it. */
  lemma YearReach(c: Country, region: string, year: int)
    requires c.Valid()
    ensures forall h :: h in YearOfHolidays(c, region, year) ==> year - 1 <= YearOf(h.day) <= year + 1
  {
    var hs := Standing(c, region, year);
    StandingExactly(c, region, year);
    var subs := Substitutes(c.substitution, hs, |hs|);
    SubstitutesReach(c.substitution, hs, |hs|);
    SortBySorts(ByDay, hs + subs);
    forall h | h in YearOfHolidays(c, region, year) ensures year - 1 <= YearOf(h.day) <= year + 1 {
      if h !in hs {
        assert h in hs + subs;
        var held :| held in hs && h.day >= held.day - 1 && h.day <= held.day + 362;
        NearYears(held.day, h.day);
      }
    }
  }

  lemma NearYears(a: Day, b: Day)
    requires a - 365 <= b <= a + 365
    ensures YearOf(a) - 1 <= YearOf(b) <= YearOf(a) + 1
  {
    hide YearOf, NewYearsDay, YearLength;
    var year := YearOf(a);
    YearHolds(a);
    YearHolds(b);
    YearsAscend(year - 1, year);
    YearsAscend(year + 1, year + 2);
    if YearOf(b) < year - 1 {
      YearsAscend(YearOf(b) + 1, year - 1);
    } else if YearOf(b) > year + 1 {
      YearsAscend(year + 2, YearOf(b));
    }
  }
}
