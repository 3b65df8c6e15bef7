/** The rules a country's public holidays are written in, and the day each gives in a year. */
module HolidayRules {
  import opened Options
  import opened Calendar
  import Computus

  /** A date that every year has. */
  predicate InOrdinaryYear(month: int, day: int) {
    1 <= month <= 12 && 1 <= day <= 31
      && (day <= 28 || (month != 2 && (day <= 30 || (month != 4 && month != 6 && month != 9 && month != 11))))
  }

  /** When a holiday falls: the closures of the source, each by its name. */
  datatype Form =
    | Fixed(month: int, day: int)
    | AfterEaster(days: int)
    | NthWeekday(n: int, weekday: int, month: int)
    | LastWeekday(weekday: int, month: int)
    | WeekdayAfter(weekday: int, month: int, day: int)
    | RepentanceDay
    | StBrigidsDay
    | SaturdayForSunday(month: int, day: int)
  {
    predicate Valid() {
      match this
      case Fixed(month, day) => InOrdinaryYear(month, day)
      case AfterEaster(days) => -41 <= days <= 242
      case NthWeekday(n, weekday, month) => 1 <= n <= 4 && 0 <= weekday <= 6 && 1 <= month <= 12
      case LastWeekday(weekday, month) => 0 <= weekday <= 6 && 1 <= month <= 12
      case WeekdayAfter(weekday, month, day) => 0 <= weekday <= 6 && InOrdinaryYear(month, day)
        && (month == 12 ==> day <= 25)
      case SaturdayForSunday(month, day) => InOrdinaryYear(month, day) && (month == 1 ==> day >= 2)
      case RepentanceDay => true
      case StBrigidsDay => true
    }
  }

  /** Forms as the country tables write them: dates of an ordinary year, weekdays that
      every month has, distances from Easter that reach neither end of the year. */
  type On = form: Form | form.Valid() witness Fixed(1, 1)

  /** The words of a text separated by spaces. */
  function Fields(text: string): seq<string> {
    FieldsFrom(text, "")
  }

  function FieldsFrom(text: string, word: string): seq<string> {
    if text == "" then (if word == "" then [] else [word])
    else if text[0] == ' ' then (if word == "" then [] else [word]) + FieldsFrom(text[1..], "")
    else FieldsFrom(text[1..], word + [text[0]])
  }

  /** A row of a table: the name and the form of a holiday; the regions it is for, a list with
      spaces between them that is empty for all; its first year and its last, 0 where there is no
      such bound; and where years are listed, those alone, or all but those. */
  datatype Rule = Rule(
    name: string,
    on: On,
    nameonly regions: string := "",
    nameonly from: int := 0,
    nameonly until: int := 0,
    nameonly only: Option<seq<int>> := None,
    nameonly except: seq<int> := [])
  {
    predicate HoldsIn(region: string, year: int) {
      if regions != "" && region !in Fields(regions) then false
      else HoldsInYear(year)
    }

    predicate HoldsInYear(year: int) {
      if only.Some? then year in only.value
      else if year in except then false
      else (from == 0 || year >= from) && (until == 0 || year <= until)
    }
  }

  // ----- where and when a rule holds -----

  /** Words with a space after each but the last. */
  function Spaced(words: seq<string>): string {
    if words == [] then ""
    else if |words| == 1 then words[0]
    else words[0] + " " + Spaced(words[1..])
  }

  predicate Word(s: string) {
    s != "" && ' ' !in s
  }

  lemma {:induction false} FieldsInTwo(a: string, b: string, word: string)
    ensures FieldsFrom(a + " " + b, word) == FieldsFrom(a, word) + Fields(b)
  {
    var s := a + " " + b;
    if a == "" {
      assert s[1..] == b;
    } else {
      assert s[1..] == a[1..] + " " + b;
      FieldsInTwo(a[1..], b, if a[0] == ' ' then "" else word + [a[0]]);
    }
  }

  lemma {:induction false} OneField(s: string, word: string)
    requires ' ' !in s && word + s != ""
    ensures FieldsFrom(s, word) == [word + s]
  {
    if s == "" {
      assert word + s == word;
    } else {
      OneField(s[1..], word + [s[0]]);
      assert word + [s[0]] + s[1..] == word + s;
    }
  }

  /** A list of words is read as those words. */
  lemma {:induction false} FieldsOfWords(words: seq<string>)
    requires forall i :: 0 <= i < |words| ==> Word(words[i])
    ensures Fields(Spaced(words)) == words
  {
    if words == [] {
    } else if |words| == 1 {
      OneField(words[0], "");
      assert "" + words[0] == words[0];
    } else {
      FieldsOfWords(words[1..]);
      FieldsInTwo(words[0], Spaced(words[1..]), "");
      OneField(words[0], "");
      assert "" + words[0] == words[0] && words == [words[0]] + words[1..];
    }
  }

  /** A rule holds in the regions of its list alone, and in all where it has none. */
  lemma RegionsOfARule(rule: Rule, words: seq<string>, region: string, year: int)
    requires rule.regions == Spaced(words) && forall i :: 0 <= i < |words| ==> Word(words[i])
    ensures rule.HoldsIn(region, year) <==> (words == [] || region in words) && rule.HoldsInYear(year)
  {
    FieldsOfWords(words);
    if words != [] {
      assert Word(words[0]);
    }
  }

  /** A rule that lists its years holds in those. Any other holds in no year it excepts, and of
      the others in all from its first to its last, both of them included; where it has no first
      it goes back without end, and where it has no last it goes on. */
  lemma YearsOfARule(rule: Rule, year: int, other: int)
    ensures rule.only.Some? ==> (rule.HoldsInYear(year) <==> year in rule.only.value)
    ensures rule.only.None? && year in rule.except ==> !rule.HoldsInYear(year)
    ensures rule.only.None? && year == rule.from != 0 && year !in rule.except && (rule.until == 0 || year <= rule.until)
            ==> rule.HoldsInYear(year) && (other < year ==> !rule.HoldsInYear(other))
    ensures rule.only.None? && year == rule.until != 0 && year !in rule.except && (rule.from == 0 || rule.from <= year)
            ==> rule.HoldsInYear(year) && (other > year ==> !rule.HoldsInYear(other))
    ensures rule.only.None? && rule.HoldsInYear(year) && other !in rule.except
            && (if other < year then rule.from == 0 || rule.from <= other else rule.until == 0 || other <= rule.until)
            ==> rule.HoldsInYear(other)
  {
  }

  // ----- weekdays -----

  /** From a day on, the next that is such a weekday, the day itself included. */
  function WeekdayFrom(weekday: int, day: Day): (r: Day)
    requires 0 <= weekday <= 6
    ensures day <= r < day + 7 && Weekday(r) == weekday
  {
    day + (weekday - Weekday(day)) % 7
  }

  /** The last weekday on or before a day. */
  function WeekdayUpTo(weekday: int, day: Day): (r: Day)
    requires 0 <= weekday <= 6
    ensures day - 7 < r <= day && Weekday(r) == weekday
  {
    day - (Weekday(day) - weekday) % 7
  }

  lemma WeekdayInAWeek(a: Day, b: Day)
    requires Weekday(a) == Weekday(b) && a - 7 < b < a + 7
    ensures a == b
  {
  }

  method FindWeekdayFrom(weekday: int, from: Day) returns (day: Day)
    requires 0 <= weekday <= 6
    ensures day == WeekdayFrom(weekday, from)
  {
    day := from;
    while Weekday(day) != weekday
      invariant from <= day <= WeekdayFrom(weekday, from)
      decreases WeekdayFrom(weekday, from) - day
    {
      day := day + 1;
    }
    WeekdayInAWeek(day, WeekdayFrom(weekday, from));
  }

  method FindWeekdayUpTo(weekday: int, to: Day) returns (day: Day)
    requires 0 <= weekday <= 6
    ensures day == WeekdayUpTo(weekday, to)
  {
    day := to;
    while Weekday(day) != weekday
      invariant WeekdayUpTo(weekday, to) <= day <= to
      decreases day - WeekdayUpTo(weekday, to)
    {
      day := day - 1;
    }
    WeekdayInAWeek(day, WeekdayUpTo(weekday, to));
  }

  // ----- the day of a rule -----

  function DayOn(on: On, year: int): Day
  {
    match on
    case Fixed(month, day) => DateOf(year, month, day)
    case AfterEaster(days) => Computus.EasterSunday(year) + days
    case NthWeekday(n, weekday, month) => WeekdayFrom(weekday, DateOf(year, month, 1)) + 7 * (n - 1)
    case LastWeekday(weekday, month) => WeekdayUpTo(weekday, DateOf(year, month + 1, 0))
    case WeekdayAfter(weekday, month, day) => WeekdayFrom(weekday, DateOf(year, month, day))
    case RepentanceDay => WeekdayUpTo(WEDNESDAY, DateOf(year, 11, 22))
    case StBrigidsDay =>
      var first := DateOf(year, 2, 1);
      if Weekday(first) == FRIDAY then first else WeekdayFrom(MONDAY, first)
    case SaturdayForSunday(month, day) =>
      var date := DateOf(year, month, day);
      if Weekday(date) == SUNDAY then date - 1 else date
  }

  /** What day a form means, by its weekday and the dates it can lie on. */
  ghost predicate FallsOn(on: On, year: int, day: Day) {
    match on
    case Fixed(month, date) => CivilOf(day) == Civil(year, month, date)
    case AfterEaster(days) =>
      if year >= 0 then Computus.FirstSundayAfter(day - days, Computus.PaschalMoon(year))
      else day - days == Computus.EasterSunday(year)
    case NthWeekday(n, weekday, month) =>
      OneOfAWeek(weekday, DateOf(year, month, 7 * n - 6), day, DateOf(year, month, 7 * n))
    case LastWeekday(weekday, month) =>
      var length := MonthLength(year, month);
      OneOfAWeek(weekday, DateOf(year, month, length - 6), day, DateOf(year, month, length))
    case WeekdayAfter(weekday, month, date) =>
      OneOfAWeek(weekday, DateOf(year, month, date), day, DateOf(year, month, date) + 6)
    case RepentanceDay => OneOfAWeek(WEDNESDAY, DateOf(year, 11, 16), day, DateOf(year, 11, 22))
    case StBrigidsDay =>
      if Weekday(DateOf(year, 2, 1)) == FRIDAY then CivilOf(day) == Civil(year, 2, 1)
      else OneOfAWeek(MONDAY, DateOf(year, 2, 1), day, DateOf(year, 2, 7))
    case SaturdayForSunday(month, date) =>
      && Weekday(day) != SUNDAY
      && (day == DateOf(year, month, date) || (Weekday(day + 1) == SUNDAY && day + 1 == DateOf(year, month, date)))
  }

  predicate OneOfAWeek(weekday: int, first: Day, day: Day, last: Day) {
    Weekday(day) == weekday && first <= day <= last == first + 6
  }

  lemma CivilDate(year: int, month: int, date: int, day: Day)
    requires Civil(year, month, date).Valid()
    ensures CivilOf(day) == Civil(year, month, date) <==> day == DateOf(year, month, date)
  {
    CivilOfDayOf(Civil(year, month, date));
    DayOfCivilOf(day);
  }

  lemma ForWeekdays(weekday: int, first: Day, last: Day, day: Day)
    requires 0 <= weekday <= 6 && last == first + 6
    ensures OneOfAWeek(weekday, first, day, last) <==> day == WeekdayFrom(weekday, first)
    ensures OneOfAWeek(weekday, first, day, last) <==> day == WeekdayUpTo(weekday, last)
  {
    if OneOfAWeek(weekday, first, day, last) {
      WeekdayInAWeek(day, WeekdayFrom(weekday, first));
      WeekdayInAWeek(day, WeekdayUpTo(weekday, last));
    }
  }

  lemma ForNthWeekday(n: int, weekday: int, month: int, year: int, day: Day)
    requires 1 <= n <= 4 && 0 <= weekday <= 6 && 1 <= month <= 12
    ensures OneOfAWeek(weekday, DateOf(year, month, 7 * n - 6), day, DateOf(year, month, 7 * n))
            <==> day == WeekdayFrom(weekday, DateOf(year, month, 1)) + 7 * (n - 1)
  {
    var first := WeekdayFrom(weekday, DateOf(year, month, 1));
    Computus.WholeWeek(first, 1 - n);
    ForWeekdays(weekday, DateOf(year, month, 7 * n - 6), DateOf(year, month, 7 * n), day);
    ForWeekdays(weekday, DateOf(year, month, 7 * n - 6), DateOf(year, month, 7 * n), first + 7 * (n - 1));
  }

  lemma ForEaster(days: int, year: int, day: Day)
    ensures (if year >= 0 then Computus.FirstSundayAfter(day - days, Computus.PaschalMoon(year))
             else day - days == Computus.EasterSunday(year))
            <==> day == Computus.EasterSunday(year) + days
  {
    hide Computus.FirstSundayAfter, Computus.PaschalMoon, Computus.EasterSunday, NewYearsDay, DaysBefore, Leap;
    if year >= 0 {
      Computus.EasterIsTheSundayAfterTheMoon(year);
      var easter := Computus.EasterSunday(year);
      assert day - days == easter || !Computus.FirstSundayAfter(day - days, Computus.PaschalMoon(year));
    }
  }

  lemma ForSunday(date: Day, day: Day)
    ensures Weekday(day) != SUNDAY && (day == date || (Weekday(day + 1) == SUNDAY && day + 1 == date))
            <==> day == if Weekday(date) == SUNDAY then date - 1 else date
  {
  }

  /** Of every form and year, the day computed is the one that is meant. */
  lemma DayOnIsMeant(on: On, year: int, day: Day)
    ensures FallsOn(on, year, day) <==> day == DayOn(on, year)
  {
    hide Leap, NewYearsDay, DaysBefore, Weekday, WeekdayFrom, WeekdayUpTo, CivilOf, OneOfAWeek,
      Computus.EasterSunday, Computus.FirstSundayAfter, Computus.PaschalMoon;
    match on
    case Fixed(month, date) => CivilDate(year, month, date, day);
    case AfterEaster(days) => ForEaster(days, year, day);
    case NthWeekday(n, weekday, month) => ForNthWeekday(n, weekday, month, year, day);
    case LastWeekday(weekday, month) =>
      var length := MonthLength(year, month);
      MonthEnd(year, month);
      ForWeekdays(weekday, DateOf(year, month, length - 6), DateOf(year, month, length), day);
    case WeekdayAfter(weekday, month, date) =>
      ForWeekdays(weekday, DateOf(year, month, date), DateOf(year, month, date) + 6, day);
    case RepentanceDay => ForWeekdays(WEDNESDAY, DateOf(year, 11, 16), DateOf(year, 11, 22), day);
    case StBrigidsDay =>
      CivilDate(year, 2, 1, day);
      ForWeekdays(MONDAY, DateOf(year, 2, 1), DateOf(year, 2, 7), day);
    case SaturdayForSunday(month, date) => ForSunday(DateOf(year, month, date), day);
  }

  lemma MonthEnd(year: int, month: int)
    requires 1 <= month <= 12
    ensures DateOf(year, month + 1, 0) == DateOf(year, month, MonthLength(year, month))
  {
    MonthStart(year, month);
  }

  method FindDay(on: On, year: int) returns (day: Day)
    ensures day == DayOn(on, year)
    ensures forall other :: FallsOn(on, year, other) <==> other == day
  {
    hide FallsOn;
    forall other ensures FallsOn(on, year, other) <==> other == DayOn(on, year) {
      DayOnIsMeant(on, year, other);
    }
    match on
    case Fixed(month, d) =>
      day := DateOf(year, month, d);
    case AfterEaster(days) =>
      day := Computus.EasterSunday(year) + days;
    case NthWeekday(n, weekday, month) =>
      day := FindWeekdayFrom(weekday, DateOf(year, month, 1));
      day := day + 7 * (n - 1);
    case LastWeekday(weekday, month) =>
      day := FindWeekdayUpTo(weekday, DateOf(year, month + 1, 0));
    case WeekdayAfter(weekday, month, d) =>
      day := FindWeekdayFrom(weekday, DateOf(year, month, d));
    case RepentanceDay =>
      day := FindWeekdayUpTo(WEDNESDAY, DateOf(year, 11, 22));
    case StBrigidsDay =>
      day := DateOf(year, 2, 1);
      if Weekday(day) != FRIDAY {
        day := FindWeekdayFrom(MONDAY, day);
      }
    case SaturdayForSunday(month, d) =>
      day := DateOf(year, month, d);
      if Weekday(day) == SUNDAY {
        day := day - 1;
      }
  }

  lemma DateInItsYear(year: int, month: int, day: int)
    requires InOrdinaryYear(month, day)
    ensures NewYearsDay(year) <= DateOf(year, month, day) < NewYearsDay(year + 1)
    ensures DateOf(year, month, day) + MonthLength(1, month) - day
      + (if month == 12 then 0 else 31) < NewYearsDay(year + 1)
    ensures month > 1 ==> NewYearsDay(year) < DateOf(year, month, day)
  {
    YearsFollow(year);
  }

  /** The nth weekday of a month lies in its nth seven days, and the last in its last seven. */
  lemma WeekdaysOfAMonth(n: int, weekday: int, month: int, year: int)
    requires 1 <= n <= 4 && 0 <= weekday <= 6 && 1 <= month <= 12
    ensures var nth := DayOn(NthWeekday(n, weekday, month), year);
            Weekday(nth) == weekday && DateOf(year, month, 7 * n - 6) <= nth <= DateOf(year, month, 7 * n)
    ensures var last := DayOn(LastWeekday(weekday, month), year);
            Weekday(last) == weekday && last <= DateOf(year, month + 1, 0) < last + 7
  {
    var first := WeekdayFrom(weekday, DateOf(year, month, 1));
    Computus.WholeWeek(first, 1 - n);
  }

  /** Every rule's day lies in the year it is asked for, whatever the year. */
  lemma RuleStaysInItsYear(on: On, year: int)
    ensures NewYearsDay(year) <= DayOn(on, year) < NewYearsDay(year + 1)
    ensures YearOf(DayOn(on, year)) == year
  {
    YearsFollow(year);
    match on {
      case Fixed(month, day) => DateInItsYear(year, month, day);
      case AfterEaster(days) => Computus.EasterInItsYear(year);
      case NthWeekday(n, weekday, month) =>
        DateInItsYear(year, month, 1);
        assert DateOf(year, month, 28) == DateOf(year, month, 1) + 27;
        DateInItsYear(year, month, 28);
      case LastWeekday(weekday, month) =>
        assert MonthLength(1, month) <= MonthLength(year, month);
        MonthStart(year, month);
        DateInItsYear(year, month, 1);
      case WeekdayAfter(weekday, month, day) => DateInItsYear(year, month, day);
      case RepentanceDay => DateInItsYear(year, 11, 22);
      case StBrigidsDay => DateInItsYear(year, 2, 1);
      case SaturdayForSunday(month, day) => DateInItsYear(year, month, day);
    }
    YearIsUnique(DayOn(on, year), year);
  }
}
