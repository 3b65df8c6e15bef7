/** Recording an absence: the working days of a range, and nothing where there is none. */
module Absences {
  import opened Options
  import opened Calendar
  import opened HolidayYear
  import opened Holidays
  import opened Targets
  import opened Strings
  import opened HolidayTables

  const MAX_DAYS := 371
  const DEFAULT_DAILY_TARGET := 8.0
  const KINDS := ["vacation", "halfVacation", "sick", "flexDay", "localHoliday"]

  datatype Absence = Absence(user: nat, day: Day, kind: string)

  datatype Failure =
    | InvalidFields(fields: seq<string>)
    | RangeInverted
    | RangeTooLong
    | NoUser
    | NoSchedules
    | NoPlace
    | NoWorkingDays
    | SaveFailed

  datatype Outcome = Recorded(absences: seq<Absence>) | Refused(failure: Failure)

  /** The days a record can be of. */
  predicate OnTheCalendar(day: Day) {
    DateOf(1900, 1, 1) <= day < DateOf(10000, 1, 1)
  }

  function EffectiveDailyTarget(dailyTarget: real): (r: real)
    ensures r > 0.0 && (dailyTarget > 0.0 ==> r == dailyTarget)
  {
    if dailyTarget <= 0.0 then DEFAULT_DAILY_TARGET else dailyTarget
  }

  predicate Works(day: Day, holidays: map<Day, Holiday>, schedules: seq<WorkSchedule>, before: WeekHours) {
    day !in holidays && HoursOn(WeekOn(day, schedules, before), day) > 0.0
  }

  /** The days of a range on which there is work, in ascending order. */
  function WorkingDays(first: Day, last: Day, holidays: map<Day, Holiday>, schedules: seq<WorkSchedule>,
                       before: WeekHours): seq<Day>
    decreases last - first
  {
    if first > last then []
    else (if Works(first, holidays, schedules, before) then [first] else [])
         + WorkingDays(first + 1, last, holidays, schedules, before)
  }

  function AsAbsences(user: nat, days: seq<Day>, kind: string): seq<Absence> {
    seq(|days|, i requires 0 <= i < |days| => Absence(user, days[i], kind))
  }

  /** The day loop of Record. */
  method Collect(user: nat, first: Day, last: Day, kind: string, holidays: map<Day, Holiday>,
                 schedules: seq<WorkSchedule>, before: WeekHours) returns (absences: seq<Absence>)
    ensures absences == AsAbsences(user, WorkingDays(first, last, holidays, schedules, before), kind)
  {
    hide WeekOn, HoursOn, WorkingDays, AsAbsences;
    absences := [];
    var day := first;
    ghost var days: seq<Day> := [];
    NoneYet(user, kind);
    ghost var all := WorkingDays(first, last, holidays, schedules, before);
    assert days + all == all;
    while day <= last
      invariant absences == AsAbsences(user, days, kind)
      invariant days + WorkingDays(day, last, holidays, schedules, before) == all
      decreases last - day
    {
      var target := TargetOn(day, schedules, before);
      OneDayOn(day, last, days, holidays, schedules, before);
      if !(day in holidays || target <= 0.0) {
        OneMoreAbsence(user, days, day, kind);
        absences := absences + [Absence(user, day, kind)];
        days := days + [day];
      }
      day := day + 1;
    }
    NoDaysLeft(day, last, holidays, schedules, before);
    assert days + [] == days;
  }

  lemma NoneYet(user: nat, kind: string)
    ensures AsAbsences(user, [], kind) == []
  {
  }

  lemma OneMoreAbsence(user: nat, days: seq<Day>, day: Day, kind: string)
    ensures AsAbsences(user, days + [day], kind) == AsAbsences(user, days, kind) + [Absence(user, day, kind)]
  {
  }

  lemma OneDayOn(day: Day, last: Day, days: seq<Day>, holidays: map<Day, Holiday>, schedules: seq<WorkSchedule>,
                 before: WeekHours)
    requires day <= last
    ensures (if Works(day, holidays, schedules, before) then days + [day] else days)
      + WorkingDays(day + 1, last, holidays, schedules, before)
            == days + WorkingDays(day, last, holidays, schedules, before)
  {
    hide Works;
  }

  lemma NoDaysLeft(day: Day, last: Day, holidays: map<Day, Holiday>, schedules: seq<WorkSchedule>, before: WeekHours)
    requires day > last
    ensures WorkingDays(day, last, holidays, schedules, before) == []
  {
  }

  /** One absence for each working day of the range, in order, and nothing else. */
  ghost predicate RecordsExactly(absences: seq<Absence>, user: nat, from: Day, to: Day, kind: string,
                                 place: string, schedules: seq<WorkSchedule>, dailyTarget: real) {
    && (forall i :: 0 <= i < |absences| ==> absences[i].user == user && absences[i].kind == kind
                                            && from <= absences[i].day <= to
                                            && IsWorkingDay(absences[i].day, place, schedules, dailyTarget))
    && (forall i, j :: 0 <= i < j < |absences| ==> absences[i].day < absences[j].day)
    && (forall day :: from <= day <= to && IsWorkingDay(day, place, schedules, dailyTarget)
                      ==> Absence(user, day, kind) in absences)
  }

  method WorkedDays(user: nat, from: Day, to: Day, kind: string, place: string, schedules: seq<WorkSchedule>,
                    dailyTarget: real)
    returns (absences: seq<Absence>)
    ensures RecordsExactly(absences, user, from, to, kind, place, schedules, dailyTarget)
  {
    var holidays := HolidaysBetween(place, from, to);
    var before := DefaultWeek(EffectiveDailyTarget(dailyTarget));
    absences := Collect(user, from, to, kind, holidays, schedules, before);
    WorkingDaysExactly(from, to, holidays, schedules, before);
    ghost var days := WorkingDays(from, to, holidays, schedules, before);
    forall day | from <= day <= to ensures day in days <==> IsWorkingDay(day, place, schedules, dailyTarget) {
      HolidayKnown(day, from, to, place, holidays);
    }
    forall i | 0 <= i < |absences| ensures absences[i].day in days {
    }
    forall day | day in days ensures Absence(user, day, kind) in absences {
      var i :| 0 <= i < |days| && days[i] == day;
      assert absences[i] == Absence(user, day, kind);
    }
  }

  function Invalid(from: Day, to: Day, kind: string): seq<string> {
    (if OnTheCalendar(from) then [] else ["from"]) + (if OnTheCalendar(to) then [] else ["to"])
      + (if kind in KINDS then [] else ["kind"])
  }

  const NO_HOLIDAYS := "none"

  /** Somebody's own choice of a place for holidays, empty for none, and their daily target. */
  datatype User = User(choice: string, dailyTarget: real)

  /** What the repositories answer, where they do. */
  datatype Answers = Answers(user: Option<User>, schedules: Option<seq<WorkSchedule>>, installation: Option<string>)

  function HolidayPlaceOf(user: User, installation: string): string {
    var choice := if user.choice == "" then installation else user.choice;
    if choice == NO_HOLIDAYS then "" else choice
  }

  /** Why nothing is recorded, as far as that can be told before the days are looked at. */
  function Refusal(from: Day, to: Day, kind: string, answers: Answers): Option<Failure> {
    if Invalid(from, to, kind) != [] then Some(InvalidFields(Invalid(from, to, kind)))
    else if to < from then Some(RangeInverted)
    else if to - from >= MAX_DAYS then Some(RangeTooLong)
    else if answers.user == None then Some(NoUser)
    else if answers.schedules == None then Some(NoSchedules)
    else if answers.installation == None then Some(NoPlace)
    else None
  }

  /** The absences that were recorded, or why the days of the range gave none. */
  ghost predicate RecordedOrNot(outcome: Outcome, saves: bool, user: nat, from: Day, to: Day, kind: string,
                                place: string, schedules: seq<WorkSchedule>, dailyTarget: real) {
    if forall day :: from <= day <= to ==> !IsWorkingDay(day, place, schedules, dailyTarget) then
      outcome == Refused(NoWorkingDays)
    else if !saves then outcome == Refused(SaveFailed)
    else outcome.Recorded? && RecordsExactly(outcome.absences, user, from, to, kind, place, schedules, dailyTarget)
  }

  /** Record, given what the repositories answer and whether the storage takes the absences. */
  method Record(user: nat, from: Day, to: Day, kind: string, answers: Answers, saves: bool) returns (outcome: Outcome)
    ensures Refusal(from, to, kind, answers).Some? ==> outcome == Refused(Refusal(from, to, kind, answers).value)
    ensures Refusal(from, to, kind, answers).None? ==>
              RecordedOrNot(outcome, saves, user, from, to, kind,
                            HolidayPlaceOf(answers.user.value, answers.installation.value),
                            answers.schedules.value, answers.user.value.dailyTarget)
  {
    var invalid: seq<string> := [];
    if !OnTheCalendar(from) {
      invalid := invalid + ["from"];
    }
    if !OnTheCalendar(to) {
      invalid := invalid + ["to"];
    }
    if kind !in KINDS {
      invalid := invalid + ["kind"];
    }
    assert invalid == Invalid(from, to, kind);
    if |invalid| > 0 {
      return Refused(InvalidFields(invalid));
    }
    if to < from {
      return Refused(RangeInverted);
    }
    if to - from + 1 > MAX_DAYS {
      return Refused(RangeTooLong);
    }
    if answers.user == None {
      return Refused(NoUser);
    }
    var found := answers.user.value;
    if answers.schedules == None {
      return Refused(NoSchedules);
    }
    var schedules := answers.schedules.value;
    if answers.installation == None {
      return Refused(NoPlace);
    }
    var place := HolidayPlaceOf(found, answers.installation.value);
    var absences := WorkedDays(user, from, to, kind, place, schedules, found.dailyTarget);
    if |absences| == 0 {
      return Refused(NoWorkingDays);
    }
    assert IsWorkingDay(absences[0].day, place, schedules, found.dailyTarget);
    if !saves {
      return Refused(SaveFailed);
    }
    outcome := Recorded(absences);
  }

  /** A day that is no holiday of the place and asks something by the week in force. */
  ghost predicate IsWorkingDay(day: Day, place: string, schedules: seq<WorkSchedule>, dailyTarget: real) {
    && (forall h :: h in HolidaysOf(place, YearOf(day)) ==> h.day != day)
    && HoursOn(WeekOn(day, schedules, DefaultWeek(EffectiveDailyTarget(dailyTarget))), day) > 0.0
  }

  lemma HolidayKnown(day: Day, from: Day, to: Day, place: string, holidays: map<Day, Holiday>)
    requires from <= day <= to
    requires forall d :: d in holidays ==> InRange(place, from, to, holidays[d]) && holidays[d].day == d
    requires forall h :: InRange(place, from, to, h) ==> h.day in holidays
    ensures day in holidays <==> exists h :: h in HolidaysOf(place, YearOf(day)) && h.day == day
  {
    if h :| h in HolidaysOf(place, YearOf(day)) && h.day == day {
      assert InRange(place, from, to, h);
    }
  }

  /** The days collected are exactly the working days of the range, each once and in order. */
  lemma {:induction false} WorkingDaysExactly(first: Day, last: Day, holidays: map<Day, Holiday>,
                                              schedules: seq<WorkSchedule>, before: WeekHours)
    ensures var days := WorkingDays(first, last, holidays, schedules, before);
            && (forall day :: day in days <==> first <= day <= last && Works(day, holidays, schedules, before))
            && forall i, j :: 0 <= i < j < |days| ==> days[i] < days[j]
    decreases last - first
  {
    if first <= last {
      WorkingDaysExactly(first + 1, last, holidays, schedules, before);
      var rest := WorkingDays(first + 1, last, holidays, schedules, before);
      forall i | 0 <= i < |rest| ensures rest[i] > first {
        assert rest[i] in rest;
      }
    }
  }

  ghost predicate InDayOrder(absences: seq<Absence>) {
    forall i, j :: 0 <= i < j < |absences| ==> absences[i].day < absences[j].day
  }

  ghost predicate SameAbsences(a: seq<Absence>, b: seq<Absence>) {
    forall x :: x in a <==> x in b
  }

  /** There is one list of absences in the order of their days. */
  lemma {:induction false} OneOrder(a: seq<Absence>, b: seq<Absence>)
    requires InDayOrder(a) && InDayOrder(b) && SameAbsences(a, b)
    ensures a == b
  {
    NoneOrSome(a);
    NoneOrSome(b);
    if a != [] && b != [] {
      SameFirst(a, b);
      OneOrder(a[1..], b[1..]);
      assert a == [a[0]] + a[1..] && b == [b[0]] + b[1..];
    }
  }

  lemma NoneOrSome(a: seq<Absence>)
    ensures a == [] || exists x :: x in a
  {
    assert a != [] ==> a[0] in a;
  }

  lemma SameFirst(a: seq<Absence>, b: seq<Absence>)
    requires InDayOrder(a) && InDayOrder(b) && SameAbsences(a, b) && a != [] && b != []
    ensures a[0] == b[0] && InDayOrder(a[1..]) && InDayOrder(b[1..]) && SameAbsences(a[1..], b[1..])
  {
    assert a[0] in b && b[0] in a;
    forall x ensures x in a[1..] <==> x in b[1..] {
      assert x in a[1..] <==> x in a && x != a[0];
      assert x in b[1..] <==> x in b && x != b[0];
    }
  }

  lemma RecordedDays(absences: seq<Absence>, user: nat, from: Day, to: Day, kind: string,
                     place: string, schedules: seq<WorkSchedule>, dailyTarget: real, x: Absence)
    requires RecordsExactly(absences, user, from, to, kind, place, schedules, dailyTarget)
    ensures x in absences <==>
            x.user == user && x.kind == kind && from <= x.day <= to
            && IsWorkingDay(x.day, place, schedules, dailyTarget)
  {
    hide IsWorkingDay;
    assert x == Absence(x.user, x.day, x.kind);
  }

  lemma InTwo(a: seq<Absence>, b: seq<Absence>, middle: Day)
    requires InDayOrder(a) && InDayOrder(b)
    requires (forall x :: x in a ==> x.day <= middle) && forall x :: x in b ==> x.day > middle
    ensures InDayOrder(a + b)
  {
    forall i, j | 0 <= i < j < |a + b| ensures (a + b)[i].day < (a + b)[j].day {
      assert i < |a| ==> a[i] in a;
      assert j >= |a| ==> b[j - |a|] in b;
    }
  }

  /** Recorded in two parts, each with the holidays of its own, a range gives the absences that
      recording it whole gives. */
  lemma SplittingARange(a: seq<Absence>, b: seq<Absence>, whole: seq<Absence>, user: nat, first: Day, middle: Day,
                        last: Day,
                        kind: string, place: string, schedules: seq<WorkSchedule>, dailyTarget: real)
    requires first <= middle + 1 && middle <= last
    requires RecordsExactly(a, user, first, middle, kind, place, schedules, dailyTarget)
    requires RecordsExactly(b, user, middle + 1, last, kind, place, schedules, dailyTarget)
    requires RecordsExactly(whole, user, first, last, kind, place, schedules, dailyTarget)
    ensures whole == a + b
  {
    assert InDayOrder(a) && InDayOrder(b) && InDayOrder(whole);
    hide RecordsExactly, IsWorkingDay, InDayOrder;
    forall x ensures x in whole <==> x in a + b {
      RecordedDays(a, user, first, middle, kind, place, schedules, dailyTarget, x);
      RecordedDays(b, user, middle + 1, last, kind, place, schedules, dailyTarget, x);
      RecordedDays(whole, user, first, last, kind, place, schedules, dailyTarget, x);
    }
    forall x | x in a ensures x.day <= middle {
      RecordedDays(a, user, first, middle, kind, place, schedules, dailyTarget, x);
    }
    forall x | x in b ensures x.day > middle {
      RecordedDays(b, user, middle + 1, last, kind, place, schedules, dailyTarget, x);
    }
    InTwo(a, b, middle);
    OneOrder(whole, a + b);
  }

  // ----- whose holidays, how many hours, and which ranges -----

  /** Somebody keeps the holidays of their own choice, or where they made none those of the
      installation's; "none" is no place and has none. */
  lemma WhoseHolidays(user: User, installation: string, year: int)
    ensures HolidaysOf(HolidayPlaceOf(user, installation), year)
            == HolidaysOf(if user.choice == "" then installation else user.choice, year)
    ensures HolidaysOf(NO_HOLIDAYS, year) == HolidaysOf("", year) == []
  {
    assert CutAt("none", '-') == ("none", "", false) by {
      CutIs("none", '-');
    }
    assert CountryOf("none").None? && CountryOf("").None?;
    hide CountryOf, Window;
  }

  /** Without a schedule of their own somebody works on every day from Monday to Friday that is no
      holiday, whatever daily target they have chosen or not. */
  lemma WorkWithoutASchedule(day: Day, place: string, dailyTarget: real)
    ensures IsWorkingDay(day, place, [], dailyTarget) <==>
            !Weekend(day) && forall h :: h in HolidaysOf(place, YearOf(day)) ==> h.day != day
  {
    hide HolidaysOf, YearOf;
    DefaultWeekRestsAtTheWeekend(EffectiveDailyTarget(dailyTarget), day);
  }

  lemma CalendarYears(day: Day)
    ensures OnTheCalendar(day) <==> 1900 <= YearOf(day) <= 9999
  {
    YearHolds(day);
    hide NewYearsDay, YearOf, Leap;
    if YearOf(day) < 1900 {
      YearsAscend(YearOf(day) + 1, 1900);
    } else if YearOf(day) > 9999 {
      YearsAscend(10000, YearOf(day));
    } else {
      YearsAscend(1900, YearOf(day));
      YearsAscend(YearOf(day) + 1, 10000);
    }
  }

  /** What is refused before any day is looked at, each case with the one answer it has: fields that
      are wrong, all of them at once and in their order; then a range that ends before it begins or
      has more than 371 days; then what the repositories do not answer. */
  lemma RefusedExactly(from: Day, to: Day, kind: string, answers: Answers)
    ensures var refusal := Refusal(from, to, kind, answers);
            var fromIsRight, toIsRight := 1900 <= YearOf(from) <= 9999, 1900 <= YearOf(to) <= 9999;
            var kindIsRight := kind in {"vacation", "halfVacation", "sick", "flexDay", "localHoliday"};
            if !fromIsRight || !toIsRight || !kindIsRight then
              && refusal.Some? && refusal.value.InvalidFields?
              && var fields := refusal.value.fields;
              && (forall f :: f in fields <==>
                    (f == "from" && !fromIsRight) || (f == "to" && !toIsRight) || (f == "kind" && !kindIsRight))
              && forall i, j :: 0 <= i < j < |fields| ==> FieldBefore(fields[i], fields[j])
            else if from <= to <= from + 370 then
              if answers.user.None? then refusal == Some(NoUser)
              else if answers.schedules.None? then refusal == Some(NoSchedules)
              else refusal == if answers.installation.None? then Some(NoPlace) else None
            else refusal == Some(if to < from then RangeInverted else RangeTooLong)
  {
    CalendarYears(from);
    CalendarYears(to);
    hide YearOf, OnTheCalendar;
  }

  predicate FieldBefore(a: string, b: string) {
    (a == "from" && b in {"to", "kind"}) || (a == "to" && b == "kind")
  }
}
