/** Planned weeks and entitlements to leave: lookups for the latest entry in force. Hours and
    days of leave are real numbers. */
module Targets {
  import opened Calendar

  // ----- planned weeks -----

  /** The hours each weekday asks, Monday first. */
  type WeekHours = w: seq<real> | |w| == 7 witness [0.0, 0.0, 0.0, 0.0, 0.0, 0.0, 0.0]

  datatype WorkSchedule = WorkSchedule(validFrom: Day, hours: WeekHours)

  function HoursOn(week: WeekHours, day: Day): real {
    week[(Weekday(day) + 6) % 7]
  }

  function DefaultWeek(dailyTarget: real): WeekHours {
    [dailyTarget, dailyTarget, dailyTarget, dailyTarget, dailyTarget, 0.0, 0.0]
  }

  /** The default week asks the daily target on every day but the weekend. */
  lemma DefaultWeekRestsAtTheWeekend(dailyTarget: real, day: Day)
    ensures HoursOn(DefaultWeek(dailyTarget), day) == if Weekend(day) then 0.0 else dailyTarget
  {
    assert Weekday(day) in {0, 1, 2, 3, 4, 5, 6};
  }

  /** A week is read from its Monday on. */
  lemma EachDayHasItsHours(week: WeekHours, monday: Day, k: nat)
    requires Weekday(monday) == MONDAY && k < 7
    ensures HoursOn(week, monday + k) == week[k]
  {
    assert k in {0, 1, 2, 3, 4, 5, 6};
  }

  ghost predicate Ordered(schedules: seq<WorkSchedule>) {
    forall i, j :: 0 <= i < j < |schedules| ==> schedules[i].validFrom <= schedules[j].validFrom
  }

  /** The scan as the source makes it: forward until the first schedule still to come. */
  function WeekOn(day: Day, schedules: seq<WorkSchedule>, before: WeekHours): WeekHours {
    if schedules == [] || schedules[0].validFrom > day then before
    else WeekOn(day, schedules[1..], schedules[0].hours)
  }

  method TargetOn(day: Day, schedules: seq<WorkSchedule>, before: WeekHours) returns (target: real)
    ensures target == HoursOn(WeekOn(day, schedules, before), day)
  {
    var week := before;
    for i := 0 to |schedules|
      invariant WeekOn(day, schedules[i..], week) == WeekOn(day, schedules, before)
    {
      if schedules[i].validFrom > day {
        break;
      }
      week := schedules[i].hours;
    }
    target := HoursOn(week, day);
  }

  /** The k-th schedule is in force on a day, and every other that is comes before it. */
  ghost predicate LatestInForce(day: Day, schedules: seq<WorkSchedule>, k: int) {
    && 0 <= k < |schedules| && schedules[k].validFrom <= day
    && forall j :: 0 <= j < |schedules| && schedules[j].validFrom <= day
                   ==> j <= k && schedules[j].validFrom <= schedules[k].validFrom
  }

  ghost predicate NoneInForce(day: Day, schedules: seq<WorkSchedule>) {
    forall j :: 0 <= j < |schedules| ==> schedules[j].validFrom > day
  }

  /** On a plan in order, the early exit costs nothing: the scan answers with the latest
      schedule in force, and with the week before the plan where none is. */
  lemma {:induction false} WeekIsLatestInForce(day: Day, schedules: seq<WorkSchedule>, before: WeekHours)
    requires Ordered(schedules)
    ensures forall k :: LatestInForce(day, schedules, k) ==> WeekOn(day, schedules, before) == schedules[k].hours
    ensures NoneInForce(day, schedules) ==> WeekOn(day, schedules, before) == before
    ensures NoneInForce(day, schedules) || exists k :: LatestInForce(day, schedules, k)
  {
    if schedules != [] && schedules[0].validFrom <= day {
      var rest := schedules[1..];
      WeekIsLatestInForce(day, rest, schedules[0].hours);
      forall k | LatestInForce(day, schedules, k) ensures WeekOn(day, schedules, before) == schedules[k].hours {
        if k > 0 {
          forall j | 0 <= j < |rest| && rest[j].validFrom <= day
            ensures j <= k - 1 && rest[j].validFrom <= rest[k - 1].validFrom
          {
            assert schedules[j + 1].validFrom <= day;
          }
          assert LatestInForce(day, rest, k - 1);
        } else {
          assert forall j :: 0 <= j < |rest| ==> rest[j] == schedules[j + 1];
          assert NoneInForce(day, rest);
        }
      }
      if NoneInForce(day, rest) {
        assert forall j :: 1 <= j < |schedules| ==> schedules[j] == rest[j - 1];
        assert LatestInForce(day, schedules, 0);
      } else {
        var k :| LatestInForce(day, rest, k);
        assert forall j :: 1 <= j < |schedules| ==> schedules[j] == rest[j - 1];
        assert LatestInForce(day, schedules, k + 1);
      }
    }
  }

  /** A schedule planned from a day on changes no answer before that day. */
  lemma {:induction false} NewScheduleKeepsThePast(
    day: Day, a: seq<WorkSchedule>, added: WorkSchedule, b: seq<WorkSchedule>, before: WeekHours)
    requires Ordered(a + [added] + b) && day < added.validFrom
    ensures WeekOn(day, a + [added] + b, before) == WeekOn(day, a + b, before)
  {
    if a == [] {
      assert a + [added] + b == [added] + b && a + b == b;
      assert b != [] ==> ([added] + b)[1] == b[0];
    } else {
      assert (a + [added] + b)[1..] == a[1..] + [added] + b;
      assert (a + b)[1..] == a[1..] + b;
      NewScheduleKeepsThePast(day, a[1..], added, b, a[0].hours);
    }
  }

  // ----- leave -----

  datatype Entitlement = Entitlement(fromYear: int, days: real)

  method EntitlementIn(year: int, entitlements: seq<Entitlement>) returns (days: real, found: bool)
    ensures found <==> exists e :: e in entitlements && e.fromYear <= year
    ensures found ==> exists e :: LatestFrom(year, entitlements, e) && days == e.days
    ensures !found ==> days == 0.0
  {
    days, found := 0.0, false;
    var from := 0;
    ghost var best := Entitlement(0, 0.0);
    for i := 0 to |entitlements|
      invariant found <==> exists e :: e in entitlements[..i] && e.fromYear <= year
      invariant found ==> LatestFrom(year, entitlements[..i], best) && best.days == days && best.fromYear == from
      invariant !found ==> days == 0.0
    {
      var e := entitlements[i];
      assert entitlements[..i + 1] == entitlements[..i] + [e];
      if e.fromYear <= year && (!found || e.fromYear > from) {
        days, found, from := e.days, true, e.fromYear;
        best := e;
      }
    }
    assert entitlements[..|entitlements|] == entitlements;
  }

  /** An entitlement that holds in a year, and none that holds is from a later one. */
  ghost predicate LatestFrom(year: int, entitlements: seq<Entitlement>, e: Entitlement) {
    && e in entitlements && e.fromYear <= year
    && forall other :: other in entitlements && other.fromYear <= year ==> other.fromYear <= e.fromYear
  }

  ghost predicate DistinctYears(entitlements: seq<Entitlement>) {
    forall i, j :: 0 <= i < j < |entitlements| ==> entitlements[i].fromYear != entitlements[j].fromYear
  }

  /** With one entitlement a year the answer is unique, whatever order they come in. */
  lemma OneLatest(year: int, a: seq<Entitlement>, b: seq<Entitlement>, x: Entitlement, y: Entitlement)
    requires DistinctYears(a) && multiset(a) == multiset(b)
    requires LatestFrom(year, a, x) && LatestFrom(year, b, y)
    ensures x == y
  {
    assert y in multiset(b) && y in multiset(a);
    assert x in multiset(a) && x in multiset(b);
    var i :| 0 <= i < |a| && a[i] == x;
    var j :| 0 <= j < |a| && a[j] == y;
  }

  /** An entitlement from a year on changes no answer before that year. */
  lemma NewEntitlementKeepsThePast(year: int, a: seq<Entitlement>, added: Entitlement, b: seq<Entitlement>,
                                   e: Entitlement)
    requires year < added.fromYear
    ensures LatestFrom(year, a + [added] + b, e) <==> LatestFrom(year, a + b, e)
  {
    assert forall x :: x in a + [added] + b <==> x in a + b || x == added;
  }
}
