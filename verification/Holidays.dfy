/** The holidays of a place: the window of three years a year is read from, and the days
    between two dates. */
module Holidays {
  import opened Options
  import opened Calendar
  import opened HolidayRules
  import opened Sorting
  import opened Strings
  import opened HolidayYear
  import opened HolidayTables

  // ----- places -----

  predicate ValidPlace(place: string) {
    var (code, region, dash) := CutAt(place, '-');
    match CountryOf(code)
    case None => false
    case Some(c) => if region == "" then !c.regionRequired && !dash else region in c.regions
  }

  /** How a place is written: the country, and its region after a dash where there is one. */
  function PlaceOf(code: string, region: string): string {
    if region == "" then code else code + "-" + region
  }

  /** A region a country's holidays can be asked for, the empty one standing for the whole. */
  predicate HasRegion(code: string, region: string) {
    && CountryOf(code).Some?
    && if region == "" then !CountryOf(code).value.regionRequired else region in CountryOf(code).value.regions
  }

  lemma CodesHaveNoDash(code: string)
    requires CountryOf(code).Some?
    ensures '-' !in code
  {
  }

  lemma PlaceInParts(code: string, region: string)
    requires '-' !in code
    ensures CutAt(PlaceOf(code, region), '-') == (code, region, region != "")
  {
    CutIs(code, '-');
    if region == "" {
    } else {
      assert PlaceOf(code, region) == code + (['-'] + region);
      CutInTwo(code, ['-'] + region, '-');
      CutAtOnce('-', region);
      assert code + "" == code;
    }
  }

  /** The places are the countries with their regions, each written in one way, and the holidays
      of a place are those of its country and region. */
  lemma PlacesExactly(place: string)
    ensures ValidPlace(place) <==> exists code, region :: place == PlaceOf(code, region) && HasRegion(code, region)
    ensures forall code, region, year :: place == PlaceOf(code, region) && HasRegion(code, region) ==>
              CountryOf(code).value.Valid() && HolidaysOf(place, year) == Window(CountryOf(code).value, region, year)
  {
    hide CountryOf, CutAt, Window;
    if ValidPlace(place) {
      var (code, region, dash) := CutAt(place, '-');
      CutIs(place, '-');
      assert place == PlaceOf(code, region) && HasRegion(code, region);
    }
    forall code, region | place == PlaceOf(code, region) && HasRegion(code, region)
      ensures ValidPlace(place) && CutAt(place, '-') == (code, region, region != "") && CountryOf(code).value.Valid()
    {
      CodesHaveNoDash(code);
      PlaceInParts(code, region);
      CountriesValid(code);
    }
  }

  // ----- the window -----

  function InYear(hs: seq<Holiday>, year: int): seq<Holiday> {
    if hs == [] then []
    else InYear(hs[..|hs| - 1], year) + if YearOf(hs[|hs| - 1].day) == year then [hs[|hs| - 1]] else []
  }

  function Window(c: Country, region: string, year: int): seq<Holiday>
    requires c.Valid()
  {
    InYear(YearOfHolidays(c, region, year - 1) + YearOfHolidays(c, region, year) + YearOfHolidays(c, region, year + 1),
      year)
  }

  function HolidaysOf(place: string, year: int): seq<Holiday> {
    if ValidPlace(place) then
      var (code, region, _) := CutAt(place, '-');
      CountriesValid(code);
      Window(CountryOf(code).value, region, year)
    else []
  }

  method HolidaysInWindow(c: Country, region: string, year: int) returns (holidays: seq<Holiday>)
    requires c.Valid()
    ensures holidays == Window(c, region, year)
  {
    holidays := [];
    ghost var years := [YearOfHolidays(c, region, year - 1), YearOfHolidays(c, region, year),
      YearOfHolidays(c, region, year + 1)];
    var y := year - 1;
    while y <= year + 1
      invariant year - 1 <= y <= year + 2
      invariant y == year - 1 ==> holidays == []
      invariant y == year ==> holidays == years[0]
      invariant y == year + 1 ==> holidays == years[0] + years[1]
      invariant y == year + 2 ==> holidays == years[0] + years[1] + years[2]
    {
      var more := HolidaysOfYear(c, region, y);
      holidays := holidays + more;
      y := y + 1;
    }
    holidays := InYear(holidays, year);
  }

  method HolidaysIn(place: string, year: int) returns (holidays: seq<Holiday>)
    ensures holidays == HolidaysOf(place, year)
  {
    if !ValidPlace(place) {
      return [];
    }
    var (code, region, _) := CutAt(place, '-');
    CountriesValid(code);
    holidays := HolidaysInWindow(CountryOf(code).value, region, year);
  }

  lemma {:induction false} InYearMembers(hs: seq<Holiday>, year: int)
    ensures forall h :: h in InYear(hs, year) <==> h in hs && YearOf(h.day) == year
  {
    if hs == [] {
    } else {
      InYearMembers(hs[..|hs| - 1], year);
      assert hs == hs[..|hs| - 1] + [hs[|hs| - 1]];
    }
  }

  /** The window loses nothing: a place's year holds exactly the holidays and substitutes,
      generated from any year's rules, whose day falls in it. */
  lemma WindowIsComplete(c: Country, region: string, year: int)
    requires c.Valid()
    ensures forall h :: h in Window(c, region, year) <==>
                        YearOf(h.day) == year && exists y :: h in YearOfHolidays(c, region, y)
  {
    var three := YearOfHolidays(c, region, year - 1) + YearOfHolidays(c, region, year)
      + YearOfHolidays(c, region, year + 1);
    InYearMembers(three, year);
    forall h, y | h in YearOfHolidays(c, region, y) && YearOf(h.day) == year ensures h in three {
      YearReach(c, region, y);
      assert y == year - 1 || y == year || y == year + 1;
    }
    forall h | h in three ensures exists y :: h in YearOfHolidays(c, region, y) {
      assert h in YearOfHolidays(c, region, year - 1) || h in YearOfHolidays(c, region, year)
             || h in YearOfHolidays(c, region, year + 1);
    }
  }

  lemma PlaceIsComplete(place: string, year: int)
    requires ValidPlace(place)
    ensures var (code, region, _) := CutAt(place, '-');
            && CountryOf(code).Some? && CountryOf(code).value.Valid()
            && forall h :: h in HolidaysOf(place, year) <==>
                           YearOf(h.day) == year && exists y :: h in YearOfHolidays(CountryOf(code).value, region, y)
  {
    var (code, region, _) := CutAt(place, '-');
    CountriesValid(code);
    WindowIsComplete(CountryOf(code).value, region, year);
  }

  // ----- the days between two dates -----

  /** The map holds exactly the holidays of the place in the range whose year is before
      the given one, each under its own day. */
  ghost predicate FoundBefore(place: string, from: Day, to: Day, year: int, found: map<Day, Holiday>) {
    && (forall day :: day in found
                      ==> InRange(place, from, to, found[day]) && found[day].day == day && YearOf(day) < year)
    && (forall h :: InRange(place, from, to, h) && YearOf(h.day) < year ==> h.day in found)
  }

  ghost predicate InRange(place: string, from: Day, to: Day, h: Holiday) {
    from <= h.day <= to && h in HolidaysOf(place, YearOf(h.day))
  }

  /** Adds the holidays of a list that are in the range, each under its day. */
  method AddWithin(from: Day, to: Day, holidays: seq<Holiday>, was: map<Day, Holiday>)
    returns (found: map<Day, Holiday>)
    ensures forall day :: day in found ==> (day in was && found[day] == was[day])
                                           || (found[day] in holidays && found[day].day == day && from <= day <= to)
    ensures forall day :: day in was ==> day in found
    ensures forall h :: h in holidays && from <= h.day <= to ==> h.day in found
  {
    found := was;
    for k := 0 to |holidays|
      invariant forall day :: day in found ==> (day in was && found[day] == was[day])
                                               || (found[day] in holidays && found[day].day == day && from <= day <= to)
      invariant forall day :: day in was ==> day in found
      invariant forall i :: 0 <= i < k && from <= holidays[i].day <= to ==> holidays[i].day in found
    {
      if from <= holidays[k].day <= to {
        found := found[holidays[k].day := holidays[k]];
      }
    }
  }

  /** A place's holidays from one day to another by their day: every holiday of the place
      whose day is in the range, in whichever years it lies, and nothing else. */
  method HolidaysBetween(place: string, from: Day, to: Day) returns (found: map<Day, Holiday>)
    ensures forall day :: day in found ==> InRange(place, from, to, found[day]) && found[day].day == day
    ensures forall h :: InRange(place, from, to, h) ==> h.day in found
  {
    found := map[];
    var year := YearOf(from);
    forall h | InRange(place, from, to, h) ensures YearOf(from) <= YearOf(h.day) <= YearOf(to) {
      YearsOrdered(from, h.day);
      YearsOrdered(h.day, to);
    }
    while year <= YearOf(to)
      invariant FoundBefore(place, from, to, year, found)
      decreases YearOf(to) - year
    {
      var holidays := HolidaysIn(place, year);
      HolidaysFallInTheirYear(place, year);
      found := AddWithin(from, to, holidays, found);
      year := year + 1;
    }
  }

  lemma HolidaysFallInTheirYear(place: string, year: int)
    ensures forall h :: h in HolidaysOf(place, year) ==> YearOf(h.day) == year
  {
    if ValidPlace(place) {
      PlaceIsComplete(place, year);
    }
  }
}
