/** The holidays of every country the application keeps, rule by rule. */
module HolidayTables {
  import opened Options
  import opened Calendar
  import opened HolidayRules
  import opened HolidayYear

  const SUSPENDED_IN_PORTUGAL := [2013, 2014, 2015]

  const AT := Country(
    [
      Rule("newYear", Fixed(1, 1)),
      Rule("epiphany", Fixed(1, 6)),
      Rule("easterSunday", AfterEaster(0)),
      Rule("easterMonday", AfterEaster(1)),
      Rule("labourDay", Fixed(5, 1)),
      Rule("ascension", AfterEaster(39)),
      Rule("whitSunday", AfterEaster(49)),
      Rule("whitMonday", AfterEaster(50)),
      Rule("corpusChristi", AfterEaster(60)),
      Rule("assumption", Fixed(8, 15)),
      Rule("nationalDay", Fixed(10, 26), from := 1967),
      Rule("allSaints", Fixed(11, 1)),
      Rule("immaculateConception", Fixed(12, 8)),
      Rule("christmasDay", Fixed(12, 25)),
      Rule("stStephensDay", Fixed(12, 26))
    ])

  const BE := Country(
    [
      Rule("newYear", Fixed(1, 1)),
      Rule("easterMonday", AfterEaster(1)),
      Rule("labourDay", Fixed(5, 1)),
      Rule("ascension", AfterEaster(39)),
      Rule("whitMonday", AfterEaster(50)),
      Rule("nationalDay", Fixed(7, 21)),
      Rule("assumption", Fixed(8, 15)),
      Rule("allSaints", Fixed(11, 1)),
      Rule("armisticeDay", Fixed(11, 11)),
      Rule("christmasDay", Fixed(12, 25))
    ])

  const CZ := Country(
    [
      Rule("newYear", Fixed(1, 1)),
      Rule("goodFriday", AfterEaster(-2), from := 2016),
      Rule("easterMonday", AfterEaster(1)),
      Rule("labourDay", Fixed(5, 1)),
      Rule("liberationDay", Fixed(5, 8)),
      Rule("cyrilAndMethodiusDay", Fixed(7, 5)),
      Rule("janHusDay", Fixed(7, 6)),
      Rule("statehoodDay", Fixed(9, 28)),
      Rule("independenceDay", Fixed(10, 28)),
      Rule("freedomAndDemocracyDay", Fixed(11, 17)),
      Rule("christmasEve", Fixed(12, 24)),
      Rule("christmasDay", Fixed(12, 25)),
      Rule("stStephensDay", Fixed(12, 26))
    ])

  const DE := Country(
    [
      Rule("newYear", Fixed(1, 1)),
      Rule("epiphany", Fixed(1, 6), regions := "BW BY ST"),
      Rule("womensDay", Fixed(3, 8), regions := "BE", from := 2019),
      Rule("womensDay", Fixed(3, 8), regions := "MV", from := 2023),
      Rule("goodFriday", AfterEaster(-2)),
      Rule("easterSunday", AfterEaster(0), regions := "BB"),
      Rule("easterMonday", AfterEaster(1)),
      Rule("labourDay", Fixed(5, 1)),
      Rule("liberationDay", Fixed(5, 8), regions := "BE", only := Some([2020, 2025])),
      Rule("ascension", AfterEaster(39)),
      Rule("whitSunday", AfterEaster(49), regions := "BB"),
      Rule("whitMonday", AfterEaster(50)),
      Rule("corpusChristi", AfterEaster(60), regions := "BW BY HE NW RP SL"),
      Rule("uprisingDay", Fixed(6, 17), regions := "BE", only := Some([2028])),
      Rule("assumption", Fixed(8, 15), regions := "SL"),
      Rule("childrensDay", Fixed(9, 20), regions := "TH", from := 2019),
      Rule("germanUnity", Fixed(10, 3), from := 1990),
      Rule("reformationDay", Fixed(10, 31), regions := "BB MV SN ST TH"),
      Rule("reformationDay", Fixed(10, 31), regions := "HB HH NI SH", from := 2018),
      Rule("reformationDay", Fixed(10, 31), only := Some([2017])),
      Rule("allSaints", Fixed(11, 1), regions := "BW BY NW RP SL"),
      Rule("repentanceDay", RepentanceDay, regions := "SN"),
      Rule("repentanceDay", RepentanceDay, until := 1994),
      Rule("christmasDay", Fixed(12, 25)),
      Rule("stStephensDay", Fixed(12, 26))
    ],
    regions := ["BW", "BY", "BE", "BB", "HB", "HH", "HE", "MV", "NI", "NW", "RP", "SL", "SN", "ST", "SH", "TH"],
    regionRequired := true)

  const DK := Country(
    [
      Rule("newYear", Fixed(1, 1)),
      Rule("maundyThursday", AfterEaster(-3)),
      Rule("goodFriday", AfterEaster(-2)),
      Rule("easterSunday", AfterEaster(0)),
      Rule("easterMonday", AfterEaster(1)),
      Rule("greatPrayerDay", AfterEaster(26), until := 2023),
      Rule("ascension", AfterEaster(39)),
      Rule("whitSunday", AfterEaster(49)),
      Rule("whitMonday", AfterEaster(50)),
      Rule("christmasDay", Fixed(12, 25)),
      Rule("stStephensDay", Fixed(12, 26))
    ])

  const FI := Country(
    [
      Rule("newYear", Fixed(1, 1)),
      Rule("epiphany", Fixed(1, 6)),
      Rule("goodFriday", AfterEaster(-2)),
      Rule("easterSunday", AfterEaster(0)),
      Rule("easterMonday", AfterEaster(1)),
      Rule("labourDay", Fixed(5, 1)),
      Rule("ascension", AfterEaster(39)),
      Rule("whitSunday", AfterEaster(49)),
      Rule("midsummerEve", WeekdayAfter(FRIDAY, 6, 19)),
      Rule("midsummerDay", WeekdayAfter(SATURDAY, 6, 20)),
      Rule("allSaints", WeekdayAfter(SATURDAY, 10, 31)),
      Rule("independenceDay", Fixed(12, 6)),
      Rule("christmasEve", Fixed(12, 24)),
      Rule("christmasDay", Fixed(12, 25)),
      Rule("stStephensDay", Fixed(12, 26))
    ])

  const FR := Country(
    [
      Rule("newYear", Fixed(1, 1)),
      Rule("goodFriday", AfterEaster(-2), regions := "6AE 57"),
      Rule("easterMonday", AfterEaster(1)),
      Rule("labourDay", Fixed(5, 1)),
      Rule("victoryInEurope", Fixed(5, 8), from := 1982),
      Rule("ascension", AfterEaster(39)),
      Rule("whitMonday", AfterEaster(50)),
      Rule("nationalDay", Fixed(7, 14)),
      Rule("assumption", Fixed(8, 15)),
      Rule("allSaints", Fixed(11, 1)),
      Rule("armisticeDay", Fixed(11, 11)),
      Rule("christmasDay", Fixed(12, 25)),
      Rule("stStephensDay", Fixed(12, 26), regions := "6AE 57")
    ],
    regions := ["6AE", "57"])

  const GB := Country(
    [
      Rule("newYear", Fixed(1, 1)),
      Rule("secondJanuary", Fixed(1, 2), regions := "SCT"),
      Rule("stPatricksDay", Fixed(3, 17), regions := "NIR"),
      Rule("goodFriday", AfterEaster(-2)),
      Rule("easterMonday", AfterEaster(1), regions := "ENG WLS NIR"),
      Rule("earlyMayBankHoliday", NthWeekday(1, MONDAY, 5), from := 1978, except := [2020]),
      Rule("earlyMayBankHoliday", Fixed(5, 8), only := Some([2020])),
      Rule("springBankHoliday", LastWeekday(MONDAY, 5), except := [2012, 2022]),
      Rule("springBankHoliday", Fixed(6, 4), only := Some([2012])),
      Rule("springBankHoliday", Fixed(6, 2), only := Some([2022])),
      Rule("battleOfTheBoyne", Fixed(7, 12), regions := "NIR"),
      Rule("summerBankHoliday", NthWeekday(1, MONDAY, 8), regions := "SCT"),
      Rule("summerBankHoliday", LastWeekday(MONDAY, 8), regions := "ENG WLS NIR"),
      Rule("stAndrewsDay", Fixed(11, 30), regions := "SCT", from := 2007),
      Rule("christmasDay", Fixed(12, 25)),
      Rule("stStephensDay", Fixed(12, 26)),
      Rule("royalWedding", Fixed(4, 29), only := Some([2011])),
      Rule("diamondJubilee", Fixed(6, 5), only := Some([2012])),
      Rule("platinumJubilee", Fixed(6, 3), only := Some([2022])),
      Rule("stateFuneral", Fixed(9, 19), only := Some([2022])),
      Rule("coronation", Fixed(5, 8), only := Some([2023])),
      Rule("worldCup", Fixed(6, 15), regions := "SCT", only := Some([2026]))
    ],
    regions := ["ENG", "WLS", "SCT", "NIR"],
    regionRequired := true,
    substitution := NextFreeWeekday)

  const IE := Country(
    [
      Rule("newYear", Fixed(1, 1)),
      Rule("stBrigidsDay", StBrigidsDay, from := 2023),
      Rule("stPatricksDay", Fixed(3, 17)),
      Rule("dayOfRemembrance", Fixed(3, 18), only := Some([2022])),
      Rule("easterMonday", AfterEaster(1)),
      Rule("mayBankHoliday", NthWeekday(1, MONDAY, 5), from := 1994),
      Rule("juneBankHoliday", NthWeekday(1, MONDAY, 6)),
      Rule("augustBankHoliday", NthWeekday(1, MONDAY, 8)),
      Rule("octoberBankHoliday", LastWeekday(MONDAY, 10), from := 1977),
      Rule("christmasDay", Fixed(12, 25)),
      Rule("stStephensDay", Fixed(12, 26))
    ])

  const IT := Country(
    [
      Rule("newYear", Fixed(1, 1)),
      Rule("epiphany", Fixed(1, 6)),
      Rule("easterSunday", AfterEaster(0)),
      Rule("easterMonday", AfterEaster(1)),
      Rule("liberationDay", Fixed(4, 25)),
      Rule("labourDay", Fixed(5, 1)),
      Rule("whitMonday", AfterEaster(50), regions := "BZ"),
      Rule("republicDay", Fixed(6, 2), from := 2001),
      Rule("assumption", Fixed(8, 15)),
      Rule("stFrancisDay", Fixed(10, 4), from := 2026),
      Rule("allSaints", Fixed(11, 1)),
      Rule("immaculateConception", Fixed(12, 8)),
      Rule("christmasDay", Fixed(12, 25)),
      Rule("stStephensDay", Fixed(12, 26))
    ],
    regions := ["BZ"])

  const LU := Country(
    [
      Rule("newYear", Fixed(1, 1)),
      Rule("easterMonday", AfterEaster(1)),
      Rule("labourDay", Fixed(5, 1)),
      Rule("europeDay", Fixed(5, 9), from := 2019),
      Rule("ascension", AfterEaster(39)),
      Rule("whitMonday", AfterEaster(50)),
      Rule("nationalDay", Fixed(6, 23)),
      Rule("assumption", Fixed(8, 15)),
      Rule("allSaints", Fixed(11, 1)),
      Rule("christmasDay", Fixed(12, 25)),
      Rule("stStephensDay", Fixed(12, 26))
    ])

  const NL := Country(
    [
      Rule("newYear", Fixed(1, 1)),
      Rule("easterSunday", AfterEaster(0)),
      Rule("easterMonday", AfterEaster(1)),
      Rule("queensDay", SaturdayForSunday(4, 30), from := 1980, until := 2013),
      Rule("kingsDay", SaturdayForSunday(4, 27), from := 2014),
      Rule("ascension", AfterEaster(39)),
      Rule("whitSunday", AfterEaster(49)),
      Rule("whitMonday", AfterEaster(50)),
      Rule("christmasDay", Fixed(12, 25)),
      Rule("stStephensDay", Fixed(12, 26))
    ])

  const NO := Country(
    [
      Rule("newYear", Fixed(1, 1)),
      Rule("maundyThursday", AfterEaster(-3)),
      Rule("goodFriday", AfterEaster(-2)),
      Rule("easterSunday", AfterEaster(0)),
      Rule("easterMonday", AfterEaster(1)),
      Rule("labourDay", Fixed(5, 1)),
      Rule("constitutionDay", Fixed(5, 17)),
      Rule("ascension", AfterEaster(39)),
      Rule("whitSunday", AfterEaster(49)),
      Rule("whitMonday", AfterEaster(50)),
      Rule("christmasDay", Fixed(12, 25)),
      Rule("stStephensDay", Fixed(12, 26))
    ])

  const PL := Country(
    [
      Rule("newYear", Fixed(1, 1)),
      Rule("epiphany", Fixed(1, 6), from := 2011),
      Rule("easterSunday", AfterEaster(0)),
      Rule("easterMonday", AfterEaster(1)),
      Rule("labourDay", Fixed(5, 1)),
      Rule("constitutionDay", Fixed(5, 3)),
      Rule("whitSunday", AfterEaster(49)),
      Rule("corpusChristi", AfterEaster(60)),
      Rule("assumption", Fixed(8, 15)),
      Rule("allSaints", Fixed(11, 1)),
      Rule("independenceDay", Fixed(11, 11)),
      Rule("christmasEve", Fixed(12, 24), from := 2025),
      Rule("christmasDay", Fixed(12, 25)),
      Rule("stStephensDay", Fixed(12, 26))
    ])

  const PT := Country(
    [
      Rule("newYear", Fixed(1, 1)),
      Rule("goodFriday", AfterEaster(-2)),
      Rule("easterSunday", AfterEaster(0)),
      Rule("freedomDay", Fixed(4, 25)),
      Rule("labourDay", Fixed(5, 1)),
      Rule("azoresDay", AfterEaster(50), regions := "20"),
      Rule("corpusChristi", AfterEaster(60), except := SUSPENDED_IN_PORTUGAL),
      Rule("nationalDay", Fixed(6, 10)),
      Rule("madeiraDay", Fixed(7, 1), regions := "30"),
      Rule("assumption", Fixed(8, 15)),
      Rule("republicDay", Fixed(10, 5), except := SUSPENDED_IN_PORTUGAL),
      Rule("allSaints", Fixed(11, 1), except := SUSPENDED_IN_PORTUGAL),
      Rule("restorationOfIndependence", Fixed(12, 1), except := SUSPENDED_IN_PORTUGAL),
      Rule("immaculateConception", Fixed(12, 8)),
      Rule("christmasDay", Fixed(12, 25)),
      Rule("stStephensDay", Fixed(12, 26), regions := "30")
    ],
    regions := ["20", "30"])

  const SE := Country(
    [
      Rule("newYear", Fixed(1, 1)),
      Rule("epiphany", Fixed(1, 6)),
      Rule("goodFriday", AfterEaster(-2)),
      Rule("easterSunday", AfterEaster(0)),
      Rule("easterMonday", AfterEaster(1)),
      Rule("labourDay", Fixed(5, 1)),
      Rule("ascension", AfterEaster(39)),
      Rule("whitSunday", AfterEaster(49)),
      Rule("whitMonday", AfterEaster(50), until := 2004),
      Rule("nationalDay", Fixed(6, 6), from := 2005),
      Rule("midsummerEve", WeekdayAfter(FRIDAY, 6, 19)),
      Rule("midsummerDay", WeekdayAfter(SATURDAY, 6, 20)),
      Rule("allSaints", WeekdayAfter(SATURDAY, 10, 31)),
      Rule("christmasEve", Fixed(12, 24)),
      Rule("christmasDay", Fixed(12, 25)),
      Rule("stStephensDay", Fixed(12, 26)),
      Rule("newYearsEve", Fixed(12, 31))
    ])

  const US := Country(
    [
      Rule("newYear", Fixed(1, 1)),
      Rule("martinLutherKingDay", NthWeekday(3, MONDAY, 1), from := 1986),
      Rule("washingtonsBirthday", NthWeekday(3, MONDAY, 2)),
      Rule("memorialDay", LastWeekday(MONDAY, 5)),
      Rule("juneteenth", Fixed(6, 19), from := 2021),
      Rule("independenceDay", Fixed(7, 4)),
      Rule("labourDay", NthWeekday(1, MONDAY, 9)),
      Rule("columbusDay", NthWeekday(2, MONDAY, 10)),
      Rule("veteransDay", Fixed(11, 11)),
      Rule("thanksgiving", NthWeekday(4, THURSDAY, 11)),
      Rule("christmasDay", Fixed(12, 25))
    ],
    substitution := NearestWeekday)

  /** The countries by their ISO 3166-1 code. */
  function CountryOf(code: string): Option<Country> {
    if code == "AT" then Some(AT)
    else if code == "BE" then Some(BE)
    else if code == "CZ" then Some(CZ)
    else if code == "DE" then Some(DE)
    else if code == "DK" then Some(DK)
    else if code == "FI" then Some(FI)
    else if code == "FR" then Some(FR)
    else if code == "GB" then Some(GB)
    else if code == "IE" then Some(IE)
    else if code == "IT" then Some(IT)
    else if code == "LU" then Some(LU)
    else if code == "NL" then Some(NL)
    else if code == "NO" then Some(NO)
    else if code == "PL" then Some(PL)
    else if code == "PT" then Some(PT)
    else if code == "SE" then Some(SE)
    else if code == "US" then Some(US)
    else None
  }

  /** Every rule of every country gives a day of the year it is asked for. */
  lemma RulesStayInTheirYear(code: string, year: int)
    requires CountryOf(code).Some?
    ensures forall rule :: rule in CountryOf(code).value.rules ==> YearOf(DayOn(rule.on, year)) == year
  {
    forall rule | rule in CountryOf(code).value.rules ensures YearOf(DayOn(rule.on, year)) == year {
      RuleStaysInItsYear(rule.on, year);
    }
  }

  lemma CountriesValid(code: string)
    ensures CountryOf(code).Some? ==> CountryOf(code).value.Valid()
  {
  }

  /** Only Britain and the United States move a holiday off a weekend. */
  lemma WhoSubstitutes(code: string)
    requires CountryOf(code).Some?
    ensures CountryOf(code).value.substitution == NextFreeWeekday ==> CountryOf(code).value == GB
    ensures CountryOf(code).value.substitution == NearestWeekday ==> CountryOf(code).value == US
  {
  }
}
