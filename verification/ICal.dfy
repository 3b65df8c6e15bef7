/** The calendar feed as it is written, and the dates in it. */
module ICal {
  import opened Options
  import opened Bytes
  import opened Utf8
  import opened ICalText
  import opened Calendar
  import opened Sentences
  import opened Numbers

  const PRODUCT_ID := "-//Go-Time-Recording//Calendar feed//EN"
  const REFRESH := "PT1H"

  datatype Event = Event(uid: string, day: Day, summary: string, description: string)

  /** A moment of UTC. */
  datatype Moment = Moment(day: Day, hour: nat, minute: nat, second: nat) {
    predicate Valid() { hour < 24 && minute < 60 && second < 60 }
  }

  type Instant = m: Moment | m.Valid() witness Moment(0, 0, 0, 0)

  datatype Feed = Feed(name: string, stamp: Instant, events: seq<Event>)

  // ----- dates -----

  function Padded(digits: string, width: nat): string
    decreases width - |digits|
  {
    if |digits| >= width then digits else Padded("0" + digits, width)
  }

  /** A year as Go's layouts write it: at least four digits, more where it takes them. */
  function YearText(year: int): string {
    if year < 0 then "-" + Padded(Decimal(-year), 4) else Padded(Decimal(year), 4)
  }

  function TwoDigits(n: nat): string {
    Padded(Decimal(n), 2)
  }

  function DateText(day: Day): string {
    DayOfCivilOf(day);
    var d := CivilOf(day);
    YearText(d.year) + TwoDigits(d.month) + TwoDigits(d.day)
  }

  function MomentText(at: Instant): string {
    DateText(at.day) + "T" + TwoDigits(at.hour) + TwoDigits(at.minute) + TwoDigits(at.second) + "Z"
  }

  /** A DATE by section 3.3.4: four digits of the year, two of the month, two of the day. */
  function ReadDate(text: string): Option<Day> {
    if |text| != 8 || !AllDigits(text) then None
    else
      var date := Civil(Value(text[..4]), Value(text[4..6]), Value(text[6..]));
      if date.Valid() then Some(DayOf(date)) else None
  }

  lemma {:induction false} PaddedKeeps(digits: string, width: nat)
    requires AllDigits(digits)
    ensures AllDigits(Padded(digits, width)) && Value(Padded(digits, width)) == Value(digits)
    ensures |Padded(digits, width)| == if |digits| >= width then |digits| else width
    decreases width - |digits|
  {
    if |digits| < width {
      LeadingZero(digits);
      PaddedKeeps("0" + digits, width);
    }
  }

  lemma {:induction false} DecimalLength(n: nat, width: nat)
    requires 1 <= width <= 4
    ensures |Decimal(n)| <= width <==>
            n < (if width == 1 then 10 else if width == 2 then 100 else if width == 3 then 1000 else 10000)
  {
    if n >= 10 {
      if width > 1 {
        DecimalLength(n / 10, width - 1);
      }
    }
  }

  lemma FixedWidth(n: nat, width: nat)
    requires (width == 2 && n < 100) || (width == 4 && n < 10000)
    ensures AllDigits(Padded(Decimal(n), width)) && |Padded(Decimal(n), width)| == width
      && Value(Padded(Decimal(n), width)) == n
  {
    PaddedKeeps(Decimal(n), width);
    ValueOfDecimal(n);
    DecimalLength(n, width);
  }

  /** A date written is read back exactly when its year has at most four digits. */
  lemma DateIsReadBack(day: Day)
    ensures ReadDate(DateText(day)) == if 0 <= YearOf(day) <= 9999 then Some(day) else None
  {
    DayOfCivilOf(day);
    YearHolds(day);
    var d := CivilOf(day);
    var y, m, n := YearText(d.year), TwoDigits(d.month), TwoDigits(d.day);
    FixedWidth(d.month, 2);
    FixedWidth(d.day, 2);
    if 0 <= d.year <= 9999 {
      FixedWidth(d.year, 4);
      PartsOfADate(y, m, n);
    } else {
      LongYear(d.year);
      assert |DateText(day)| > 8;
    }
  }

  lemma LongYear(year: int)
    requires year < 0 || year > 9999
    ensures |YearText(year)| > 4
  {
    var n := if year < 0 then -year else year;
    PaddedKeeps(Decimal(n), 4);
    DecimalLength(n, 4);
  }

  lemma PartsOfADate(y: string, m: string, d: string)
    requires |y| == 4 && |m| == 2 && |d| == 2 && AllDigits(y) && AllDigits(m) && AllDigits(d)
    ensures |y + m + d| == 8 && AllDigits(y + m + d)
    ensures (y + m + d)[..4] == y && (y + m + d)[4..6] == m && (y + m + d)[6..] == d
  {
  }

  /** A DATE-TIME of UTC by section 3.3.5. */
  function ReadMoment(text: string): Option<Moment> {
    if |text| != 16 || text[8] != 'T' || text[15] != 'Z'
      || !AllDigits(text[9..11] + text[11..13] + text[13..15]) then None
    else
      SixDigits(text[9..11], text[11..13], text[13..15]);
      match ReadDate(text[..8])
      case None => None
      case Some(day) =>
        var at := Moment(day, Value(text[9..11]), Value(text[11..13]), Value(text[13..15]));
        if at.Valid() then Some(at) else None
  }

  lemma SixDigits(a: string, b: string, c: string)
    ensures AllDigits(a + b + c) <==> AllDigits(a) && AllDigits(b) && AllDigits(c)
  {
    var s := a + b + c;
    assert forall i :: 0 <= i < |a| ==> a[i] == s[i];
    assert forall i :: 0 <= i < |b| ==> b[i] == s[|a| + i];
    assert forall i :: 0 <= i < |c| ==> c[i] == s[|a| + |b| + i];
  }

  lemma PartsOfAMoment(date: string, h: string, m: string, s: string)
    requires |date| == 8 && |h| == 2 && |m| == 2 && |s| == 2
    ensures var t := date + "T" + h + m + s + "Z";
            && |t| == 16 && t[8] == 'T' && t[15] == 'Z' && t[..8] == date
            && t[9..11] == h && t[11..13] == m && t[13..15] == s
  {
  }

  /** A moment written is read back exactly when its year has at most four digits. */
  lemma MomentIsReadBack(at: Instant)
    ensures ReadMoment(MomentText(at)) == if 0 <= YearOf(at.day) <= 9999 then Some(at) else None
  {
    hide DateText, ReadDate, TwoDigits;
    DateIsReadBack(at.day);
    var date, h, m, s := DateText(at.day), TwoDigits(at.hour), TwoDigits(at.minute), TwoDigits(at.second);
    TwoDigitsOf(at.hour);
    TwoDigitsOf(at.minute);
    TwoDigitsOf(at.second);
    DateLength(at.day);
    if |date| == 8 {
      PartsOfAMoment(date, h, m, s);
      SixDigits(h, m, s);
    } else {
      assert |MomentText(at)| > 16;
    }
  }

  lemma TwoDigitsOf(n: nat)
    requires n < 100
    ensures AllDigits(TwoDigits(n)) && |TwoDigits(n)| == 2 && Value(TwoDigits(n)) == n
  {
    FixedWidth(n, 2);
  }

  lemma DateLength(day: Day)
    ensures |DateText(day)| >= 8 && (|DateText(day)| == 8 <==> 0 <= YearOf(day) <= 9999)
    ensures OneLine(DateText(day))
  {
    DayOfCivilOf(day);
    var d := CivilOf(day);
    TwoDigitsOf(d.month);
    TwoDigitsOf(d.day);
    YearLengthOf(d.year);
    DigitsAreOneLine(TwoDigits(d.month));
    DigitsAreOneLine(TwoDigits(d.day));
  }

  lemma YearLengthOf(year: int)
    ensures |YearText(year)| >= 4 && (|YearText(year)| == 4 <==> 0 <= year <= 9999)
    ensures OneLine(YearText(year))
  {
    var n := if year < 0 then -year else year;
    PaddedKeeps(Decimal(n), 4);
    DecimalLength(n, 4);
    DigitsAreOneLine(Padded(Decimal(n), 4));
  }

  lemma DigitsAreOneLine(s: string)
    requires AllDigits(s)
    ensures OneLine(s)
  {
    assert forall i :: 0 <= i < |s| ==> Digit(s[i]);
  }

  lemma MomentIsOneLine(at: Instant)
    ensures OneLine(MomentText(at))
  {
    hide DateText, TwoDigits;
    DateLength(at.day);
    TwoDigitsOf(at.hour);
    TwoDigitsOf(at.minute);
    TwoDigitsOf(at.second);
    DigitsAreOneLine(TwoDigits(at.hour));
    DigitsAreOneLine(TwoDigits(at.minute));
    DigitsAreOneLine(TwoDigits(at.second));
  }

  // ----- writing -----

  function Property(name: string, value: string): string {
    name + ":" + value
  }

  const BEGIN_EVENT := Property("BEGIN", "VEVENT")
  const END_EVENT := Property("END", "VEVENT")
  const BEGIN_CALENDAR := Property("BEGIN", "VCALENDAR")
  const END_CALENDAR := Property("END", "VCALENDAR")

  function NameLines(name: string): seq<string> {
    if name == "" then [] else [Property("NAME", TextOf(name)), Property("X-WR-CALNAME", TextOf(name))]
  }

  const FIRST_LINES :=
    [BEGIN_CALENDAR, Property("VERSION", "2.0"), Property("PRODID", PRODUCT_ID), Property("CALSCALE", "GREGORIAN"),
     Property("METHOD", "PUBLISH")]

  const REFRESH_LINES := [Property("REFRESH-INTERVAL;VALUE=DURATION", REFRESH), Property("X-PUBLISHED-TTL", REFRESH)]

  function HeadLines(name: string): seq<string> {
    FIRST_LINES + NameLines(name) + REFRESH_LINES
  }

  function DescriptionLines(description: string): seq<string> {
    if description == "" then [] else [Property("DESCRIPTION", TextOf(description))]
  }

  function FirstEventLines(event: Event, stamp: Instant): seq<string> {
    [BEGIN_EVENT, Property("UID", TextOf(event.uid)), Property("DTSTAMP", MomentText(stamp)),
     Property("DTSTART;VALUE=DATE", DateText(event.day)), Property("DTEND;VALUE=DATE", DateText(event.day + 1)),
     Property("SUMMARY", TextOf(event.summary))]
  }

  const LAST_EVENT_LINES := [Property("TRANSP", "TRANSPARENT"), END_EVENT]

  function EventLines(event: Event, stamp: Instant): seq<string> {
    FirstEventLines(event, stamp) + DescriptionLines(event.description) + LAST_EVENT_LINES
  }

  function AllEventLines(events: seq<Event>, stamp: Instant): seq<string> {
    if events == [] then [] else AllEventLines(events[..|events| - 1], stamp) + EventLines(events[|events| - 1], stamp)
  }

  function ContentLines(feed: Feed): seq<string> {
    HeadLines(feed.name) + AllEventLines(feed.events, feed.stamp) + [END_CALENDAR]
  }

  function Octets(lines: seq<string>): seq<Byte> {
    if lines == [] then []
    else
      EncodedIsScannable(lines[|lines| - 1]);
      Octets(lines[..|lines| - 1]) + Folded(EncodeAll(lines[|lines| - 1])) + BREAK
  }

  method AddLine(out: seq<Byte>, line: string, ghost lines: seq<string>) returns (after: seq<Byte>)
    requires out == Octets(lines)
    ensures after == Octets(lines + [line])
  {
    EncodedIsScannable(line);
    var folded := Fold(EncodeAll(line));
    assert (lines + [line])[..|lines|] == lines;
    after := out + folded;
    after := after + BREAK;
  }

  method AddLines(out: seq<Byte>, add: seq<string>, ghost lines: seq<string>) returns (after: seq<Byte>)
    requires out == Octets(lines)
    ensures after == Octets(lines + add)
  {
    hide Octets;
    after := out;
    assert lines + add[..0] == lines;
    for i := 0 to |add|
      invariant after == Octets(lines + add[..i])
    {
      after := AddLine(after, add[i], lines + add[..i]);
      assert lines + add[..i] + [add[i]] == lines + add[..i + 1];
    }
    assert add[..|add|] == add;
  }

  method AddHead(name: string) returns (out: seq<Byte>)
    ensures out == Octets(HeadLines(name))
  {
    hide Octets, Property;
    assert Octets([]) == [] by { NoOctets(); }
    out := AddLines([], FIRST_LINES, []);
    ghost var lines := FIRST_LINES;
    assert [] + FIRST_LINES == FIRST_LINES;
    if name != "" {
      var text := WriteText(name);
      var add := [Property("NAME", text), Property("X-WR-CALNAME", text)];
      out := AddLines(out, add, lines);
      lines := lines + add;
    }
    assert lines == FIRST_LINES + NameLines(name);
    out := AddLines(out, REFRESH_LINES, lines);
  }

  lemma NoOctets()
    ensures Octets([]) == []
  {
  }

  method AddEvent(out: seq<Byte>, event: Event, stamp: Instant, ghost lines: seq<string>) returns (after: seq<Byte>)
    requires out == Octets(lines)
    ensures after == Octets(lines + EventLines(event, stamp))
  {
    hide Octets, DateText, MomentText, Property;
    var uid := WriteText(event.uid);
    var summary := WriteText(event.summary);
    var add := [BEGIN_EVENT, Property("UID", uid), Property("DTSTAMP", MomentText(stamp)),
                Property("DTSTART;VALUE=DATE", DateText(event.day)),
                Property("DTEND;VALUE=DATE", DateText(event.day + 1)),
                Property("SUMMARY", summary)];
    if event.description != "" {
      var description := WriteText(event.description);
      add := add + [Property("DESCRIPTION", description)];
    }
    add := add + LAST_EVENT_LINES;
    assert add == EventLines(event, stamp);
    after := AddLines(out, add, lines);
  }

  method Write(feed: Feed) returns (out: seq<Byte>)
    ensures out == Octets(ContentLines(feed))
  {
    hide Octets, HeadLines, EventLines;
    out := AddHead(feed.name);
    ghost var lines := HeadLines(feed.name);
    for i := 0 to |feed.events|
      invariant lines == HeadLines(feed.name) + AllEventLines(feed.events[..i], feed.stamp)
      invariant out == Octets(lines)
    {
      out := AddEvent(out, feed.events[i], feed.stamp, lines);
      assert feed.events[..i + 1][..i] == feed.events[..i];
      lines := lines + EventLines(feed.events[i], feed.stamp);
    }
    assert feed.events[..|feed.events|] == feed.events;
    out := AddLines(out, [END_CALENDAR], lines);
  }
}
