/** A reader of the calendar feed by RFC 5545: what is read is what was written. */
module ICalReader {
  import opened Options
  import opened Bytes
  import opened Utf8
  import opened ICalText
  import opened Calendar
  import opened Sentences
  import opened Strings
  import opened ICal

  // ----- lines there and back -----

  /** The lines an input is split into at its line breaks; none is left unended. */
  function Split(bytes: seq<Byte>, begun: seq<Byte>): Option<seq<seq<Byte>>> {
    if bytes == [] then (if begun == [] then Some([]) else None)
    else if |bytes| >= 2 && bytes[0] == CR && bytes[1] == LF then
      match Split(bytes[2..], [])
      case None => None
      case Some(rest) => Some([begun] + rest)
    else Split(bytes[1..], begun + [bytes[0]])
  }

  function DecodeLines(lines: seq<seq<Byte>>): Option<seq<string>> {
    if lines == [] then Some([])
    else match (DecodeLines(lines[..|lines| - 1]), DecodeAll(lines[|lines| - 1]))
      case (Some(before), Text(line)) => Some(before + [line])
      case _ => None
  }

  /** The content lines of a feed: unfolded, split and decoded. */
  function ReadLines(bytes: seq<Byte>): Option<seq<string>> {
    match Split(Unfolded(bytes), [])
    case None => None
    case Some(lines) => DecodeLines(lines)
  }

  function Plain(lines: seq<string>): seq<Byte> {
    if lines == [] then [] else Plain(lines[..|lines| - 1]) + EncodeAll(lines[|lines| - 1]) + BREAK
  }

  function Encoded(lines: seq<string>): seq<seq<Byte>> {
    if lines == [] then [] else Encoded(lines[..|lines| - 1]) + [EncodeAll(lines[|lines| - 1])]
  }

  /** A content line: no break in it, and it begins with neither space nor tab. */
  predicate ContentLine(line: string) {
    line != "" && line[0] != ' ' && line[0] != '\t' && OneLine(line)
  }

  predicate AllContentLines(lines: seq<string>) {
    forall i :: 0 <= i < |lines| ==> ContentLine(lines[i])
  }

  predicate White(bytes: seq<Byte>) {
    bytes != [] && (bytes[0] == SPACE || bytes[0] == TAB)
  }

  lemma OneLineHasNoBreak(s: string)
    requires ContentLine(s)
    ensures CR !in EncodeAll(s) && LF !in EncodeAll(s)
  {
    if CR in EncodeAll(s) {
      AsciiBytes(s, CR);
    }
    if LF in EncodeAll(s) {
      AsciiBytes(s, LF);
    }
  }

  lemma BeginsBlack(line: string, limit: nat)
    requires ContentLine(line) && limit >= 4
    ensures Scannable(EncodeAll(line)) && Joined(Pieces(EncodeAll(line), limit)) != []
    ensures !White(Joined(Pieces(EncodeAll(line), limit)))
  {
    EncodedIsScannable(line);
    var e := EncodeAll(line);
    EncodeShape(line[0]);
    assert e[0] == Encode(line[0])[0];
    assert !White(e) by {
      assert line[0] as int < 0x80 ==> e[0] == line[0] as int;
      assert line[0] as int >= 0x80 ==> Encode(line[0])[0] in Encode(line[0]);
    }
    if |e| > limit {
      JoinedStep(e, limit);
    }
  }

  lemma UnfoldBreak(rest: seq<Byte>)
    requires !White(rest)
    ensures Unfolded(BREAK + rest) == BREAK + Unfolded(rest)
  {
    var b := BREAK + rest;
    assert b[1..] == [LF] + rest && ([LF] + rest)[1..] == rest;
    assert rest != [] ==> b[2] == rest[0];
    assert Unfolded(b) == [CR] + Unfolded([LF] + rest);
    assert Unfolded([LF] + rest) == [LF] + Unfolded(rest);
  }

  lemma {:induction false} UnfoldOctets(lines: seq<string>, rest: seq<Byte>)
    requires (forall l :: l in lines ==> ContentLine(l)) && !White(rest)
    ensures Unfolded(Octets(lines) + rest) == Plain(lines) + Unfolded(rest)
  {
    hide Unfolded, Pieces, Joined;
    if lines == [] {
      assert Octets(lines) + rest == rest && Plain(lines) + Unfolded(rest) == Unfolded(rest);
    } else {
      var init, last := lines[..|lines| - 1], lines[|lines| - 1];
      var e := EncodeAll(last);
      BeginsBlack(last, MAX_LINE_OCTETS);
      OneLineHasNoBreak(last);
      var folded := Folded(e);
      assert Octets(lines) + rest == Octets(init) + (folded + (BREAK + rest));
      UnfoldOctets(init, folded + (BREAK + rest));
      UnfoldFolded(e, MAX_LINE_OCTETS, BREAK + rest);
      UnfoldBreak(rest);
      assert Plain(lines) + Unfolded(rest) == Plain(init) + (e + (BREAK + Unfolded(rest)));
    }
  }

  lemma {:induction false} SplitOne(line: seq<Byte>, begun: seq<Byte>, rest: seq<Byte>)
    requires CR !in line
    ensures Split(line + (BREAK + rest), begun)
            == match Split(rest, []) case None => None case Some(more) => Some([begun + line] + more)
  {
    var b := line + (BREAK + rest);
    if line == [] {
      assert b[2..] == rest && begun + line == begun;
    } else {
      assert line[0] in line;
      assert b[1..] == line[1..] + (BREAK + rest);
      SplitOne(line[1..], begun + [line[0]], rest);
      assert begun + [line[0]] + line[1..] == begun + line;
    }
  }

  lemma {:induction false} SplitPlain(lines: seq<string>, rest: seq<Byte>)
    requires forall l :: l in lines ==> ContentLine(l)
    ensures Split(Plain(lines) + rest, [])
            == match Split(rest, []) case None => None case Some(more) => Some(Encoded(lines) + more)
  {
    hide Split, EncodeAll, OneLine;
    if lines == [] {
      assert Plain(lines) + rest == rest;
      if Split(rest, []).Some? {
        assert Encoded(lines) + Split(rest, []).value == Split(rest, []).value;
      }
    } else {
      var init, last := lines[..|lines| - 1], lines[|lines| - 1];
      assert last in lines && forall l :: l in init ==> l in lines;
      hide ContentLine;
      var e := EncodeAll(last);
      OneLineHasNoBreak(last);
      assert Plain(lines) + rest == Plain(init) + (e + (BREAK + rest));
      SplitPlain(init, e + (BREAK + rest));
      SplitOne(e, [], rest);
      assert [] + e == e;
      if Split(rest, []).Some? {
        var more := Split(rest, []).value;
        assert Encoded(init) + ([e] + more) == Encoded(lines) + more;
      }
    }
  }

  lemma {:induction false} DecodeEncoded(lines: seq<string>)
    ensures DecodeLines(Encoded(lines)) == Some(lines)
  {
    hide EncodeAll, DecodeAll;
    if lines == [] {
      assert Encoded(lines) == [];
    } else {
      var init, last := lines[..|lines| - 1], lines[|lines| - 1];
      DecodeEncoded(init);
      DecodeEncode(last);
      assert Encoded(lines)[..|Encoded(lines)| - 1] == Encoded(init);
      assert lines == init + [last];
    }
  }

  /** Content lines written folded are read back line by line. */
  lemma LinesAreReadBack(lines: seq<string>)
    requires AllContentLines(lines)
    ensures ReadLines(Octets(lines)) == Some(lines)
  {
    UnfoldOctets(lines, []);
    SplitPlain(lines, []);
    DecodeEncoded(lines);
    assert Octets(lines) + [] == Octets(lines) && Plain(lines) + [] == Plain(lines)
      && Encoded(lines) + [] == Encoded(lines);
  }

  // ----- the reader -----

  datatype Key =
    | Begin | End
    | Version | Product | Scale | Method | Name | ListedAs | Refresh | Published
    | Uid | Stamp | Start | Until | Summary | Description | Transparency
    | Other

  /** Which property a line is of, by its name and its parameters. */
  function KeyOf(name: string): Key {
    if name == "BEGIN" then Begin
    else if name == "END" then End
    else if name == "VERSION" then Version
    else if name == "PRODID" then Product
    else if name == "CALSCALE" then Scale
    else if name == "METHOD" then Method
    else if name == "NAME" then Name
    else if name == "X-WR-CALNAME" then ListedAs
    else if name == "REFRESH-INTERVAL;VALUE=DURATION" then Refresh
    else if name == "X-PUBLISHED-TTL" then Published
    else if name == "UID" then Uid
    else if name == "DTSTAMP" then Stamp
    else if name == "DTSTART;VALUE=DATE" then Start
    else if name == "DTEND;VALUE=DATE" then Until
    else if name == "SUMMARY" then Summary
    else if name == "DESCRIPTION" then Description
    else if name == "TRANSP" then Transparency
    else Other
  }

  /** An event as a reader has it, from its first day up to but without another; it makes
      somebody look busy unless it is transparent. Of properties it does not know a reader keeps
      how many there were. */
  datatype Entry = Entry(
    uid: string, stamp: Moment, from: Day, until: Day, summary: Option<string>, description: Option<string>,
    transparent: bool, unknown: nat)

  /** What is known of an event between its beginning and its end. */
  datatype Draft = Draft(
    uid: Option<string>, stamp: Option<Moment>, from: Option<Day>, until: Option<Day>,
    summary: Option<string>, description: Option<string>, transparent: Option<bool>, unknown: nat)

  const EMPTY_DRAFT := Draft(None, None, None, None, None, None, None, 0)

  /** What a feed says of itself: who wrote it, by which calendar and to what end, what it is
      called, and when it should be read again. */
  datatype About = About(
    product: Option<string>, scale: Option<string>, purpose: Option<string>, name: Option<string>,
    listedAs: Option<string>, refresh: Option<string>, published: Option<string>, unknown: nat)

  const NOTHING := About(None, None, None, None, None, None, None, 0)

  /** What a feed says. */
  datatype Content = Content(about: About, entries: seq<Entry>)

  /** What is known of a calendar so far, and whether its version has been given. */
  datatype Seen = Seen(version: bool, content: Content)

  /** How far reading has come: before the calendar, in it and perhaps in one of its events,
      or after it; or the feed is refused. */
  datatype Reading = Before | Within(seen: Seen, draft: Option<Draft>) | After(content: Content) | Refused

  /** What a property that may come once comes to; None where it has come before or its value is
      malformed. */
  function Once<T>(was: Option<T>, read: Option<T>): Option<T> {
    if was.None? then read else None
  }

  function ReadTransparency(value: string): Option<bool> {
    if value == "TRANSPARENT" then Some(true) else if value == "OPAQUE" then Some(false) else None
  }

  /** One property of an event; None where it has come before, where its value is malformed or
      where it has no place there. */
  function InEvent(draft: Draft, key: Key, value: string): Option<Draft> {
    match key
    case Uid => var read := Once(draft.uid, Unescaped(value)); When(read.Some?, draft.(uid := read))
    case Stamp => var read := Once(draft.stamp, ReadMoment(value)); When(read.Some?, draft.(stamp := read))
    case Start => var read := Once(draft.from, ReadDate(value)); When(read.Some?, draft.(from := read))
    case Until => var read := Once(draft.until, ReadDate(value)); When(read.Some?, draft.(until := read))
    case Summary => var read := Once(draft.summary, Unescaped(value)); When(read.Some?, draft.(summary := read))
    case Description =>
      var read := Once(draft.description, Unescaped(value));
      When(read.Some?, draft.(description := read))
    case Transparency =>
      var read := Once(draft.transparent, ReadTransparency(value));
      When(read.Some?, draft.(transparent := read))
    case Other => Some(draft.(unknown := draft.unknown + 1))
    case _ => None
  }

  function When<T>(known: bool, x: T): Option<T> {
    if known then Some(x) else None
  }

  /** An event is complete with its identity, its moment and both its days. */
  function Completed(draft: Draft): Option<Entry> {
    if draft.uid.Some? && draft.stamp.Some? && draft.from.Some? && draft.until.Some? then
      Some(Entry(draft.uid.value, draft.stamp.value, draft.from.value, draft.until.value,
                 draft.summary, draft.description, draft.transparent == Some(true), draft.unknown))
    else None
  }

  /** An event that has ended joins the others. */
  function Added(seen: Seen, entry: Entry): Seen {
    seen.(content := seen.content.(entries := seen.content.entries + [entry]))
  }

  /** What one of its properties tells of a calendar, once. */
  function Told(about: About, key: Key, value: string): Option<About> {
    match key
    case Product => When(about.product.None?, about.(product := Some(value)))
    case Scale => When(about.scale.None?, about.(scale := Some(value)))
    case Method => When(about.purpose.None?, about.(purpose := Some(value)))
    case Name => var read := Once(about.name, Unescaped(value)); When(read.Some?, about.(name := read))
    case ListedAs => var read := Once(about.listedAs, Unescaped(value)); When(read.Some?, about.(listedAs := read))
    case Refresh => When(about.refresh.None?, about.(refresh := Some(value)))
    case Published => When(about.published.None?, about.(published := Some(value)))
    case Other => Some(about.(unknown := about.unknown + 1))
    case _ => None
  }

  function InCalendar(seen: Seen, key: Key, value: string): Reading {
    match key
    case Begin => if value == "VEVENT" then Within(seen, Some(EMPTY_DRAFT)) else Refused
    case End =>
      if value == "VCALENDAR" && seen.version && seen.content.about.product.Some? then After(seen.content)
      else Refused
    case Version => if value == "2.0" && !seen.version then Within(seen.(version := true), None) else Refused
    case _ =>
      match Told(seen.content.about, key, value)
      case None => Refused
      case Some(about) => Within(seen.(content := seen.content.(about := about)), None)
  }

  /** In an event until it is refused. */
  function WithDraft(seen: Seen, draft: Option<Draft>): Reading {
    if draft == None then Refused else Within(seen, draft)
  }

  function Ended(seen: Seen, draft: Draft, value: string): Reading {
    match Completed(draft)
    case Some(entry) => if value == "VEVENT" then Within(Added(seen, entry), None) else Refused
    case None => Refused
  }

  function Step(at: Reading, key: Key, value: string): Reading {
    match at
    case Before =>
      if key == Begin && value == "VCALENDAR" then Within(Seen(false, Content(NOTHING, [])), None) else Refused
    case Within(seen, None) => InCalendar(seen, key, value)
    case Within(seen, Some(draft)) =>
      if key == End then Ended(seen, draft, value) else WithDraft(seen, InEvent(draft, key, value))
    case _ => Refused
  }

  function ReadLine(at: Reading, line: string): Reading {
    var (name, value, found) := CutAt(line, ':');
    if found then Step(at, KeyOf(name), value) else Refused
  }

  function ReadFrom(at: Reading, lines: seq<string>): Reading
    decreases lines
  {
    if lines == [] then at else ReadFrom(ReadLine(at, lines[0]), lines[1..])
  }

  function ReadFeed(bytes: seq<Byte>): Option<Content> {
    match ReadLines(bytes)
    case None => None
    case Some(lines) =>
      match ReadFrom(Before, lines)
      case After(content) => Some(content)
      case _ => None
  }

  // ----- what was written is what is read -----

  lemma ReadProperty(at: Reading, name: string, value: string)
    requires ':' !in name
    ensures ReadLine(at, Property(name, value)) == Step(at, KeyOf(name), value)
  {
    assert Property(name, value) == name + ([':'] + value);
    CutInTwo(name, [':'] + value, ':');
    CutAtOnce(':', value);
    assert name + "" == name;
  }

  lemma {:induction false} ReadInTwo(at: Reading, a: seq<string>, b: seq<string>)
    ensures ReadFrom(at, a + b) == ReadFrom(ReadFrom(at, a), b)
    decreases a
  {
    if a == [] {
      assert a + b == b;
    } else {
      assert (a + b)[1..] == a[1..] + b;
      ReadInTwo(ReadLine(at, a[0]), a[1..], b);
    }
  }

  lemma ReadAnother(at: Reading, line: string, rest: seq<string>)
    ensures ReadFrom(at, [line] + rest) == ReadFrom(ReadLine(at, line), rest)
  {
    assert ([line] + rest)[1..] == rest;
  }

  lemma {:induction false} RefusedStays(lines: seq<string>)
    ensures ReadFrom(Refused, lines) == Refused
  {
    if lines == [] {
    } else {
      RefusedStays(lines[1..]);
    }
  }

  lemma EventKeys()
    ensures KeyOf("UID") == Uid && KeyOf("DTSTAMP") == Stamp && KeyOf("SUMMARY") == Summary
  {
  }

  lemma EndKeys()
    ensures KeyOf("DESCRIPTION") == Description && KeyOf("TRANSP") == Transparency
  {
  }

  lemma DateKeys()
    ensures KeyOf("DTSTART;VALUE=DATE") == Start && KeyOf("DTEND;VALUE=DATE") == Until
    ensures ':' !in "DTSTART;VALUE=DATE" && ':' !in "DTEND;VALUE=DATE"
  {
  }

  lemma CalendarKeys()
    ensures KeyOf("BEGIN") == Begin && KeyOf("END") == End && KeyOf("VERSION") == Version
    ensures KeyOf("PRODID") == Product && KeyOf("NAME") == Name
  {
  }

  lemma FeedKeys()
    ensures KeyOf("CALSCALE") == Scale && KeyOf("METHOD") == Method && KeyOf("X-WR-CALNAME") == ListedAs
  {
  }

  lemma RefreshKeys()
    ensures KeyOf("REFRESH-INTERVAL;VALUE=DURATION") == Refresh && KeyOf("X-PUBLISHED-TTL") == Published
    ensures ':' !in "REFRESH-INTERVAL;VALUE=DURATION" && ':' !in "X-PUBLISHED-TTL"
  {
  }

  /** What an event is to a reader; None where a year has no four digits. */
  function EntryOf(event: Event, stamp: Instant): Option<Entry> {
    if FourDigitYear(YearOf(stamp.day)) && FourDigitYear(YearOf(event.day)) && FourDigitYear(YearOf(event.day + 1)) then
      Some(Entry(Normalised(event.uid), stamp, event.day, event.day + 1, Some(Normalised(event.summary)),
                 DescriptionOf(event.description), true, 0))
    else None
  }

  /** An empty description is none. */
  function DescriptionOf(description: string): Option<string> {
    if description == "" then None else Some(Normalised(description))
  }

  predicate FourDigitYear(year: int) {
    0 <= year <= 9999
  }

  function WithProperty(draft: Option<Draft>, name: string, value: string): Option<Draft> {
    if draft == None then None else InEvent(draft.value, KeyOf(name), value)
  }

  lemma ReadInEvent(seen: Seen, draft: Option<Draft>, name: string, value: string)
    requires ':' !in name && KeyOf(name) != End
    ensures ReadLine(WithDraft(seen, draft), Property(name, value)) == WithDraft(seen, WithProperty(draft, name, value))
  {
    hide InEvent, KeyOf;
    ReadProperty(WithDraft(seen, draft), name, value);
  }

  /** The properties of an event before its description, one after the other. */
  function Drafted(event: Event, stamp: Instant): Option<Draft> {
    var d1 := WithProperty(Some(EMPTY_DRAFT), "UID", TextOf(event.uid));
    var d2 := WithProperty(d1, "DTSTAMP", MomentText(stamp));
    var d3 := WithProperty(d2, "DTSTART;VALUE=DATE", DateText(event.day));
    var d4 := WithProperty(d3, "DTEND;VALUE=DATE", DateText(event.day + 1));
    WithProperty(d4, "SUMMARY", TextOf(event.summary))
  }

  lemma EventIsDrafted(event: Event, stamp: Instant)
    ensures Drafted(event, stamp) == DraftOf(event, stamp)
  {
    hide KeyOf, TextOf, MomentText, DateText, ReadDate, ReadMoment, Normalised, Unescaped, YearOf, DescriptionOf;
    EventKeys();
    DateKeys();
    TextIsReadBack(event.uid);
    TextIsReadBack(event.summary);
    MomentIsReadBack(stamp);
    DateIsReadBack(event.day);
    DateIsReadBack(event.day + 1);
  }

  /** The lines of an event before its description. */
  lemma FirstOfEvent(seen: Seen, event: Event, stamp: Instant)
    ensures ReadFrom(Within(seen, None), FirstEventLines(event, stamp)) == WithDraft(seen, Drafted(event, stamp))
  {
    hide Property, KeyOf, TextOf, MomentText, DateText, InEvent, ReadLine, WithDraft, WithProperty;
    EventKeys();
    DateKeys();
    BeginningOfEvent(seen);
    var lines := FirstEventLines(event, stamp);
    var d0 := Some(EMPTY_DRAFT);
    var d1 := WithProperty(d0, "UID", TextOf(event.uid));
    ReadInEvent(seen, d0, "UID", TextOf(event.uid));
    var d2 := WithProperty(d1, "DTSTAMP", MomentText(stamp));
    ReadInEvent(seen, d1, "DTSTAMP", MomentText(stamp));
    ReadThree(Within(seen, None), lines[..3]);
    var d3 := WithProperty(d2, "DTSTART;VALUE=DATE", DateText(event.day));
    ReadInEvent(seen, d2, "DTSTART;VALUE=DATE", DateText(event.day));
    var d4 := WithProperty(d3, "DTEND;VALUE=DATE", DateText(event.day + 1));
    ReadInEvent(seen, d3, "DTEND;VALUE=DATE", DateText(event.day + 1));
    ReadInEvent(seen, d4, "SUMMARY", TextOf(event.summary));
    ReadThree(WithDraft(seen, d2), lines[3..]);
    ReadInTwo(Within(seen, None), lines[..3], lines[3..]);
    assert lines == lines[..3] + lines[3..];
  }

  lemma BeginningOfEvent(seen: Seen)
    ensures ReadLine(Within(seen, None), BEGIN_EVENT) == WithDraft(seen, Some(EMPTY_DRAFT))
  {
    hide KeyOf, ReadLine;
    CalendarKeys();
    ReadProperty(Within(seen, None), "BEGIN", "VEVENT");
  }

  lemma ReadThree(at: Reading, lines: seq<string>)
    requires |lines| == 3
    ensures ReadFrom(at, lines) == ReadLine(ReadLine(ReadLine(at, lines[0]), lines[1]), lines[2])
  {
    hide ReadLine;
    var two := lines[1..];
    var one := two[1..];
    assert ReadFrom(at, lines) == ReadFrom(ReadLine(at, lines[0]), two);
    assert two[0] == lines[1] && one[0] == lines[2] && one[1..] == [];
    assert ReadFrom(ReadLine(ReadLine(at, lines[0]), lines[1]), one)
        == ReadFrom(ReadLine(ReadLine(ReadLine(at, lines[0]), lines[1]), lines[2]), []);
  }

  /** The draft of an event without its description. */
  function DraftOf(event: Event, stamp: Instant): Option<Draft> {
    match EntryOf(event, stamp)
    case None => None
    case Some(e) => Some(Draft(Some(e.uid), Some(e.stamp), Some(e.from), Some(e.until), e.summary, None, None, 0))
  }

  /** The draft of an event with its description. */
  function Described(event: Event, stamp: Instant): Option<Draft> {
    match EntryOf(event, stamp)
    case None => None
    case Some(e) =>
      Some(Draft(Some(e.uid), Some(e.stamp), Some(e.from), Some(e.until), e.summary, e.description, None, 0))
  }

  lemma DescriptionIsRead(seen: Seen, event: Event, stamp: Instant)
    ensures ReadFrom(WithDraft(seen, DraftOf(event, stamp)), DescriptionLines(event.description))
            == WithDraft(seen, Described(event, stamp))
  {
    hide Property, KeyOf, TextOf, Normalised, Unescaped, ReadLine, FourDigitYear;
    EndKeys();
    TextIsReadBack(event.description);
    if event.description != "" {
      ReadInEvent(seen, DraftOf(event, stamp), "DESCRIPTION", TextOf(event.description));
      ReadAnother(WithDraft(seen, DraftOf(event, stamp)), Property("DESCRIPTION", TextOf(event.description)), []);
    }
  }

  /** The draft of an event with everything it was written with. */
  function Finished(event: Event, stamp: Instant): Option<Draft> {
    match EntryOf(event, stamp)
    case None => None
    case Some(e) =>
      Some(Draft(Some(e.uid), Some(e.stamp), Some(e.from), Some(e.until), e.summary, e.description, Some(true), 0))
  }

  lemma TransparencyIsRead(seen: Seen, event: Event, stamp: Instant)
    ensures ReadLine(WithDraft(seen, Described(event, stamp)), LAST_EVENT_LINES[0])
      == WithDraft(seen, Finished(event, stamp))
  {
    hide Property, KeyOf, Normalised, ReadLine, FourDigitYear;
    EndKeys();
    ReadInEvent(seen, Described(event, stamp), "TRANSP", "TRANSPARENT");
  }

  lemma EntriesAreTransparent(event: Event, stamp: Instant)
    ensures EntryOf(event, stamp).Some? ==>
              EntryOf(event, stamp).value.transparent && EntryOf(event, stamp).value.unknown == 0
  {
  }

  lemma EndOfEventIsRead(seen: Seen, event: Event, stamp: Instant)
    ensures ReadFrom(WithDraft(seen, Described(event, stamp)), LAST_EVENT_LINES)
            == match EntryOf(event, stamp) case None => Refused case Some(entry) => Within(Added(seen, entry), None)
  {
    hide Property, KeyOf, ReadLine, Added, EntryOf, Described;
    CalendarKeys();
    EntriesAreTransparent(event, stamp);
    TransparencyIsRead(seen, event, stamp);
    ReadProperty(WithDraft(seen, Finished(event, stamp)), "END", "VEVENT");
    ReadTwo(WithDraft(seen, Described(event, stamp)), LAST_EVENT_LINES);
  }

  lemma ReadTwo(at: Reading, lines: seq<string>)
    requires |lines| == 2
    ensures ReadFrom(at, lines) == ReadLine(ReadLine(at, lines[0]), lines[1])
  {
    hide ReadLine;
    var one := lines[1..];
    assert one[0] == lines[1] && one[1..] == [];
    assert ReadFrom(ReadLine(at, lines[0]), one) == ReadFrom(ReadLine(ReadLine(at, lines[0]), lines[1]), []);
  }

  lemma EventIsRead(seen: Seen, event: Event, stamp: Instant)
    ensures ReadFrom(Within(seen, None), EventLines(event, stamp))
            == match EntryOf(event, stamp) case None => Refused case Some(entry) => Within(Added(seen, entry), None)
  {
    hide FirstEventLines, DescriptionLines, ReadLine, WithDraft, Added, EntryOf, DraftOf, Drafted, Described;
    var first, rest := FirstEventLines(event, stamp), DescriptionLines(event.description) + LAST_EVENT_LINES;
    assert EventLines(event, stamp) == first + rest;
    ReadInTwo(Within(seen, None), first, rest);
    FirstOfEvent(seen, event, stamp);
    EventIsDrafted(event, stamp);
    ReadInTwo(WithDraft(seen, DraftOf(event, stamp)), DescriptionLines(event.description), LAST_EVENT_LINES);
    DescriptionIsRead(seen, event, stamp);
    EndOfEventIsRead(seen, event, stamp);
  }

  /** What the events are to a reader; None where it refuses one of them. */
  function EntriesOf(events: seq<Event>, stamp: Instant): Option<seq<Entry>> {
    if events == [] then Some([])
    else match (EntriesOf(events[..|events| - 1], stamp), EntryOf(events[|events| - 1], stamp))
      case (Some(before), Some(entry)) => Some(before + [entry])
      case _ => None
  }

  /** An event for an event in their order, and none is refused but for a year without four
      digits. */
  lemma {:induction false} EntriesAreTheEvents(events: seq<Event>, stamp: Instant)
    ensures EntriesOf(events, stamp).Some? <==> forall e :: e in events ==> EntryOf(e, stamp).Some?
    ensures EntriesOf(events, stamp).Some? ==>
              && |EntriesOf(events, stamp).value| == |events|
              && forall i :: 0 <= i < |events| ==> EntryOf(events[i], stamp) == Some(EntriesOf(events, stamp).value[i])
  {
    hide EntryOf;
    if events == [] {
    } else {
      var init, last := events[..|events| - 1], events[|events| - 1];
      EntriesAreTheEvents(init, stamp);
      assert events == init + [last];
    }
  }

  function AfterEvents(seen: Seen, entries: Option<seq<Entry>>): Reading {
    match entries
    case None => Refused
    case Some(all) => Within(seen.(content := seen.content.(entries := seen.content.entries + all)), None)
  }

  lemma {:induction false} EventsAreRead(seen: Seen, events: seq<Event>, stamp: Instant)
    ensures ReadFrom(Within(seen, None), AllEventLines(events, stamp)) == AfterEvents(seen, EntriesOf(events, stamp))
  {
    hide EventLines, EntryOf, ReadLine;
    if events == [] {
      assert seen.content.entries + [] == seen.content.entries;
    } else {
      var init, last := events[..|events| - 1], events[|events| - 1];
      EventsAreRead(seen, init, stamp);
      ReadInTwo(Within(seen, None), AllEventLines(init, stamp), EventLines(last, stamp));
      match EntriesOf(init, stamp)
      case None => RefusedStays(EventLines(last, stamp));
      case Some(before) =>
        var at := AfterEvents(seen, Some(before)).seen;
        EventIsRead(at, last, stamp);
        if EntryOf(last, stamp).Some? {
          var entry := EntryOf(last, stamp).value;
          assert seen.content.entries + before + [entry] == seen.content.entries + (before + [entry]);
        }
    }
  }

  // ----- the beginning and the end of a feed -----

  lemma FirstLinesAreRead()
    ensures ReadFrom(Before, FIRST_LINES) == Within(Seen(true, Content(ABOUT_FEEDS, [])), None)
  {
    hide Property, KeyOf, ReadLine;
    CalendarKeys();
    FeedKeys();
    var told := NOTHING.(product := Some(PRODUCT_ID));
    ReadProperty(Before, "BEGIN", "VCALENDAR");
    ReadProperty(Within(Seen(false, Content(NOTHING, [])), None), "VERSION", "2.0");
    ReadProperty(Within(Seen(true, Content(NOTHING, [])), None), "PRODID", PRODUCT_ID);
    ReadProperty(Within(Seen(true, Content(told, [])), None), "CALSCALE", "GREGORIAN");
    var scaled := told.(scale := Some("GREGORIAN"));
    ReadProperty(Within(Seen(true, Content(scaled, [])), None), "METHOD", "PUBLISH");
    ReadThree(Before, FIRST_LINES[..3]);
    ReadTwo(Within(Seen(true, Content(told, [])), None), FIRST_LINES[3..]);
    ReadInTwo(Before, FIRST_LINES[..3], FIRST_LINES[3..]);
    assert FIRST_LINES == FIRST_LINES[..3] + FIRST_LINES[3..];
  }

  const ABOUT_FEEDS := About(Some(PRODUCT_ID), Some("GREGORIAN"), Some("PUBLISH"), None, None, None, None, 0)

  /** What a feed of a name says of itself; an empty name is none. */
  function AboutOf(name: string): About {
    Named(name).(refresh := Some(REFRESH), published := Some(REFRESH))
  }

  function Named(name: string): About {
    if name == "" then ABOUT_FEEDS else ABOUT_FEEDS.(name := Some(Normalised(name)), listedAs := Some(Normalised(name)))
  }

  lemma NameIsRead(name: string)
    ensures ReadFrom(Within(Seen(true, Content(ABOUT_FEEDS, [])), None), NameLines(name))
            == Within(Seen(true, Content(Named(name), [])), None)
  {
    hide Property, KeyOf, ReadLine, TextOf, Normalised, Unescaped;
    CalendarKeys();
    FeedKeys();
    TextIsReadBack(name);
    if name != "" {
      var at := Within(Seen(true, Content(ABOUT_FEEDS, [])), None);
      ReadProperty(at, "NAME", TextOf(name));
      var first := ABOUT_FEEDS.(name := Some(Normalised(name)));
      ReadProperty(Within(Seen(true, Content(first, [])), None), "X-WR-CALNAME", TextOf(name));
      ReadTwo(at, NameLines(name));
    }
  }

  lemma RefreshIsRead(name: string)
    ensures ReadFrom(Within(Seen(true, Content(Named(name), [])), None), REFRESH_LINES)
            == Within(Seen(true, Content(AboutOf(name), [])), None)
  {
    hide Property, KeyOf, ReadLine, Normalised;
    RefreshKeys();
    var at := Within(Seen(true, Content(Named(name), [])), None);
    ReadProperty(at, "REFRESH-INTERVAL;VALUE=DURATION", REFRESH);
    var first := Named(name).(refresh := Some(REFRESH));
    ReadProperty(Within(Seen(true, Content(first, [])), None), "X-PUBLISHED-TTL", REFRESH);
    ReadTwo(at, REFRESH_LINES);
  }

  lemma HeadIsRead(name: string)
    ensures ReadFrom(Before, HeadLines(name)) == Within(Seen(true, Content(AboutOf(name), [])), None)
  {
    hide ReadFrom, NameLines, Named, AboutOf;
    ReadInTwo(Before, FIRST_LINES + NameLines(name), REFRESH_LINES);
    ReadInTwo(Before, FIRST_LINES, NameLines(name));
    FirstLinesAreRead();
    NameIsRead(name);
    RefreshIsRead(name);
  }

  lemma EndIsRead(at: Reading)
    ensures ReadFrom(at, [END_CALENDAR]) == Step(at, End, "VCALENDAR")
  {
    hide Property, KeyOf, ReadLine, Step;
    CalendarKeys();
    ReadProperty(at, "END", "VCALENDAR");
    assert [END_CALENDAR][1..] == [];
  }

  // ----- every line of a feed is a content line -----

  predicate PropertyName(name: string) {
    name != "" && name[0] != ' ' && name[0] != '\t' && OneLine(name)
  }

  lemma PropertyIsContentLine(name: string, value: string)
    requires PropertyName(name) && OneLine(value)
    ensures ContentLine(Property(name, value))
  {
  }

  lemma FirstLinesAreContentLines()
    ensures AllContentLines(FIRST_LINES)
  {
    hide Property, ContentLine;
    PropertyIsContentLine("BEGIN", "VCALENDAR");
    PropertyIsContentLine("VERSION", "2.0");
    ProductIsOneLine();
    PropertyIsContentLine("PRODID", PRODUCT_ID);
    PropertyIsContentLine("CALSCALE", "GREGORIAN");
    PropertyIsContentLine("METHOD", "PUBLISH");
  }

  lemma ProductIsOneLine()
    ensures OneLine(PRODUCT_ID)
  {
  }

  lemma RefreshLinesAreContentLines()
    ensures AllContentLines(REFRESH_LINES)
  {
    hide Property, ContentLine;
    PropertyIsContentLine("REFRESH-INTERVAL;VALUE=DURATION", REFRESH);
    PropertyIsContentLine("X-PUBLISHED-TTL", REFRESH);
  }

  lemma NameLinesAreContentLines(name: string)
    ensures AllContentLines(NameLines(name))
  {
    hide Property, ContentLine, TextOf;
    TextIsOneLine(name);
    PropertyIsContentLine("NAME", TextOf(name));
    PropertyIsContentLine("X-WR-CALNAME", TextOf(name));
  }

  lemma EventLinesAreContentLines(event: Event, stamp: Instant)
    ensures AllContentLines(EventLines(event, stamp))
  {
    hide Property, ContentLine, TextOf, MomentText, DateText, OneLine;
    TextIsOneLine(event.uid);
    TextIsOneLine(event.summary);
    TextIsOneLine(event.description);
    MomentIsOneLine(stamp);
    DateLength(event.day);
    DateLength(event.day + 1);
    EventNames();
    DateNames();
    EndNames();
    PropertyIsContentLine("BEGIN", "VEVENT");
    PropertyIsContentLine("UID", TextOf(event.uid));
    PropertyIsContentLine("DTSTAMP", MomentText(stamp));
    PropertyIsContentLine("DTSTART;VALUE=DATE", DateText(event.day));
    PropertyIsContentLine("DTEND;VALUE=DATE", DateText(event.day + 1));
    PropertyIsContentLine("SUMMARY", TextOf(event.summary));
    PropertyIsContentLine("DESCRIPTION", TextOf(event.description));
    PropertyIsContentLine("TRANSP", "TRANSPARENT");
    PropertyIsContentLine("END", "VEVENT");
  }

  lemma EventNames()
    ensures PropertyName("BEGIN") && PropertyName("UID") && PropertyName("DTSTAMP")
    ensures PropertyName("SUMMARY") && PropertyName("DESCRIPTION")
  {
  }

  lemma EndNames()
    ensures PropertyName("TRANSP") && PropertyName("END")
    ensures OneLine("VEVENT") && OneLine("TRANSPARENT") && OneLine("VCALENDAR")
  {
  }

  lemma DateNames()
    ensures PropertyName("DTSTART;VALUE=DATE") && PropertyName("DTEND;VALUE=DATE")
  {
  }

  lemma {:induction false} AllEventLinesAreContentLines(events: seq<Event>, stamp: Instant)
    ensures AllContentLines(AllEventLines(events, stamp))
  {
    hide ContentLine, EventLines;
    if events == [] {
    } else {
      AllEventLinesAreContentLines(events[..|events| - 1], stamp);
      EventLinesAreContentLines(events[|events| - 1], stamp);
    }
  }

  lemma FeedIsContentLines(feed: Feed)
    ensures AllContentLines(ContentLines(feed))
  {
    hide ContentLine, AllEventLines, NameLines, OneLine, PropertyName;
    FirstLinesAreContentLines();
    NameLinesAreContentLines(feed.name);
    RefreshLinesAreContentLines();
    AllEventLinesAreContentLines(feed.events, feed.stamp);
    EndNames();
    PropertyIsContentLine("END", "VCALENDAR");
  }

  // ----- what is written is what is read -----

  /** A reader of the feed finds the name and every event in its order, with its identity,
      its whole day up to the next, its summary and its description as text normalises them,
      and transparent;
      it refuses the feed exactly when a year it has to read has no four digits. */
  lemma FeedIsReadBack(feed: Feed)
    ensures ReadFeed(Octets(ContentLines(feed)))
            == match EntriesOf(feed.events, feed.stamp)
               case None => None
               case Some(entries) => Some(Content(AboutOf(feed.name), entries))
  {
    hide Octets, HeadLines, AllEventLines, ReadFrom, ReadLines, EntriesOf, ContentLine, Normalised;
    FeedIsContentLines(feed);
    LinesAreReadBack(ContentLines(feed));
    var head, events := HeadLines(feed.name), AllEventLines(feed.events, feed.stamp);
    ReadInTwo(Before, head + events, [END_CALENDAR]);
    ReadInTwo(Before, head, events);
    HeadIsRead(feed.name);
    EventsAreRead(Seen(true, Content(AboutOf(feed.name), [])), feed.events, feed.stamp);
    EndIsRead(AfterEvents(Seen(true, Content(AboutOf(feed.name), [])), EntriesOf(feed.events, feed.stamp)));
    assert forall entries: seq<Entry> :: [] + entries == entries;
  }

  /** The last day of the year 9999 ends on a day that a date cannot write: one such event,
      and the whole feed is refused. */
  lemma TheLastDayIsRefused(feed: Feed, i: nat)
    requires i < |feed.events| && feed.events[i].day == DayOf(Civil(9999, 12, 31))
    ensures ReadFeed(Octets(ContentLines(feed))) == None
  {
    var event := feed.events[i];
    DayAfterTheLast(event.day);
    assert event in feed.events && EntryOf(event, feed.stamp) == None;
    hide ReadFeed, Octets, ContentLines, EntriesOf, EntryOf, DayOf;
    EntriesAreTheEvents(feed.events, feed.stamp);
    FeedIsReadBack(feed);
  }

  lemma DayAfterTheLast(day: Day)
    requires day == DayOf(Civil(9999, 12, 31))
    ensures YearOf(day + 1) == 10000
  {
    hide YearOf;
    YearIsUnique(day + 1, 10000);
  }
}
