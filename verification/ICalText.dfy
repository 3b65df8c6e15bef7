/** The text and the lines of an iCalendar feed: escaping (RFC 5545, section 3.3.11) and
    folding (section 3.1), and the reader's way back. */
module ICalText {
  import opened Options
  import opened Bytes
  import opened Utf8

  // ----- text -----

  /** CRLF read as a line feed. */
  function LineFeeds(s: string): string {
    if s == "" then ""
    else if |s| >= 2 && s[0] == '\r' && s[1] == '\n' then "\n" + LineFeeds(s[2..])
    else [s[0]] + LineFeeds(s[1..])
  }

  /** The control characters text may not hold: all but the tab, and the line feed, which
      is written as an escape. */
  predicate Control(c: char) {
    (c as int < 0x20 && c != '\t' && c != '\n') || c as int == 0x7f
  }

  function Escaped(c: char): string {
    if c == '\\' then "\\\\"
    else if c == ';' then "\\;"
    else if c == ',' then "\\,"
    else if c == '\n' then "\\n"
    else if Control(c) then ""
    else [c]
  }

  function EscapedAll(s: string): string {
    if s == "" then "" else EscapedAll(s[..|s| - 1]) + Escaped(s[|s| - 1])
  }

  function TextOf(value: string): string {
    EscapedAll(LineFeeds(value))
  }

  method WriteText(value: string) returns (out: string)
    ensures out == TextOf(value)
  {
    out := "";
    var runes := LineFeeds(value);
    for i := 0 to |runes|
      invariant out == EscapedAll(runes[..i])
    {
      var r := runes[i];
      assert runes[..i + 1][..i] == runes[..i];
      if r == '\\' {
        out := out + "\\\\";
      } else if r == ';' {
        out := out + "\\;";
      } else if r == ',' {
        out := out + "\\,";
      } else if r == '\n' {
        out := out + "\\n";
      } else if r == '\t' {
        out := out + [r];
      } else if r as int < 0x20 || r as int == 0x7f {
      } else {
        out := out + [r];
      }
    }
    assert runes[..|runes|] == runes;
  }

  /** What text makes of a value: CRLF is a line feed, and the other control characters but
      the tab are gone. */
  function Normalised(value: string): string {
    WithoutControls(LineFeeds(value))
  }

  function WithoutControls(s: string): string {
    if s == "" then "" else WithoutControls(s[..|s| - 1]) + if Control(s[|s| - 1]) then "" else [s[|s| - 1]]
  }

  /** What text leaves out leaves out the same of each part of a value. */
  lemma {:induction false} WithoutControlsInTwo(a: string, b: string)
    ensures WithoutControls(a + b) == WithoutControls(a) + WithoutControls(b)
  {
    if b == "" {
      assert a + b == a;
    } else {
      assert (a + b)[..|a + b| - 1] == a + b[..|b| - 1];
      WithoutControlsInTwo(a, b[..|b| - 1]);
    }
  }

  /** A carriage return before a line feed goes as any other does. */
  lemma {:induction false} ReturnsGoAnyway(s: string)
    ensures Normalised(s) == WithoutControls(s)
  {
    if s == "" {
    } else if |s| >= 2 && s[0] == '\r' && s[1] == '\n' {
      ReturnsGoAnyway(s[2..]);
      WithoutControlsInTwo("\n", LineFeeds(s[2..]));
      WithoutControlsInTwo("\r\n", s[2..]);
      assert "\r\n"[..1] == "\r" && "\r"[..0] == "" && "\n"[..0] == "";
      assert s == "\r\n" + s[2..];
    } else {
      ReturnsGoAnyway(s[1..]);
      WithoutControlsInTwo([s[0]], LineFeeds(s[1..]));
      WithoutControlsInTwo([s[0]], s[1..]);
      assert s == [s[0]] + s[1..];
    }
  }

  lemma NormalisedInTwo(a: string, b: string)
    ensures Normalised(a + b) == Normalised(a) + Normalised(b)
  {
    ReturnsGoAnyway(a + b);
    ReturnsGoAnyway(a);
    ReturnsGoAnyway(b);
    WithoutControlsInTwo(a, b);
  }

  /** The reader's way back, by section 3.3.11: a backslash stands for what follows it, and n and
      N after it for a line feed. A comma, a semicolon or a control character but the tab by
      itself is no text, and nor is a backslash before anything else. */
  function Unescaped(s: string): Option<string> {
    if s == "" then Some("")
    else if s[0] == '\\' then
      if |s| < 2 then None
      else if s[1] == 'n' || s[1] == 'N' then Begun('\n', Unescaped(s[2..]))
      else if s[1] == '\\' || s[1] == ';' || s[1] == ',' then Begun(s[1], Unescaped(s[2..]))
      else None
    else if s[0] == ',' || s[0] == ';' || (s[0] < ' ' && s[0] != '\t') || s[0] == '\U{7f}' then None
    else Begun(s[0], Unescaped(s[1..]))
  }

  function Begun(c: char, rest: Option<string>): Option<string> {
    match rest
    case None => None
    case Some(s) => Some([c] + s)
  }

  /** Escapes and characters are read one by one from the left. */
  lemma UnescapeFirst(c: char, rest: string)
    ensures Unescaped(Escaped(c) + rest) == if Control(c) then Unescaped(rest) else Begun(c, Unescaped(rest))
  {
    var e := Escaped(c);
    var s := e + rest;
    if |e| == 2 {
      assert s[0] == '\\' && s[2..] == rest;
    } else if |e| == 1 {
      assert s[1..] == rest && c != '\\';
    } else {
      assert s == rest;
    }
  }

  lemma LastEscaped(s: string, rest: string, end: string)
    requires s != ""
    ensures EscapedAll(s) + rest == EscapedAll(s[..|s| - 1]) + (Escaped(s[|s| - 1]) + rest)
    ensures WithoutControls(s) + end
            == WithoutControls(s[..|s| - 1]) + if Control(s[|s| - 1]) then end else [s[|s| - 1]] + end
  {
    var init, c := s[..|s| - 1], s[|s| - 1];
    var kept := if Control(c) then "" else [c];
    assert EscapedAll(s) == EscapedAll(init) + Escaped(c) && WithoutControls(s) == WithoutControls(init) + kept;
    hide EscapedAll, WithoutControls, Escaped, Control;
    Regroup(EscapedAll(init), Escaped(c), rest);
    Regroup(WithoutControls(init), kept, end);
    assert kept + end == if kept == "" then end else [c] + end;
  }

  lemma Regroup(a: string, b: string, c: string)
    ensures a + b + c == a + (b + c)
  {
  }

  lemma {:induction false} UnescapeAll(s: string, rest: string, end: string)
    requires Unescaped(rest) == Some(end)
    ensures Unescaped(EscapedAll(s) + rest) == Some(WithoutControls(s) + end)
  {
    hide Unescaped, Escaped, Control;
    if s == "" {
      assert EscapedAll(s) + rest == rest && WithoutControls(s) + end == end;
    } else {
      var init, c := s[..|s| - 1], s[|s| - 1];
      LastEscaped(s, rest, end);
      UnescapeFirst(c, rest);
      hide EscapedAll, WithoutControls;
      UnescapeAll(init, Escaped(c) + rest, if Control(c) then end else [c] + end);
    }
  }

  /** What was escaped is text, and is read back up to what text leaves out. */
  lemma TextIsReadBack(value: string)
    ensures Unescaped(TextOf(value)) == Some(Normalised(value))
  {
    UnescapeAll(LineFeeds(value), "", "");
    assert TextOf(value) + "" == TextOf(value) && Normalised(value) + "" == Normalised(value);
  }

  /** Text of tabs, line feeds and characters from the space on but the delete is written and
      read without a change, and any other character is left out. */
  lemma OrdinaryTextStays(value: string)
    ensures (forall i :: 0 <= i < |value| ==> Ordinary(value[i])) ==> Normalised(value) == value
    ensures (forall i :: 0 <= i < |value| ==> !Ordinary(value[i])) ==> Normalised(value) == ""
  {
    assert forall i :: 0 <= i < |value| ==> Ordinary(value[i]) == !Control(value[i]);
    if forall i :: 0 <= i < |value| ==> Ordinary(value[i]) {
      NoReturns(value);
      NothingDropped(value);
    }
    if forall i :: 0 <= i < |value| ==> !Ordinary(value[i]) {
      ReturnsGoAnyway(value);
      AllDropped(value);
    }
  }

  predicate Ordinary(c: char) {
    c == '\t' || c == '\n' || (c >= ' ' && c != '\U{7f}')
  }

  lemma {:induction false} AllDropped(s: string)
    requires forall i :: 0 <= i < |s| ==> Control(s[i])
    ensures WithoutControls(s) == ""
  {
    if s == "" {
    } else {
      AllDropped(s[..|s| - 1]);
    }
  }

  /** The characters that are escaped, and what each is written as. */
  lemma EachEscape()
    ensures TextOf("\\") == "\\\\" && TextOf(";") == "\\;" && TextOf(",") == "\\," && TextOf("\n") == "\\n"
  {
    assert ['\\'] == "\\" && [';'] == ";" && [','] == "," && ['\n'] == "\n";
    EscapedOne('\\');
    EscapedOne(';');
    EscapedOne(',');
    EscapedOne('\n');
  }

  lemma EscapedOne(c: char)
    ensures TextOf([c]) == Escaped(c)
  {
    assert LineFeeds([c]) == [c] + LineFeeds([c][1..]) == [c];
    assert [c][..0] == "" && EscapedAll([c]) == EscapedAll("") + Escaped(c);
  }

  lemma {:induction false} NoReturns(s: string)
    requires forall i :: 0 <= i < |s| ==> !Control(s[i])
    ensures LineFeeds(s) == s
  {
    if s == "" {
    } else {
      NoReturns(s[1..]);
      assert s == [s[0]] + s[1..];
    }
  }

  lemma {:induction false} NothingDropped(s: string)
    requires forall i :: 0 <= i < |s| ==> !Control(s[i])
    ensures WithoutControls(s) == s
  {
    if s == "" {
    } else {
      NothingDropped(s[..|s| - 1]);
    }
  }

  /** A line that a property can be: no line break in it. */
  predicate OneLine(s: string) {
    '\r' !in s && '\n' !in s
  }

  lemma {:induction false} EscapedIsOneLine(s: string)
    ensures OneLine(EscapedAll(s))
  {
    if s == "" {
    } else {
      EscapedIsOneLine(s[..|s| - 1]);
      assert OneLine(Escaped(s[|s| - 1]));
    }
  }

  lemma TextIsOneLine(value: string)
    ensures OneLine(TextOf(value))
  {
    EscapedIsOneLine(LineFeeds(value));
  }

  // ----- folding -----

  const MAX_LINE_OCTETS := 75
  const SPACE: Byte := 32
  const TAB: Byte := 9
  const BREAK: seq<Byte> := [CR, LF]
  const FOLD: seq<Byte> := [CR, LF, SPACE]

  /** The scan back from a place to the beginning of a character. */
  function CutFrom(line: seq<Byte>, from: nat): (cut: nat)
    requires from < |line| && Scannable(line)
    ensures cut <= from && RuneStart(line[cut])
    ensures forall j :: cut < j <= from ==> !RuneStart(line[j])
  {
    assert BeginsNear(line, 0) && BeginsNear(line, from);
    if RuneStart(line[from]) then from else CutFrom(line, from - 1)
  }

  /** On a text in UTF-8 the scan stops within three bytes. */
  lemma ScanStopsSoon(line: seq<Byte>, from: nat)
    requires from < |line| && Scannable(line)
    ensures from - 3 <= CutFrom(line, from)
  {
    assert BeginsNear(line, from);
  }

  lemma RestIsScannable(line: seq<Byte>, cut: nat)
    requires cut < |line| && Scannable(line) && RuneStart(line[cut])
    ensures Scannable(line[cut..])
  {
    var rest := line[cut..];
    forall i | 0 <= i < |rest| ensures BeginsNear(rest, i) {
      assert BeginsNear(line, cut + i);
      var j :| 0 <= j && cut + i - 3 <= j <= cut + i && RuneStart(line[j]);
      if j >= cut {
        assert rest[j - cut] == line[j];
      } else {
        assert rest[0] == line[cut];
      }
    }
  }

  /** A line in pieces: the first as long as the limit allows, and the others one octet less
      than the whole width, for the space each begins with. */
  function Pieces(line: seq<Byte>, limit: nat): (pieces: seq<seq<Byte>>)
    requires Scannable(line) && limit >= 4
    ensures pieces != []
  {
    if |line| <= limit then [line]
    else
      var cut := CutFrom(line, limit);
      ScanStopsSoon(line, limit);
      RestIsScannable(line, cut);
      [line[..cut]] + Pieces(line[cut..], MAX_LINE_OCTETS - 1)
  }

  /** The pieces, each after the first beginning with the space that continues a line. */
  function Joined(pieces: seq<seq<Byte>>): seq<Byte>
    requires pieces != []
  {
    if |pieces| == 1 then pieces[0] else pieces[0] + FOLD + Joined(pieces[1..])
  }

  function Folded(line: seq<Byte>): seq<Byte>
    requires Scannable(line)
  {
    Joined(Pieces(line, MAX_LINE_OCTETS))
  }

  lemma JoinedStep(line: seq<Byte>, limit: nat)
    requires Scannable(line) && 4 <= limit < |line|
    ensures Scannable(line[CutFrom(line, limit)..]) && 0 < CutFrom(line, limit) < |line|
    ensures Joined(Pieces(line, limit))
            == line[..CutFrom(line, limit)] + FOLD + Joined(Pieces(line[CutFrom(line, limit)..], MAX_LINE_OCTETS - 1))
  {
    var cut := CutFrom(line, limit);
    ScanStopsSoon(line, limit);
    RestIsScannable(line, cut);
    var rest := Pieces(line[cut..], MAX_LINE_OCTETS - 1);
    assert ([line[..cut]] + rest)[1..] == rest;
  }

  /** Each round writes a piece of at least seventy-one octets, so the loop ends. */
  method Fold(line: seq<Byte>) returns (out: seq<Byte>)
    requires Scannable(line)
    ensures out == Folded(line)
  {
    hide Scannable;
    if |line| <= MAX_LINE_OCTETS {
      return line;
    }
    out := [];
    var rest := line;
    var limit := MAX_LINE_OCTETS;
    while |rest| > limit
      invariant Scannable(rest) && (limit == MAX_LINE_OCTETS || limit == MAX_LINE_OCTETS - 1)
      invariant out + Joined(Pieces(rest, limit)) == Folded(line)
      decreases |rest|
    {
      var cut := limit;
      while !RuneStart(rest[cut])
        invariant 0 <= cut <= limit < |rest|
        invariant CutFrom(rest, cut) == CutFrom(rest, limit)
        decreases cut
      {
        StartsSomewhere(rest, cut);
        cut := cut - 1;
      }
      JoinedStep(rest, limit);
      RegroupFold(out, rest[..cut], Joined(Pieces(rest[cut..], MAX_LINE_OCTETS - 1)));
      out := out + rest[..cut];
      out := out + FOLD;
      rest := rest[cut..];
      limit := MAX_LINE_OCTETS - 1;
    }
    out := out + rest;
  }

  lemma StartsSomewhere(line: seq<Byte>, at: nat)
    requires at < |line| && Scannable(line) && !RuneStart(line[at])
    ensures at > 0 && CutFrom(line, at) == CutFrom(line, at - 1)
  {
    assert BeginsNear(line, 0);
  }

  lemma RegroupFold(a: seq<Byte>, b: seq<Byte>, c: seq<Byte>)
    ensures a + (b + FOLD + c) == a + b + FOLD + c
  {
  }

  function Flat(pieces: seq<seq<Byte>>): seq<Byte> {
    if pieces == [] then [] else pieces[0] + Flat(pieces[1..])
  }

  /** Every physical line keeps to 75 octets, with the space it begins with. */
  lemma {:induction false} PiecesFit(line: seq<Byte>, limit: nat)
    requires Scannable(line) && limit >= 4
    ensures |Pieces(line, limit)[0]| <= limit
    ensures forall i :: 1 <= i < |Pieces(line, limit)| ==> 1 + |Pieces(line, limit)[i]| <= MAX_LINE_OCTETS
    ensures Flat(Pieces(line, limit)) == line
    decreases |line|
  {
    if |line| > limit {
      var cut := CutFrom(line, limit);
      ScanStopsSoon(line, limit);
      RestIsScannable(line, cut);
      PiecesFit(line[cut..], MAX_LINE_OCTETS - 1);
      var rest := Pieces(line[cut..], MAX_LINE_OCTETS - 1);
      assert Pieces(line, limit)[1..] == rest;
      assert line == line[..cut] + line[cut..];
    } else {
      assert [line][1..] == [] && line + [] == line;
    }
  }

  /** A line that fits is not cut, and no physical line but the last is more than three octets
      short of the width. */
  lemma {:induction false} PiecesFill(line: seq<Byte>, limit: nat, i: nat)
    requires Scannable(line) && limit >= 4
    ensures |Pieces(line, limit)| > 1 <==> |line| > limit
    ensures i < |Pieces(line, limit)| - 1 ==>
              |Pieces(line, limit)[i]| >= (if i == 0 then limit else MAX_LINE_OCTETS - 1) - 3
    decreases |line|
  {
    if |line| > limit {
      var cut := CutFrom(line, limit);
      ScanStopsSoon(line, limit);
      RestIsScannable(line, cut);
      var rest := Pieces(line[cut..], MAX_LINE_OCTETS - 1);
      assert Pieces(line, limit) == [line[..cut]] + rest;
      hide Pieces, Scannable, CutFrom;
      if i > 0 {
        PiecesFill(line[cut..], MAX_LINE_OCTETS - 1, i - 1);
      }
    }
  }

  /** Every cut falls between characters: each piece is the encoding of a part of the text,
      and the parts, one after the other, are the text. */
  lemma {:induction false} CutsBetweenCharacters(s: string, limit: nat) returns (parts: seq<string>)
    requires limit >= 4
    ensures Scannable(EncodeAll(s))
    ensures |parts| == |Pieces(EncodeAll(s), limit)| && Concat(parts) == s
    ensures forall i :: 0 <= i < |parts| ==> EncodeAll(parts[i]) == Pieces(EncodeAll(s), limit)[i]
    decreases |EncodeAll(s)|
  {
    EncodedIsScannable(s);
    var line := EncodeAll(s);
    if |line| > limit {
      var cut := CutFrom(line, limit);
      ScanStopsSoon(line, limit);
      RestIsScannable(line, cut);
      var a, b := CutBetweenCharacters(s, cut);
      var more := CutsBetweenCharacters(b, MAX_LINE_OCTETS - 1);
      parts := [a] + more;
      assert parts[1..] == more;
    } else {
      parts := [s];
      assert parts[1..] == [] && s + "" == s;
    }
  }

  function Concat(parts: seq<string>): string {
    if parts == [] then "" else parts[0] + Concat(parts[1..])
  }

  // ----- the reader's way back -----

  /** Unfolding, by section 3.1: a line break and the white space after it are nothing. */
  function Unfolded(bytes: seq<Byte>): seq<Byte> {
    if bytes == [] then []
    else if |bytes| >= 3 && bytes[0] == CR && bytes[1] == LF
      && (bytes[2] == SPACE || bytes[2] == TAB) then Unfolded(bytes[3..])
    else [bytes[0]] + Unfolded(bytes[1..])
  }

  lemma {:induction false} UnfoldPlain(a: seq<Byte>, rest: seq<Byte>)
    requires CR !in a
    ensures Unfolded(a + rest) == a + Unfolded(rest)
  {
    if a == [] {
      assert a + rest == rest && a + Unfolded(rest) == Unfolded(rest);
    } else {
      assert (a + rest)[1..] == a[1..] + rest && a == [a[0]] + a[1..];
      assert a[0] in a;
      UnfoldPlain(a[1..], rest);
    }
  }

  lemma UnfoldFold(rest: seq<Byte>)
    ensures Unfolded(FOLD + rest) == Unfolded(rest)
  {
    assert (FOLD + rest)[3..] == rest;
  }

  /** Unfolding gives a folded line back, whatever follows it. */
  lemma {:induction false} UnfoldFolded(line: seq<Byte>, limit: nat, rest: seq<Byte>)
    requires Scannable(line) && limit >= 4 && CR !in line
    ensures Unfolded(Joined(Pieces(line, limit)) + rest) == line + Unfolded(rest)
    decreases |line|
  {
    hide Unfolded, CutFrom;
    if |line| <= limit {
      UnfoldPlain(line, rest);
    } else {
      JoinedStep(line, limit);
      var cut := CutFrom(line, limit);
      var a, b := line[..cut], line[cut..];
      assert line == a + b;
      var folded := Joined(Pieces(b, MAX_LINE_OCTETS - 1));
      assert a + FOLD + folded + rest == a + (FOLD + (folded + rest));
      UnfoldPlain(a, FOLD + (folded + rest));
      UnfoldFold(folded + rest);
      UnfoldFolded(b, MAX_LINE_OCTETS - 1, rest);
      assert a + (b + Unfolded(rest)) == line + Unfolded(rest);
    }
  }
}
