/** Lines as the log shows them: after which prefixes a key is never written, and after
    which one can be. A line is a sequence of characters. */
module Conceal {
  import opened Strings

  const HIDDEN := "[hidden]"

  predicate KeyCharacter(c: char) {
    'a' <= c <= 'z' || 'A' <= c <= 'Z' || '0' <= c <= '9' || c == '-' || c == '_'
  }

  /** The alphabet of base64 for addresses, by section 5 of RFC 4648, in its order. */
  function Base64(i: int): char
    requires 0 <= i < 64
  {
    if i < 26 then 'A' + i as char
    else if i < 52 then 'a' + (i - 26) as char
    else if i < 62 then '0' + (i - 52) as char
    else "-_"[i - 62]
  }

  lemma KeysAreBase64(c: char)
    ensures KeyCharacter(c) <==> exists i: int :: 0 <= i < 64 && Base64(i) == c
  {
    var i := if 'A' <= c <= 'Z' then (c - 'A') as int
             else if 'a' <= c <= 'z' then 26 + (c - 'a') as int
             else if '0' <= c <= '9' then 52 + (c - '0') as int
             else if c == '-' then 62 else 63;
    assert KeyCharacter(c) ==> Base64(i) == c;
  }

  predicate Occurs(line: string, prefix: string, at: int) {
    0 <= at && at + |prefix| <= |line| && line[at..at + |prefix|] == prefix
  }

  /** The first place a text occurs from a position on, or -1. */
  function IndexFrom(line: string, prefix: string, from: nat): (at: int)
    requires from <= |line|
    ensures at == -1 || (from <= at && at + |prefix| <= |line|)
    decreases |line| - from
  {
    if Occurs(line, prefix, from) then from
    else if from == |line| then -1
    else IndexFrom(line, prefix, from + 1)
  }

  function Index(line: string, prefix: string): (at: int)
    ensures at == -1 || (0 <= at && at + |prefix| <= |line|)
  {
    IndexFrom(line, prefix, 0)
  }

  lemma {:induction false} IndexFromIsFirst(line: string, prefix: string, from: nat)
    requires from <= |line|
    ensures var at := IndexFrom(line, prefix, from);
            && (at != -1 ==> Occurs(line, prefix, at))
            && forall i :: from <= i && Occurs(line, prefix, i) ==> at != -1 && at <= i
    decreases |line| - from
  {
    if !Occurs(line, prefix, from) && from < |line| {
      IndexFromIsFirst(line, prefix, from + 1);
    }
  }

  /** Index finds an occurrence if there is one, and the first. */
  lemma IndexIsFirst(line: string, prefix: string)
    ensures Index(line, prefix) != -1 ==> Occurs(line, prefix, Index(line, prefix))
    ensures forall i :: Occurs(line, prefix, i) ==> Index(line, prefix) != -1 && Index(line, prefix) <= i
  {
    IndexFromIsFirst(line, prefix, 0);
  }

  /** How many characters of a key a line begins with. */
  function KeyLength(line: string): (n: nat)
    ensures n <= |line|
  {
    if line == "" || !KeyCharacter(line[0]) then 0 else 1 + KeyLength(line[1..])
  }

  lemma {:induction false} KeyRun(line: string)
    ensures forall i :: 0 <= i < KeyLength(line) ==> KeyCharacter(line[i])
    ensures KeyLength(line) < |line| ==> !KeyCharacter(line[KeyLength(line)])
  {
    if line != "" && KeyCharacter(line[0]) {
      KeyRun(line[1..]);
    }
  }

  /** What replaces a key of a length: nothing where there is none. */
  function Mark(length: nat): string {
    if length > 0 then HIDDEN else ""
  }

  /** A line up to the end of the first occurrence of the prefix, and what follows it. */
  function UpTo(line: string, prefix: string): string
    requires Index(line, prefix) >= 0
  {
    line[..Index(line, prefix) + |prefix|]
  }

  function Beyond(line: string, prefix: string): (rest: string)
    requires Index(line, prefix) >= 0
    ensures |rest| + |prefix| <= |line|
  {
    line[Index(line, prefix) + |prefix|..]
  }

  function WithoutKey(line: string): string {
    line[KeyLength(line)..]
  }

  function WithoutKeys(line: string, prefix: string): string
    requires prefix != ""
    decreases |line|
  {
    if Index(line, prefix) < 0 then line
    else
      var rest := Beyond(line, prefix);
      UpTo(line, prefix) + Mark(KeyLength(rest)) + WithoutKeys(WithoutKey(rest), prefix)
  }

  lemma NoPrefix(line: string, prefix: string)
    requires prefix != ""
    ensures Index(line, prefix) < 0 ==> WithoutKeys(line, prefix) == line
  {
  }

  lemma OneKey(line: string, prefix: string, out: string)
    requires prefix != "" && Index(line, prefix) >= 0
    ensures var rest := Beyond(line, prefix);
            out + UpTo(line, prefix) + Mark(KeyLength(rest)) + WithoutKeys(WithoutKey(rest), prefix)
              == out + WithoutKeys(line, prefix)
  {
    var rest := Beyond(line, prefix);
    Associative(out, UpTo(line, prefix), Mark(KeyLength(rest)), WithoutKeys(WithoutKey(rest), prefix));
  }

  /** The loop makes progress because the prefix is not empty. */
  method WithoutKeysAfter(line: string, prefix: string) returns (out: string)
    requires prefix != ""
    ensures out == WithoutKeys(line, prefix)
  {
    hide WithoutKeys, Index, KeyLength;
    NoPrefix(line, prefix);
    if Index(line, prefix) < 0 {
      return line;
    }
    out := "";
    var rest := line;
    ghost var whole := WithoutKeys(line, prefix);
    while true
      invariant out + WithoutKeys(rest, prefix) == whole
      decreases |rest|
    {
      var at := Index(rest, prefix);
      NoPrefix(rest, prefix);
      if at < 0 {
        return out + rest;
      }
      OneKey(rest, prefix, out);
      out := out + rest[..at + |prefix|];
      rest := rest[at + |prefix|..];
      var end := KeyLength(rest);
      if end > 0 {
        out := out + HIDDEN;
      }
      assert Mark(0) == "" && out + "" == out;
      rest := rest[end..];
    }
  }

  // ----- a prefix that is empty -----

  /** What some rounds of the loop leave of a line to be read, where the prefix is empty. */
  function LeftAfter(line: string, rounds: nat): string {
    if rounds == 0 then line else WithoutKey(LeftAfter(line, rounds - 1))
  }

  lemma EmptyOccursFirst(line: string)
    ensures Index(line, "") == 0 && Beyond(line, "") == line
  {
    assert Occurs(line, "", 0);
    assert line[0..] == line;
  }

  lemma {:induction false} NothingLeftToTake(line: string, rounds: nat)
    requires rounds > 0
    ensures LeftAfter(line, rounds) == WithoutKey(line)
  {
    KeyRun(line);
    if rounds > 1 {
      NothingLeftToTake(line, rounds - 1);
      assert KeyLength(WithoutKey(line)) == 0;
    }
  }

  /** With an empty prefix the loop ends on no line: it is found in every round, and from the
      first round on the line no longer shrinks. */
  lemma EmptyPrefixStalls(line: string, rounds: nat)
    ensures var left := LeftAfter(line, rounds);
            && Index(left, "") == 0 && WithoutKey(Beyond(left, "")) == LeftAfter(line, rounds + 1)
            && (rounds > 0 ==> LeftAfter(line, rounds + 1) == left)
  {
    EmptyOccursFirst(LeftAfter(line, rounds));
    NothingLeftToTake(line, rounds + 1);
    if rounds > 0 {
      NothingLeftToTake(line, rounds);
    }
  }

  // ----- only keys are replaced -----

  /** A text up to the end of the prefix, and the key that follows it. */
  datatype Stretch = Stretch(text: string, key: string)

  function Whole(stretches: seq<Stretch>, last: string): string {
    if stretches == [] then last else stretches[0].text + (stretches[0].key + Whole(stretches[1..], last))
  }

  /** Each key written as the mark, where there is one. */
  function Hidden(stretches: seq<Stretch>, last: string): string {
    if stretches == [] then last
    else stretches[0].text + ((if stretches[0].key == "" then "" else "[hidden]") + Hidden(stretches[1..], last))
  }

  ghost predicate FirstAtTheEnd(text: string, prefix: string) {
    forall i :: Occurs(text, prefix, i) <==> i + |prefix| == |text|
  }

  /** A line in stretches that each end with the first prefix in them and the whole key after it,
      and a last one without the prefix. */
  ghost predicate InStretches(stretches: seq<Stretch>, last: string, prefix: string) {
    if stretches == [] then forall i :: !Occurs(last, prefix, i)
    else
      && FirstAtTheEnd(stretches[0].text, prefix) && AllKeyCharacters(stretches[0].key)
      && EndsAKey(Whole(stretches[1..], last)) && InStretches(stretches[1..], last, prefix)
  }

  lemma {:induction false} KeyAndRest(key: string, rest: string)
    requires AllKeyCharacters(key) && EndsAKey(rest)
    ensures KeyLength(key + rest) == |key| && WithoutKey(key + rest) == rest
  {
    if key == "" {
      assert key + rest == rest;
    } else {
      assert (key + rest)[1..] == key[1..] + rest;
      KeyAndRest(key[1..], rest);
    }
  }

  lemma FirstIndex(text: string, rest: string, prefix: string)
    requires prefix != "" && FirstAtTheEnd(text, prefix)
    ensures Index(text + rest, prefix) == |text| - |prefix|
  {
    var line, at := text + rest, |text| - |prefix|;
    IndexIsFirst(line, prefix);
    assert Occurs(text, prefix, at);
    OccursInTheText(text, rest, prefix, at);
    OccursInTheText(text, rest, prefix, Index(line, prefix));
    hide Index, Occurs;
  }

  lemma OccursInTheText(text: string, rest: string, prefix: string, i: int)
    ensures 0 <= i <= |text| - |prefix| ==> (Occurs(text + rest, prefix, i) <==> Occurs(text, prefix, i))
  {
    if 0 <= i <= |text| - |prefix| {
      assert (text + rest)[i..i + |prefix|] == text[i..i + |prefix|];
    }
  }

  /** However a line is given in such stretches, what is written are the same texts with a mark for
      each key: nothing but the keys is taken away. */
  lemma {:induction false} OnlyKeysAreReplaced(stretches: seq<Stretch>, last: string, prefix: string)
    requires prefix != "" && InStretches(stretches, last, prefix)
    ensures WithoutKeys(Whole(stretches, last), prefix) == Hidden(stretches, last)
  {
    hide WithoutKeys, Occurs, FirstAtTheEnd, AllKeyCharacters, EndsAKey;
    if stretches == [] {
      OthersUnchanged(last, prefix);
    } else {
      var text, key := stretches[0].text, stretches[0].key;
      var rest, hidden := Whole(stretches[1..], last), Hidden(stretches[1..], last);
      OnlyKeysAreReplaced(stretches[1..], last, prefix);
      StretchIsWritten(text, key, rest, prefix);
      ThreeTexts(text, Mark(|key|), hidden);
      assert Hidden(stretches, last) == text + (Mark(|key|) + hidden);
      assert Whole(stretches, last) == text + (key + rest);
      hide Whole, Hidden, Mark;
    }
  }

  lemma ThreeTexts(a: string, b: string, c: string)
    ensures a + b + c == a + (b + c)
  {
  }

  lemma StretchIsWritten(text: string, key: string, rest: string, prefix: string)
    requires prefix != "" && FirstAtTheEnd(text, prefix) && AllKeyCharacters(key) && EndsAKey(rest)
    ensures WithoutKeys(text + (key + rest), prefix) == text + Mark(|key|) + WithoutKeys(rest, prefix)
  {
    var line := text + (key + rest);
    FirstIndex(text, key + rest, prefix);
    KeyAndRest(key, rest);
    assert Occurs(text, prefix, |text| - |prefix|);
    assert UpTo(line, prefix) == text && Beyond(line, prefix) == key + rest;
    hide Index, KeyLength, UpTo, Beyond, WithoutKey;
  }

  /** And every line is given in such stretches. */
  lemma {:induction false} EveryLineInStretches(line: string, prefix: string)
    returns (stretches: seq<Stretch>, last: string)
    requires prefix != ""
    ensures line == Whole(stretches, last) && InStretches(stretches, last, prefix)
    decreases |line|
  {
    if Index(line, prefix) < 0 {
      IndexIsFirst(line, prefix);
      stretches, last := [], line;
    } else {
      var first, rest := FirstStretch(line, prefix);
      hide Index, FirstAtTheEnd, AllKeyCharacters, EndsAKey;
      var more, end := EveryLineInStretches(rest, prefix);
      stretches, last := [first] + more, end;
      assert stretches[1..] == more;
    }
  }

  lemma KeyAtTheBeginning(rest: string) returns (key: string)
    ensures rest == key + WithoutKey(rest) && |key| == KeyLength(rest) && AllKeyCharacters(key)
      && EndsAKey(WithoutKey(rest))
  {
    KeyRun(rest);
    key := rest[..KeyLength(rest)];
  }

  lemma FirstStretch(line: string, prefix: string) returns (first: Stretch, rest: string)
    requires prefix != "" && Index(line, prefix) >= 0
    ensures line == first.text + (first.key + rest) && |rest| < |line|
    ensures FirstAtTheEnd(first.text, prefix) && AllKeyCharacters(first.key) && EndsAKey(rest)
  {
    var text, beyond := UpTo(line, prefix), Beyond(line, prefix);
    assert line == text + beyond && |beyond| < |line|;
    FirstTextEnds(line, prefix);
    hide Index, UpTo, Beyond, FirstAtTheEnd, KeyLength, AllKeyCharacters, EndsAKey;
    var key := KeyAtTheBeginning(beyond);
    first, rest := Stretch(text, key), WithoutKey(beyond);
    assert |rest| <= |beyond|;
  }

  lemma FirstTextEnds(line: string, prefix: string)
    requires prefix != "" && Index(line, prefix) >= 0
    ensures FirstAtTheEnd(UpTo(line, prefix), prefix)
  {
    FirstEndsAt(line, prefix);
    hide Index, UpTo;
  }

  // ----- no key follows the prefix -----

  /** No key follows the prefix at a place. */
  ghost predicate Ended(line: string, prefix: string, at: int) {
    Occurs(line, prefix, at) ==> at + |prefix| == |line| || !KeyCharacter(line[at + |prefix|])
  }

  ghost predicate Concealed(line: string, prefix: string) {
    forall i :: Ended(line, prefix, i)
  }

  predicate EndsWith(line: string, part: string) {
    |part| <= |line| && line[|line| - |part|..] == part
  }

  /** The prefix can end inside the word that replaces a key after it. */
  ghost predicate EndsInTheMark(prefix: string, j: int) {
    1 <= j <= 6 && EndsWith(prefix + HIDDEN[..j], prefix)
  }

  /** The prefix can begin before the end of what is written for another and its key, and go
      on with what follows there. */
  ghost predicate RunsOn(prefix: string, k: int) {
    0 < k < |prefix| && !KeyCharacter(prefix[k])
    && (EndsWith(prefix, prefix[..k]) || EndsWith(prefix + HIDDEN, prefix[..k]))
  }

  /** The prefixes that leave no key behind. */
  ghost predicate Concealable(prefix: string) {
    && prefix != ""
    && (forall j :: !EndsInTheMark(prefix, j))
    && forall k :: !RunsOn(prefix, k)
  }

  ghost predicate AllKeyCharacters(s: string) {
    forall i :: 0 <= i < |s| ==> KeyCharacter(s[i])
  }

  ghost predicate EndsAKey(after: string) {
    after == "" || !KeyCharacter(after[0])
  }

  /** What is written begins as the line does. */
  lemma BeginningStays(line: string, prefix: string)
    requires prefix != "" && EndsAKey(line)
    ensures EndsAKey(WithoutKeys(line, prefix))
  {
  }

  lemma FirstEndsAt(line: string, prefix: string)
    requires prefix != "" && Index(line, prefix) >= 0
    ensures forall i :: Occurs(UpTo(line, prefix), prefix, i) ==> i + |prefix| == |UpTo(line, prefix)|
    ensures EndsWith(UpTo(line, prefix), prefix)
  {
    var head := UpTo(line, prefix);
    IndexIsFirst(line, prefix);
    forall i | Occurs(head, prefix, i) ensures i + |prefix| == |head| {
      assert line[i..i + |prefix|] == head[i..i + |prefix|];
      assert Occurs(line, prefix, i);
    }
  }

  /** The end of a text that ends with the prefix is the end of the prefix, as far as it
      reaches. */
  lemma EndOfThePrefix(head: string, prefix: string, more: string, part: string)
    requires EndsWith(head, prefix) && |part| <= |prefix| + |more|
    ensures EndsWith(head + more, part) <==> EndsWith(prefix + more, part)
  {
    var cut := |head| - |prefix|;
    assert head == head[..cut] + prefix;
    var a, b := head + more, prefix + more;
    assert a[|a| - |part|..] == b[|b| - |part|..];
  }

  /** An occurrence that reaches into what follows a mark, or an end without one, would make
      the prefix run on. */
  lemma NoneRunsOn(head: string, mark: string, tail: string, prefix: string, i: int)
    requires Concealable(prefix) && EndsWith(head, prefix) && (mark == "" || mark == HIDDEN) && EndsAKey(tail)
    requires Occurs(head + mark + tail, prefix, i)
    ensures i + |prefix| <= |head + mark| || i >= |head + mark|
  {
    var front, line := head + mark, head + mark + tail;
    var k := |front| - i;
    if 0 < k < |prefix| {
      var part := prefix[..k];
      assert line[i..i + |prefix|][..k] == front[i..];
      assert EndsWith(front, part);
      assert line[i..i + |prefix|][k] == tail[0];
      EndOfThePrefix(head, prefix, mark, part);
      assert prefix + "" == prefix;
      assert RunsOn(prefix, k);
    }
  }

  /** An occurrence that ends in a mark ends with the word or with the mark itself. */
  lemma EndsOfTheMark(head: string, tail: string, prefix: string, i: int)
    requires Concealable(prefix) && EndsWith(head, prefix)
    requires Occurs(head + HIDDEN + tail, prefix, i) && |head| < i + |prefix| <= |head| + |HIDDEN|
    ensures i + |prefix| >= |head| + 7
  {
    var j := i + |prefix| - |head|;
    var front := head + HIDDEN[..j];
    assert (head + HIDDEN + tail)[..|front|] == front;
    assert front[i..] == prefix;
    assert EndsWith(front, prefix);
    EndOfThePrefix(head, prefix, HIDDEN[..j], prefix);
    assert !EndsInTheMark(prefix, j);
  }

  lemma EndOfHidden(line: string, head: string, tail: string)
    requires line == head + HIDDEN + tail
    ensures line[|head| + 7] == ']' && !KeyCharacter(line[|head|])
    ensures |line| == |head| + 8 + |tail| && (tail != "" ==> line[|head| + 8] == tail[0])
  {
  }

  lemma Joined(head: string, n: nat, tail: string, prefix: string)
    requires Concealable(prefix) && Concealed(tail, prefix) && EndsAKey(tail) && EndsWith(head, prefix)
    requires forall i :: Occurs(head, prefix, i) ==> i + |prefix| == |head|
    ensures Concealed(head + Mark(n) + tail, prefix)
  {
    var mark := Mark(n);
    var line := head + mark + tail;
    forall i ensures Ended(line, prefix, i) {
      if Occurs(line, prefix, i) {
        NoneRunsOn(head, mark, tail, prefix, i);
        if i >= |head + mark| {
          var at := i - |head + mark|;
          assert line[i..i + |prefix|] == tail[at..at + |prefix|];
          assert Ended(tail, prefix, at);
        } else if i + |prefix| <= |head| {
          assert line[i..i + |prefix|] == head[i..i + |prefix|];
          assert Occurs(head, prefix, i);
          if n > 0 {
            EndOfHidden(line, head, tail);
          }
        } else {
          EndsOfTheMark(head, tail, prefix, i);
          EndOfHidden(line, head, tail);
        }
      }
    }
  }

  /** In what is written, no key follows the prefix anywhere. */
  lemma {:induction false} NoKeyFollows(line: string, prefix: string)
    requires Concealable(prefix)
    ensures Concealed(WithoutKeys(line, prefix), prefix)
    decreases |line|
  {
    IndexIsFirst(line, prefix);
    if Index(line, prefix) >= 0 {
      var rest := Beyond(line, prefix);
      var after := WithoutKey(rest);
      KeyRun(rest);
      NoKeyFollows(after, prefix);
      FirstEndsAt(line, prefix);
      BeginningStays(after, prefix);
      hide Concealable, Concealed, EndsWith, EndsAKey;
      Joined(UpTo(line, prefix), KeyLength(rest), WithoutKeys(after, prefix), prefix);
    }
  }

  // ----- and only with such a prefix -----

  /** A prefix with a key after it, or with none, and a rest in which it does not occur. */
  lemma WrittenOnce(prefix: string, key: string, tail: string)
    requires prefix != "" && AllKeyCharacters(key) && EndsAKey(tail) && Index(tail, prefix) < 0
    ensures WithoutKeys(prefix + (key + tail), prefix) == prefix + Mark(|key|) + tail
  {
    var line := prefix + (key + tail);
    assert line[..|prefix|] == prefix && line[|prefix|..] == key + tail;
    assert Occurs(line, prefix, 0);
    KeyLengthIs(key + tail, |key|);
    assert (key + tail)[|key|..] == tail;
    NoPrefix(tail, prefix);
  }

  /** A character of a key that a text does not end with. */
  function AnotherThan(last: char): (c: char)
    ensures KeyCharacter(c) && c != last
  {
    if last == 'a' then 'b' else 'a'
  }

  /** A part of the prefix and one character are not the prefix, unless it ends with that. */
  lemma TooShort(prefix: string, k: nat, c: char)
    requires 0 < k < |prefix| && c != prefix[|prefix| - 1]
    ensures Index(prefix[k..] + [c], prefix) < 0
  {
    var line := prefix[k..] + [c];
    IndexIsFirst(line, prefix);
    assert line[|line| - 1] == c && |line| <= |prefix| && line != prefix;
    assert |line| == |prefix| ==> line[0..|prefix|] == line;
  }

  lemma LeaksInTheMark(prefix: string, j: int)
    requires prefix != "" && EndsInTheMark(prefix, j)
    ensures !Concealed(prefix + HIDDEN, prefix)
  {
    var written := prefix + HIDDEN;
    assert written[..|prefix| + j] == prefix + HIDDEN[..j];
    assert written[j..j + |prefix|] == prefix;
    assert written[j + |prefix|] == HIDDEN[j] && KeyCharacter(HIDDEN[j]);
    assert !Ended(written, prefix, j);
  }

  lemma MarkLeaks(prefix: string, j: int) returns (line: string)
    requires prefix != "" && EndsInTheMark(prefix, j)
    ensures !Concealed(WithoutKeys(line, prefix), prefix)
  {
    line := prefix + ("a" + "");
    IndexIsFirst("", prefix);
    LeaksInTheMark(prefix, j);
    WrittenOnce(prefix, "a", "");
    hide Index, WithoutKeys, Concealed, EndsInTheMark;
    assert prefix + HIDDEN + "" == prefix + HIDDEN;
  }

  lemma LeaksAt(front: string, prefix: string, k: int, c: char)
    requires 0 < k < |prefix| && EndsWith(front, prefix[..k]) && KeyCharacter(c)
    ensures !Concealed(front + (prefix[k..] + [c]), prefix)
  {
    var part, tail := prefix[..k], prefix[k..] + [c];
    var written, at := front + tail, |front| - k;
    assert front[at..] == part && prefix == part + prefix[k..];
    assert written[at..at + |prefix|] == prefix;
    assert written[at + |prefix|] == c;
    assert !Ended(written, prefix, at);
  }

  lemma RunningOnLeaks(prefix: string, k: int) returns (line: string)
    requires prefix != "" && RunsOn(prefix, k)
    ensures !Concealed(WithoutKeys(line, prefix), prefix)
  {
    var c := AnotherThan(prefix[|prefix| - 1]);
    var part, tail := prefix[..k], prefix[k..] + [c];
    var key := if EndsWith(prefix, part) then "" else "a";
    TooShort(prefix, k, c);
    line := prefix + (key + tail);
    assert EndsAKey(tail);
    hide Index, EndsWith, Concealed;
    WrittenOnce(prefix, key, tail);
    assert prefix + Mark(|key|) == if key == "" then prefix else prefix + HIDDEN;
    LeaksAt(prefix + Mark(|key|), prefix, k, c);
  }

  /** No line leaves a key behind a prefix exactly when the prefix, with the mark or without,
      does not run on into what follows and does not end inside the mark. */
  lemma ConcealsExactly(prefix: string)
    requires prefix != ""
    ensures (forall line :: Concealed(WithoutKeys(line, prefix), prefix)) <==> Concealable(prefix)
  {
    if Concealable(prefix) {
      forall line ensures Concealed(WithoutKeys(line, prefix), prefix) {
        NoKeyFollows(line, prefix);
      }
    } else if j :| EndsInTheMark(prefix, j) {
      var line := MarkLeaks(prefix, j);
    } else {
      var k :| RunsOn(prefix, k);
      var line := RunningOnLeaks(prefix, k);
    }
  }

  lemma WordInTheMark()
    ensures HIDDEN[0] == '[' && HIDDEN[1..7] == "hidden" && |HIDDEN| == 8
  {
  }

  /** A text of key characters ends inside the mark only where it ends inside the word. */
  lemma EndsInTheWord(prefix: string, j: int)
    requires prefix != "" && AllKeyCharacters(prefix) && 1 <= j <= 6
    ensures EndsInTheMark(prefix, j) <==> Occurs("hidden", prefix, j - 1 - |prefix|)
  {
    WordInTheMark();
    if j > |prefix| {
      EndsInside(prefix, HIDDEN[..j]);
      var at := j - 1 - |prefix|;
      assert HIDDEN[..j][j - |prefix|..] == HIDDEN[1..7][at..at + |prefix|];
      hide EndsWith, AllKeyCharacters;
    } else {
      BeginsInThePrefix(prefix, HIDDEN[..j]);
      hide EndsWith, AllKeyCharacters;
    }
  }

  lemma EndsInside(prefix: string, end: string)
    requires |end| >= |prefix|
    ensures EndsWith(prefix + end, prefix) <==> end[|end| - |prefix|..] == prefix
  {
    assert (prefix + end)[|end|..] == end[|end| - |prefix|..];
  }

  lemma BeginsInThePrefix(prefix: string, end: string)
    requires 0 < |end| <= |prefix| && AllKeyCharacters(prefix) && !KeyCharacter(end[0])
    ensures !EndsWith(prefix + end, prefix)
  {
    var whole := prefix + end;
    assert whole[|prefix|] == end[0] && whole[|end|..][|prefix| - |end|] == whole[|prefix|];
    assert KeyCharacter(prefix[|prefix| - |end|]);
  }

  /** Of key characters, those prefixes leave no key behind that occur in "hidden" at its end
      or not at all. */
  lemma OfKeyCharacters(prefix: string)
    requires prefix != "" && AllKeyCharacters(prefix)
    ensures Concealable(prefix) <==> forall i :: Occurs("hidden", prefix, i) ==> i + |prefix| == 6
  {
    forall k ensures !RunsOn(prefix, k) {
    }
    forall j | 1 <= j <= 6 ensures EndsInTheMark(prefix, j) <==> Occurs("hidden", prefix, j - 1 - |prefix|) {
      EndsInTheWord(prefix, j);
    }
    hide EndsWith, AllKeyCharacters;
    forall i | Occurs("hidden", prefix, i) && i + |prefix| < 6 ensures EndsInTheMark(prefix, i + |prefix| + 1) {
      EndsInTheWord(prefix, i + |prefix| + 1);
    }
  }

  lemma RestConcealed(line: string, prefix: string, start: nat)
    requires Concealed(line, prefix) && start <= |line|
    ensures Concealed(line[start..], prefix)
  {
    forall i ensures Ended(line[start..], prefix, i) {
      if Occurs(line[start..], prefix, i) {
        assert line[start..][i..i + |prefix|] == line[start + i..start + i + |prefix|];
        assert Ended(line, prefix, start + i);
      }
    }
  }

  lemma {:induction false} NothingToConceal(line: string, prefix: string)
    requires Concealable(prefix) && Concealed(line, prefix)
    ensures WithoutKeys(line, prefix) == line
    decreases |line|
  {
    IndexIsFirst(line, prefix);
    NoPrefix(line, prefix);
    var at := Index(line, prefix);
    if at >= 0 {
      var rest := Beyond(line, prefix);
      assert Ended(line, prefix, at);
      assert KeyLength(rest) == 0 && WithoutKey(rest) == rest;
      RestConcealed(line, prefix, at + |prefix|);
      hide Concealed, Index;
      NothingToConceal(rest, prefix);
      assert line == UpTo(line, prefix) + "" + rest;
    }
  }

  /** Concealing twice is concealing once. */
  lemma Idempotent(line: string, prefix: string)
    requires Concealable(prefix)
    ensures WithoutKeys(WithoutKeys(line, prefix), prefix) == WithoutKeys(line, prefix)
  {
    NoKeyFollows(line, prefix);
    NothingToConceal(WithoutKeys(line, prefix), prefix);
  }

  // ----- what is written says nothing of the key -----

  ghost predicate IsKey(key: string) {
    key != "" && AllKeyCharacters(key)
  }

  ghost predicate Border(prefix: string, k: int) {
    0 < k < |prefix| && prefix[..k] == prefix[|prefix| - k..]
  }

  /** The prefixes of which no other occurrence and no key can take a part away: made of key
      characters, or begun by another and overlapping themselves nowhere. */
  ghost predicate StaysWhole(prefix: string) {
    prefix != "" && (AllKeyCharacters(prefix) || (!KeyCharacter(prefix[0]) && forall k :: !Border(prefix, k)))
  }

  /** A line in which a key follows the prefix. */
  function KeyIn(before: string, prefix: string, key: string, after: string): string {
    before + prefix + (key + after)
  }

  /** Of lines that differ in one key after the prefix, all are written alike. */
  ghost predicate KeysStayUnwritten(prefix: string)
    requires prefix != ""
  {
    forall before, key, other, after :: IsKey(key) && IsKey(other) && EndsAKey(after) ==>
                                          WithoutKeys(KeyIn(before, prefix, key, after), prefix)
                                          == WithoutKeys(KeyIn(before, prefix, other, after), prefix)
  }

  /** The first occurrence lies no later than one that is known. */
  lemma SameIndex(before: string, prefix: string, x: string, y: string)
    requires prefix != ""
    ensures Index(before + prefix + x, prefix) == Index(before + prefix + y, prefix)
    ensures 0 <= Index(before + prefix + x, prefix) <= |before|
  {
    var head := before + prefix;
    var a, b := head + x, head + y;
    assert a[|before|..|head|] == prefix && b[|before|..|head|] == prefix;
    assert Occurs(a, prefix, |before|) && Occurs(b, prefix, |before|);
    var i, j := Index(a, prefix), Index(b, prefix);
    IndexIsFirst(a, prefix);
    IndexIsFirst(b, prefix);
    assert a[i..i + |prefix|] == head[i..i + |prefix|] == b[i..i + |prefix|];
    assert a[j..j + |prefix|] == head[j..j + |prefix|] == b[j..j + |prefix|];
    assert Occurs(b, prefix, i) && Occurs(a, prefix, j);
  }

  /** The run of key characters a line begins with: up to the first that is none. */
  lemma {:induction false} KeyLengthIs(line: string, n: nat)
    requires n <= |line| && (forall i :: 0 <= i < n ==> KeyCharacter(line[i]))
    requires n < |line| ==> !KeyCharacter(line[n])
    ensures KeyLength(line) == n
  {
    KeyRun(line);
  }

  /** The known occurrence, with all before it, and how much of that lies beyond the first. */
  ghost predicate Reaches(before: string, prefix: string, tail: string, middle: string) {
    var line := before + prefix + tail;
    0 <= Index(line, prefix) <= |before| && middle == (before + prefix)[Index(line, prefix) + |prefix|..]
  }

  lemma BeyondTheFirst(before: string, prefix: string, tail: string, middle: string)
    requires Reaches(before, prefix, tail, middle)
    ensures Beyond(before + prefix + tail, prefix) == middle + tail
    ensures UpTo(before + prefix + tail, prefix) == (before + prefix)[..|before + prefix| - |middle|]
  {
  }

  /** The line is written up to where the key ends that runs through the known occurrence
      and takes its key with it. */
  lemma WrittenThrough(before: string, prefix: string, middle: string, key: string, after: string)
    requires prefix != "" && IsKey(key) && EndsAKey(after) && Reaches(before, prefix, key + after, middle)
    requires KeyLength(middle) == |middle|
    ensures WithoutKeys(before + prefix + (key + after), prefix)
            == (before + prefix)[..|before + prefix| - |middle|] + HIDDEN + WithoutKeys(after, prefix)
  {
    BeyondTheFirst(before, prefix, key + after, middle);
    OneKeyTaken(before + prefix + (key + after), prefix);
    KeyGoesOn(middle, key, after);
    hide WithoutKeys, Index, KeyLength, IsKey, EndsAKey, Reaches;
  }

  lemma KeyGoesOn(middle: string, key: string, after: string)
    requires KeyLength(middle) == |middle| && IsKey(key) && EndsAKey(after)
    ensures KeyLength(middle + (key + after)) > 0 && WithoutKey(middle + (key + after)) == after
  {
    var rest := middle + (key + after);
    KeyRun(middle);
    hide KeyLength;
    assert rest == middle + key + after;
    KeyLengthIs(rest, |middle| + |key|);
  }

  lemma OneKeyTaken(line: string, prefix: string)
    requires prefix != "" && Index(line, prefix) >= 0
    ensures var rest := Beyond(line, prefix);
            WithoutKeys(line, prefix) == UpTo(line, prefix) + Mark(KeyLength(rest))
              + WithoutKeys(WithoutKey(rest), prefix)
  {
  }

  /** Where a key ends before all of a line's known occurrence is reached, it ends before any
      of it is. */
  lemma EndsBefore(before: string, prefix: string, tail: string, middle: string)
    requires StaysWhole(prefix) && Reaches(before, prefix, tail, middle)
    requires KeyLength(middle) < |middle|
    ensures 0 < |before + prefix| - |middle| && |before + prefix| - |middle| + KeyLength(middle) <= |before|
  {
    var line, head := before + prefix + tail, before + prefix;
    var start, n := |head| - |middle|, KeyLength(middle);
    KeyRun(middle);
    IndexIsFirst(line, prefix);
    hide KeyLength, Index;
    var at := Index(line, prefix);
    assert start == at + |prefix|;
    assert forall k :: |before| <= k < |head| ==> head[k] == prefix[k - |before|];
    if AllKeyCharacters(prefix) {
      assert head[start + n] == middle[n];
    } else if start <= |before| {
      assert middle[|before| - start] == prefix[0];
    } else {
      var k := start - |before|;
      assert line[at..at + |prefix|][|before| - at..] == head[|before|..start] == prefix[..k];
      OverlapIsBorder(prefix, k);
    }
  }

  lemma OverlapIsBorder(prefix: string, k: int)
    requires 0 < k < |prefix| && prefix[|prefix| - k..] == prefix[..k]
    ensures Border(prefix, k)
  {
  }

  /** The line is written up to where a key ends that lies before the one in question:
      nothing of what comes after that has been read yet. */
  lemma WrittenBefore(before: string, prefix: string, middle: string, tail: string) returns (left: string)
    requires StaysWhole(prefix) && Reaches(before, prefix, tail, middle)
    requires KeyLength(middle) < |middle|
    ensures |left| < |before| && left + prefix == WithoutKey(middle)
    ensures WithoutKeys(before + prefix + tail, prefix)
            == (before + prefix)[..|before + prefix| - |middle|] + Mark(KeyLength(middle))
              + WithoutKeys(left + prefix + tail, prefix)
  {
    BeyondTheFirst(before, prefix, tail, middle);
    EndsBefore(before, prefix, tail, middle);
    hide StaysWhole, IndexFrom, Occurs, KeyCharacter, Mark;
    var head := before + prefix;
    var n, start := KeyLength(middle), |head| - |middle|;
    KeyRun(middle);
    KeyLengthIs(middle + tail, n);
    left := before[start + n..];
    LeftOver(before, prefix, middle, n);
    assert (middle + tail)[n..] == middle[n..] + tail;
    hide Reaches, Index, KeyLength;
  }

  lemma LeftOver(before: string, prefix: string, middle: string, n: nat)
    requires |middle| <= |before + prefix| && middle == (before + prefix)[|before + prefix| - |middle|..]
    requires |before + prefix| - |middle| + n <= |before|
    ensures before[|before + prefix| - |middle| + n..] + prefix == middle[n..]
  {
  }

  /** Two lines that differ only in the key after the prefix are written alike. */
  lemma {:induction false} KeysAreNotWritten(before: string, prefix: string, key: string, other: string, after: string)
    requires StaysWhole(prefix) && IsKey(key) && IsKey(other) && EndsAKey(after)
    ensures WithoutKeys(KeyIn(before, prefix, key, after), prefix)
      == WithoutKeys(KeyIn(before, prefix, other, after), prefix)
    decreases |before|
  {
    SameIndex(before, prefix, key + after, other + after);
    var middle := (before + prefix)[Index(KeyIn(before, prefix, key, after), prefix) + |prefix|..];
    assert Reaches(before, prefix, key + after, middle) && Reaches(before, prefix, other + after, middle);
    hide WithoutKeys, StaysWhole, IsKey, EndsAKey, KeyLength, Index, Reaches;
    if KeyLength(middle) < |middle| {
      var left := WrittenBefore(before, prefix, middle, key + after);
      var same := WrittenBefore(before, prefix, middle, other + after);
      SameFront(left, same, prefix);
      KeysAreNotWritten(left, prefix, key, other, after);
    } else {
      WrittenThrough(before, prefix, middle, key, after);
      WrittenThrough(before, prefix, middle, other, after);
    }
  }

  lemma SameFront(a: string, b: string, end: string)
    requires a + end == b + end
    ensures a == b
  {
    assert |a| == |b|;
    assert a == (a + end)[..|a|] == (b + end)[..|b|] == b;
  }

  // ----- and only after such a prefix -----

  /** A text that overlaps itself repeats its first character in the last of its overlaps. */
  lemma Repeats(prefix: string, k: int) returns (i: nat)
    requires Border(prefix, k)
    ensures k <= i < |prefix| && prefix[i] == prefix[0]
  {
    var step := |prefix| - k;
    i := 0;
    while i < k
      invariant i < |prefix| && prefix[i] == prefix[0]
      decreases k - i
    {
      assert prefix[..k][i] == prefix[|prefix| - k..][i];
      i := i + step;
    }
  }

  /** A prefix that follows another closely enough for its beginning to be read with that. */
  lemma WrittenPartly(before: string, prefix: string, key: string, rest: string, c: char)
    requires prefix != "" && before + prefix == prefix + (key + rest)
    requires AllKeyCharacters(key) && rest != "" && !KeyCharacter(rest[0]) && Index(rest + [c], prefix) < 0
    ensures WithoutKeys(KeyIn(before, prefix, [c], ""), prefix) == prefix + Mark(|key|) + rest + [c]
  {
    assert EndsAKey(rest + [c]);
    KeyAtTheEnd(before, prefix, key, rest, c);
    hide Index, WithoutKeys, AllKeyCharacters, EndsAKey, KeyIn;
    WrittenOnce(prefix, key, rest + [c]);
    Reassociate(prefix + Mark(|key|), rest, [c]);
  }

  lemma Reassociate(a: string, b: string, c: string)
    ensures a + (b + c) == a + b + c
  {
  }

  lemma KeyAtTheEnd(before: string, prefix: string, key: string, rest: string, c: char)
    requires before + prefix == prefix + (key + rest)
    ensures KeyIn(before, prefix, [c], "") == prefix + (key + (rest + [c]))
  {
    assert [c] + "" == [c];
    assert prefix + (key + rest) + [c] == prefix + (key + (rest + [c]));
  }

  lemma LastTells(front: string, c: char, d: char)
    requires c != d
    ensures front + [c] != front + [d]
  {
    assert (front + [c])[|front|] == c && (front + [d])[|front|] == d;
  }

  lemma WrittenApart(before: string, prefix: string, k: nat, n: nat)
    requires k + n < |prefix| && 0 < k + n && before + prefix == prefix + prefix[k..]
    requires AllKeyCharacters(prefix[k..k + n]) && !KeyCharacter(prefix[k + n])
    ensures !KeysStayUnwritten(prefix)
  {
    var last := prefix[|prefix| - 1];
    var c := AnotherThan(last);
    var d := if last == 'c' || c == 'c' then 'd' else 'c';
    var key, rest := prefix[k..k + n], prefix[k + n..];
    assert prefix[k..] == key + rest;
    TooShort(prefix, k + n, c);
    TooShort(prefix, k + n, d);
    assert IsKey([c]) && IsKey([d]) && EndsAKey("");
    hide WithoutKeys, Index, IsKey, EndsAKey, AllKeyCharacters, KeyIn;
    WrittenPartly(before, prefix, key, rest, c);
    WrittenPartly(before, prefix, key, rest, d);
    LastTells(prefix + Mark(n) + rest, c, d);
  }

  /** Of a prefix that does not stay whole a key can be read in what is written. */
  lemma KeysAreWritten(prefix: string)
    requires prefix != "" && !StaysWhole(prefix)
    ensures !KeysStayUnwritten(prefix)
  {
    if KeyCharacter(prefix[0]) {
      KeyRun(prefix);
      assert prefix[0..] == prefix;
      WrittenApart(prefix, prefix, 0, KeyLength(prefix));
    } else {
      var k :| Border(prefix, k);
      var n := KeyBeforeARepeat(prefix, k);
      Overlapped(prefix, k);
      hide Border, AllKeyCharacters;
      WrittenApart(prefix[..|prefix| - k], prefix, k, n);
    }
  }

  lemma KeyBeforeARepeat(prefix: string, k: int) returns (n: nat)
    requires Border(prefix, k) && !KeyCharacter(prefix[0])
    ensures k + n < |prefix| && AllKeyCharacters(prefix[k..k + n]) && !KeyCharacter(prefix[k + n])
  {
    var rest := prefix[k..];
    n := KeyLength(rest);
    KeyRun(rest);
    var i := Repeats(prefix, k);
    assert rest[i - k] == prefix[0];
  }

  lemma Overlapped(prefix: string, k: int)
    requires Border(prefix, k)
    ensures prefix[..|prefix| - k] + prefix == prefix + prefix[k..]
  {
    var before := prefix[..|prefix| - k];
    assert prefix == before + prefix[|prefix| - k..] && prefix == prefix[..k] + prefix[k..];
    assert before + (prefix[..k] + prefix[k..]) == before + prefix[..k] + prefix[k..];
  }

  /** What is written tells nothing of a key exactly after a prefix that stays whole. */
  lemma UnwrittenExactly(prefix: string)
    requires prefix != ""
    ensures KeysStayUnwritten(prefix) <==> StaysWhole(prefix)
  {
    if StaysWhole(prefix) {
      forall before, key, other, after | IsKey(key) && IsKey(other) && EndsAKey(after)
        ensures WithoutKeys(KeyIn(before, prefix, key, after), prefix)
          == WithoutKeys(KeyIn(before, prefix, other, after), prefix)
      {
        KeysAreNotWritten(before, prefix, key, other, after);
      }
    } else {
      KeysAreWritten(prefix);
    }
  }

  /** A prefix that overlaps itself can leave a key behind it, and one that a key can begin
      can have its own beginning taken for one. */
  lemma TwoThatLeak()
    ensures !Concealable("a/a") && Concealable("key=") && !StaysWhole("key=")
  {
    assert EndsWith("a/a", "a/a"[..1]) && RunsOn("a/a", 1);
    var prefix := "key=";
    forall j ensures !EndsInTheMark(prefix, j) {
      assert 1 <= j <= 6 ==> (prefix + HIDDEN[..j])[|prefix| + j - 1] == HIDDEN[j - 1];
    }
    forall k ensures !RunsOn(prefix, k) {
      assert !EndsWith(prefix, prefix[..3]) by { assert prefix[1] != prefix[0]; }
      assert (prefix + HIDDEN)[|prefix| + 7] == ']';
    }
    assert KeyCharacter(prefix[0]) && !KeyCharacter(prefix[3]);
  }

  /** Lines without the prefix are left as they are. */
  lemma OthersUnchanged(line: string, prefix: string)
    requires prefix != "" && forall i :: !Occurs(line, prefix, i)
    ensures WithoutKeys(line, prefix) == line
  {
    IndexIsFirst(line, prefix);
  }

  /** The prefix the application conceals calendar feeds by is one of both kinds. */
  lemma CalendarFeedsAreConcealable()
    ensures Concealable("gtrcal_") && StaysWhole("gtrcal_")
  {
    OfKeyCharacters("gtrcal_");
    forall i ensures !Occurs("hidden", "gtrcal_", i) {
      assert |"gtrcal_"| > |"hidden"|;
    }
  }
}
