/** Several prefixes, one after the other: which of them stay concealed when a later pass writes
    its marks. */
module ConcealInTurn {
  import opened Conceal

  // ----- the passes -----

  predicate NoneEmpty(prefixes: seq<string>) {
    forall i :: 0 <= i < |prefixes| ==> prefixes[i] != ""
  }

  function InTurn(line: string, prefixes: seq<string>): string
    requires NoneEmpty(prefixes)
  {
    if prefixes == [] then line
    else WithoutKeys(InTurn(line, prefixes[..|prefixes| - 1]), prefixes[|prefixes| - 1])
  }

  method ConcealAll(line: string, prefixes: seq<string>) returns (out: string)
    requires NoneEmpty(prefixes)
    ensures out == InTurn(line, prefixes)
  {
    out := line;
    for i := 0 to |prefixes|
      invariant out == InTurn(line, prefixes[..i])
    {
      assert prefixes[..i + 1][..i] == prefixes[..i];
      out := WithoutKeysAfter(out, prefixes[i]);
    }
    assert prefixes[..|prefixes|] == prefixes;
  }

  // ----- one key replaced, anywhere in a line -----

  /** The prefix can end inside a mark, whatever stands before that. */
  ghost predicate EndsInAnyMark(prefix: string, j: int) {
    1 <= j <= 6 && (EndsWith(prefix, HIDDEN[..j]) || EndsWith(HIDDEN[..j], prefix))
  }

  /** The prefix can begin before the end of a mark and go on with what follows it. */
  ghost predicate GoesOnAfterAMark(prefix: string, k: int) {
    0 < k < |prefix| && !KeyCharacter(prefix[k]) && (EndsWith(prefix[..k], HIDDEN) || EndsWith(HIDDEN, prefix[..k]))
  }

  /** The prefixes no mark can become a part of, with a key after it. */
  ghost predicate Unmixed(prefix: string) {
    prefix != "" && (forall j :: !EndsInAnyMark(prefix, j)) && forall k :: !GoesOnAfterAMark(prefix, k)
  }

  /** Wherever a line has a key replaced, no key follows the prefix if none did before. */
  ghost predicate OutlastsMarks(prefix: string) {
    forall before, key, after ::
      IsKey(key) && EndsAKey(after) && Concealed(Around(before, key, after), prefix)
      ==> Concealed(Around(before, HIDDEN, after), prefix)
  }

  function Around(before: string, key: string, after: string): string {
    before + key + after
  }

  /** Of two ends of one text the shorter is an end of the longer. */
  lemma EndsOfOne(line: string, a: string, b: string)
    requires EndsWith(line, a) && EndsWith(line, b) && |a| <= |b|
    ensures EndsWith(b, a)
  {
    assert b[|b| - |a|..] == line[|line| - |a|..];
  }

  lemma EndOfASum(before: string, end: string)
    ensures EndsWith(before + end, end)
  {
  }

  /** An occurrence that ends in a mark ends with its word or with the mark. */
  lemma EndsOfAnyMark(before: string, after: string, prefix: string, i: int)
    requires Unmixed(prefix) && Occurs(Around(before, HIDDEN, after), prefix, i)
    requires |before| < i + |prefix| <= |before| + |HIDDEN|
    ensures i + |prefix| >= |before| + 7
  {
    var j := i + |prefix| - |before|;
    var front := before + HIDDEN[..j];
    assert Around(before, HIDDEN, after)[..|front|] == front;
    assert front[i..] == prefix;
    EndOfASum(before, HIDDEN[..j]);
    assert EndsWith(front, prefix);
    if |prefix| <= j {
      EndsOfOne(front, prefix, HIDDEN[..j]);
    } else {
      EndsOfOne(front, HIDDEN[..j], prefix);
    }
    assert !EndsInAnyMark(prefix, j);
  }

  /** No occurrence begins before the end of a mark and goes on after it. */
  lemma NoneGoesOn(before: string, after: string, prefix: string, i: int)
    requires Unmixed(prefix) && EndsAKey(after) && Occurs(Around(before, HIDDEN, after), prefix, i)
    ensures i + |prefix| <= |before| + |HIDDEN| || i >= |before| + |HIDDEN|
  {
    var front, line := before + HIDDEN, Around(before, HIDDEN, after);
    var k := |front| - i;
    if 0 < k < |prefix| {
      var part := prefix[..k];
      assert line[i..i + |prefix|][..k] == front[i..];
      assert EndsWith(front, part);
      assert line[i..i + |prefix|][k] == after[0];
      EndOfASum(before, HIDDEN);
      if k <= |HIDDEN| {
        EndsOfOne(front, part, HIDDEN);
      } else {
        EndsOfOne(front, HIDDEN, part);
      }
      WouldGoOn(prefix, k);
    }
  }

  lemma WouldGoOn(prefix: string, k: int)
    requires 0 < k < |prefix| && !KeyCharacter(prefix[k])
      && (EndsWith(prefix[..k], HIDDEN) || EndsWith(HIDDEN, prefix[..k]))
    ensures GoesOnAfterAMark(prefix, k)
  {
  }

  /** An occurrence before a key was one before the mark, and one after it one after that. */
  lemma EndedBefore(before: string, key: string, after: string, prefix: string, i: int)
    requires Concealed(Around(before, key, after), prefix)
    requires Occurs(Around(before, HIDDEN, after), prefix, i) && i + |prefix| <= |before|
    ensures Ended(Around(before, HIDDEN, after), prefix, i)
  {
    var was, line := Around(before, key, after), Around(before, HIDDEN, after);
    assert was[i..i + |prefix|] == before[i..i + |prefix|] == line[i..i + |prefix|];
    assert Ended(was, prefix, i);
    EndOfHidden(line, before, after);
    if i + |prefix| < |before| {
      assert was[i + |prefix|] == before[i + |prefix|] == line[i + |prefix|];
    }
  }

  lemma EndedAfter(before: string, key: string, after: string, prefix: string, i: int)
    requires Concealed(Around(before, key, after), prefix)
    requires Occurs(Around(before, HIDDEN, after), prefix, i) && i >= |before| + |HIDDEN|
    ensures Ended(Around(before, HIDDEN, after), prefix, i)
  {
    var was, line := Around(before, key, after), Around(before, HIDDEN, after);
    var at := i - |before| - |HIDDEN|;
    var there := |before| + |key| + at;
    assert line[i..i + |prefix|] == after[at..at + |prefix|] == was[there..there + |prefix|];
    assert Ended(was, prefix, there);
    if at + |prefix| < |after| {
      assert was[there + |prefix|] == after[at + |prefix|] == line[i + |prefix|];
    }
  }

  lemma MarkKeepsEnded(before: string, key: string, after: string, prefix: string)
    requires Unmixed(prefix) && EndsAKey(after) && Concealed(Around(before, key, after), prefix)
    ensures Concealed(Around(before, HIDDEN, after), prefix)
  {
    var line := Around(before, HIDDEN, after);
    hide Unmixed, Concealed, EndsAKey, Around;
    forall i ensures Ended(line, prefix, i) {
      if Occurs(line, prefix, i) {
        if i + |prefix| <= |before| {
          EndedBefore(before, key, after, prefix, i);
        } else if i >= |before| + |HIDDEN| {
          EndedAfter(before, key, after, prefix, i);
        } else {
          NoneGoesOn(before, after, prefix, i);
          EndsOfAnyMark(before, after, prefix, i);
          EndedInTheMark(before, after, prefix, i);
        }
      }
    }
    AllEnded(line, prefix);
  }

  lemma AllEnded(line: string, prefix: string)
    requires forall i :: Ended(line, prefix, i)
    ensures Concealed(line, prefix)
  {
  }

  lemma EndedInTheMark(before: string, after: string, prefix: string, i: int)
    requires EndsAKey(after) && |before| + 7 <= i + |prefix| <= |before| + 8
    ensures Ended(Around(before, HIDDEN, after), prefix, i)
  {
    EndOfHidden(Around(before, HIDDEN, after), before, after);
  }

  // ----- and only such prefixes outlast all marks -----

  lemma ShortLineIsConcealed(line: string, prefix: string)
    requires |line| <= |prefix|
    ensures Concealed(line, prefix)
  {
  }

  lemma TooMuchInAMark(prefix: string, j: int)
    requires prefix != "" && EndsInAnyMark(prefix, j)
    ensures !OutlastsMarks(prefix)
  {
    var before := if |prefix| > j then prefix[..|prefix| - j] else "";
    var was, line := Around(before, "a", ""), Around(before, HIDDEN, "");
    ShortLineIsConcealed(was, prefix);
    var at := |before| + j - |prefix|;
    assert line[..|before| + j] == before + HIDDEN[..j];
    assert line[at..at + |prefix|] == prefix;
    assert line[at + |prefix|] == HIDDEN[j] && KeyCharacter(HIDDEN[j]);
    hide Around, EndsInAnyMark, OutlastsMarks, Concealed;
    NotOutlasted(prefix, before, "", at);
  }

  lemma NotOutlasted(prefix: string, before: string, after: string, at: int)
    requires EndsAKey(after) && Concealed(Around(before, "a", after), prefix)
    requires Occurs(Around(before, HIDDEN, after), prefix, at) && !Ended(Around(before, HIDDEN, after), prefix, at)
    ensures !OutlastsMarks(prefix)
  {
    hide Around, Occurs, Ended;
    assert IsKey("a");
    assert !Concealed(Around(before, HIDDEN, after), prefix);
    hide IsKey, Concealed;
  }

  lemma TooMuchAfterAMark(prefix: string, k: int)
    requires GoesOnAfterAMark(prefix, k)
    ensures !OutlastsMarks(prefix)
  {
    var c := AnotherThan(prefix[|prefix| - 1]);
    var after := prefix[k..] + [c];
    var before := if k > |HIDDEN| then prefix[..k - |HIDDEN|] else "";
    var was, line := Around(before, "a", after), Around(before, HIDDEN, after);
    ConcealedBefore(prefix, k, before, after);
    var front := before + HIDDEN;
    var at := |front| - k;
    assert front[at..] == prefix[..k] && prefix == prefix[..k] + prefix[k..];
    assert line == front + after;
    assert line[at..at + |prefix|] == prefix;
    assert line[at + |prefix|] == c;
    hide Around, GoesOnAfterAMark, OutlastsMarks, Concealed;
    NotOutlasted(prefix, before, after, at);
  }

  /** A line too short for the prefix but at its very end, or beginning otherwise. */
  lemma ConcealedBefore(prefix: string, k: int, before: string, after: string)
    requires GoesOnAfterAMark(prefix, k) && |after| == |prefix| - k + 1
    requires before == if k > |HIDDEN| then prefix[..k - |HIDDEN|] else ""
    ensures Concealed(Around(before, "a", after), prefix)
  {
    var was := Around(before, "a", after);
    assert |was| == |before| + 2 + |prefix| - k;
    if k > |HIDDEN| || k > 1 {
      ShortLineIsConcealed(was, prefix);
    } else {
      assert prefix[..1] == HIDDEN[7..] && prefix[0] == ']';
      assert was[0] == 'a';
      assert |was| >= |prefix| ==> was[0..|prefix|][0] == was[0];
    }
  }

  /** No replacement of a key can let one follow the prefix exactly where no mark can become a
      part of it. */
  lemma OutlastsExactly(prefix: string)
    requires prefix != ""
    ensures OutlastsMarks(prefix) <==> Unmixed(prefix)
  {
    if Unmixed(prefix) {
      forall before, key, after | IsKey(key) && EndsAKey(after) && Concealed(Around(before, key, after), prefix)
        ensures Concealed(Around(before, HIDDEN, after), prefix)
      {
        MarkKeepsEnded(before, key, after, prefix);
      }
    } else if j :| EndsInAnyMark(prefix, j) {
      TooMuchInAMark(prefix, j);
    } else {
      var k :| GoesOnAfterAMark(prefix, k);
      TooMuchAfterAMark(prefix, k);
    }
  }

  // ----- whole passes -----

  lemma RegroupKey(front: string, head: string, key: string, after: string)
    ensures front + (head + (key + after)) == Around(front + head, key, after)
  {
  }

  /** A pass for any prefix, over the rest of a line, lets no key follow one that is unmixed. */
  lemma {:induction false} PassKeepsEnded(front: string, line: string, prefix: string, later: string)
    requires Unmixed(prefix) && later != "" && Concealed(front + line, prefix)
    ensures Concealed(front + WithoutKeys(line, later), prefix)
    decreases |line|
  {
    NoPrefix(line, later);
    if Index(line, later) >= 0 {
      OneKeyTaken(line, later);
      var head, rest := UpTo(line, later), Beyond(line, later);
      var after := WithoutKey(rest);
      var mark := Mark(KeyLength(rest));
      var key := KeyAtTheBeginning(rest);
      assert line == head + rest && |after| < |line|;
      RegroupKey(front, head, key, after);
      hide WithoutKeys, Index, Unmixed, Concealed, KeyLength, AllKeyCharacters, EndsAKey;
      assert Concealed(Around(front + head, key, after), prefix);
      if key != "" {
        MarkKeepsEnded(front + head, key, after, prefix);
      }
      assert Concealed(front + head + mark + after, prefix);
      PassKeepsEnded(front + head + mark, after, prefix, later);
      Regrouped(front, head, mark, WithoutKeys(after, later));
    }
  }

  lemma Regrouped(front: string, head: string, mark: string, tail: string)
    ensures front + head + mark + tail == front + (head + mark + tail)
  {
  }

  /** After the passes for several prefixes no key follows any of them, where each conceals by
      itself and those before the last are unmixed. */
  lemma {:induction false} NoKeyFollowsAny(line: string, prefixes: seq<string>, i: nat)
    requires NoneEmpty(prefixes)
    requires forall k :: 0 <= k < |prefixes| ==> Concealable(prefixes[k])
    requires forall k :: 0 <= k < |prefixes| - 1 ==> Unmixed(prefixes[k])
    requires i < |prefixes|
    ensures Concealed(InTurn(line, prefixes), prefixes[i])
  {
    hide Concealable, Unmixed, Concealed, WithoutKeys;
    var init, last := prefixes[..|prefixes| - 1], prefixes[|prefixes| - 1];
    if i == |prefixes| - 1 {
      NoKeyFollows(InTurn(line, init), last);
    } else {
      NoKeyFollowsAny(line, init, i);
      assert "" + InTurn(line, init) == InTurn(line, init);
      PassKeepsEnded("", InTurn(line, init), prefixes[i], last);
      assert "" + InTurn(line, prefixes) == InTurn(line, prefixes);
    }
  }

  /** Of key characters, a prefix that conceals by itself is unmixed as well. */
  lemma KeyCharactersStayUnmixed(prefix: string)
    requires prefix != "" && AllKeyCharacters(prefix)
    ensures Unmixed(prefix) <==> Concealable(prefix)
  {
    forall k ensures !GoesOnAfterAMark(prefix, k) && !RunsOn(prefix, k) {
    }
    forall j ensures EndsInAnyMark(prefix, j) <==> EndsInTheMark(prefix, j) {
      if 1 <= j <= 6 {
        EndsInEither(prefix, j);
      }
    }
    hide EndsInAnyMark, EndsInTheMark, RunsOn, GoesOnAfterAMark;
  }

  lemma EndsInEither(prefix: string, j: int)
    requires prefix != "" && AllKeyCharacters(prefix) && 1 <= j <= 6
    ensures EndsInAnyMark(prefix, j) <==> EndsInTheMark(prefix, j)
  {
    EndsInTheWord(prefix, j);
    WordInTheMark();
    if |prefix| >= j {
      assert prefix[|prefix| - j..][0] == prefix[|prefix| - j] && HIDDEN[..j][0] == '[';
      assert KeyCharacter(prefix[|prefix| - j]);
    } else {
      var at := j - 1 - |prefix|;
      assert HIDDEN[..j][j - |prefix|..] == HIDDEN[1..7][at..at + |prefix|];
    }
  }

  lemma FirstOfThePair()
    ensures Concealable("y[") && !Unmixed("y[")
  {
    var prefix := "y[";
    assert prefix[1..] == HIDDEN[..1] && EndsInAnyMark(prefix, 1);
    forall j ensures !EndsInTheMark(prefix, j) {
      if 1 <= j <= 6 {
        var front := prefix + HIDDEN[..j];
        assert front[|front| - 2] == if j == 1 then '[' else HIDDEN[j - 2];
      }
    }
    forall k ensures !RunsOn(prefix, k) {
      assert prefix[1] != prefix[0] && (prefix + HIDDEN)[9] == ']';
    }
  }

  lemma SecondOfThePair()
    ensures Concealable("y")
  {
    var word := "hidden";
    forall i ensures !Occurs(word, "y", i) {
      assert 0 <= i < 6 ==> word[i..i + 1][0] == word[i] && word[i] != 'y';
    }
    OfKeyCharacters("y");
  }

  lemma PassesOfThePair()
    ensures InTurn("yk", ["y[", "y"]) == "y" + HIDDEN
  {
    var first, second := "y[", "y";
    var both := [first, second];
    IndexIsFirst("yk", first);
    assert "yk"[0..2] == "yk" != first;
    IndexIsFirst("", second);
    NoPrefix("yk", first);
    WrittenOnce(second, "k", "");
    hide WithoutKeys, Index;
    assert both[..1] == [first] && [first][..0] == [];
    assert InTurn("yk", [first]) == WithoutKeys(InTurn("yk", []), first) == "yk";
    assert second + ("k" + "") == "yk" && second + HIDDEN + "" == second + HIDDEN;
  }

  /** Two prefixes of which each conceals by itself, and of which the second has its mark make up
      the first with a key after it. */
  lemma ALaterPassLeaks()
    ensures Concealable("y[") && Concealable("y") && !Unmixed("y[")
    ensures !Concealed(InTurn("yk", ["y[", "y"]), "y[")
  {
    FirstOfThePair();
    SecondOfThePair();
    PassesOfThePair();
    var written := "y" + HIDDEN;
    hide InTurn, Concealable, Unmixed;
    assert written[0..2] == "y[" && written[2] == 'h';
    assert !Ended(written, "y[", 0);
  }
}
