/** The log viewer's ring: the newest records of an unbounded log in a fixed array, and the
    answer to a viewer's question. */
module LogSink {
  import opened Sorting
  import opened Bytes
  import opened Utf8

  const DEFAULT_CAPACITY := 5000
  const MAX_KEPT_BYTES := 8192

  /** A record: its number, its time, and the message as bytes. Everything else a filter may
      look at is the tag. */
  datatype Record = Record(number: nat, time: int, message: seq<Byte>, tag: string)

  function CutBack(message: seq<Byte>, cut: nat): (at: nat)
    requires cut < |message|
    ensures at <= cut && (at > 0 ==> RuneStart(message[at]))
    ensures forall i :: at < i <= cut ==> !RuneStart(message[i])
  {
    if cut > 0 && !RuneStart(message[cut]) then CutBack(message, cut - 1) else cut
  }

  /** A message as it is kept: whole, or cut between characters and marked. */
  function KeptMessage(message: seq<Byte>): seq<Byte> {
    if |message| > MAX_KEPT_BYTES
    then message[..CutBack(message, MAX_KEPT_BYTES)] + TRUNCATION_NOTE
    else message
  }

  /** A message too long, in UTF-8, is kept up to the end of a character, at most three bytes
      short of the limit. */
  lemma MessageIsCutBetweenCharacters(s: string) returns (part: string, rest: string)
    requires |EncodeAll(s)| > MAX_KEPT_BYTES
    ensures s == part + rest && KeptMessage(EncodeAll(s)) == EncodeAll(part) + TRUNCATION_NOTE
    ensures MAX_KEPT_BYTES - 3 <= |EncodeAll(part)| <= MAX_KEPT_BYTES
  {
    EncodedIsScannable(s);
    var message := EncodeAll(s);
    var cut := CutBack(message, MAX_KEPT_BYTES);
    assert BeginsNear(message, MAX_KEPT_BYTES);
    part, rest := CutBetweenCharacters(s, cut);
  }

  /** A message as it may be kept, whatever its bytes: whole where it is within the limit, and
      else the longest beginning within it that ends before the beginning of a character, or
      nothing of it, and then the note. */
  ghost predicate IsKept(message: seq<Byte>, kept: seq<Byte>) {
    if |message| <= MAX_KEPT_BYTES then kept == message
    else exists cut :: CutsAt(message, cut) && kept == message[..cut] + TRUNCATION_NOTE
  }

  ghost predicate CutsAt(message: seq<Byte>, cut: int) {
    && 0 <= cut <= MAX_KEPT_BYTES < |message|
    && (cut == 0 || RuneStart(message[cut]))
    && forall i :: cut < i <= MAX_KEPT_BYTES ==> !RuneStart(message[i])
  }

  lemma MessageIsKept(message: seq<Byte>, kept: seq<Byte>)
    ensures IsKept(message, kept) <==> kept == KeptMessage(message)
  {
    hide RuneStart;
    if |message| > MAX_KEPT_BYTES {
      assert CutsAt(message, CutBack(message, MAX_KEPT_BYTES));
    }
  }

  /** The note in characters: a space, an ellipsis, and what has happened. */
  lemma NoteInUtf8()
    ensures TRUNCATION_NOTE == EncodeAll(" \U{2026}" + "[line truncated]")
  {
    hide EncodeAll, Encode;
    EncodeInTwo(" \U{2026}", "[line truncated]");
    NoteBegins();
    NoteGoesOn();
    assert TRUNCATION_NOTE == TRUNCATION_NOTE[..4] + TRUNCATION_NOTE[4..];
  }

  lemma NoteBegins()
    ensures EncodeAll(" \U{2026}") == TRUNCATION_NOTE[..4]
  {
    var ellipsis := "\U{2026}";
    EncodeCons(' ', ellipsis);
    EncodeCons('\U{2026}', "");
    assert [' '] + ellipsis == " \U{2026}" && ['\U{2026}'] + "" == ellipsis;
  }

  lemma NoteGoesOn()
    ensures EncodeAll("[line truncated]") == TRUNCATION_NOTE[4..]
  {
    hide EncodeAll, Encode;
    AsciiIsItself("[line truncated]");
  }

  /** The record a log of n records before it stores. */
  function Stored(r: Record, n: nat): Record {
    r.(number := n + 1, message := KeptMessage(r.message))
  }

  const EMPTY := Record(0, 0, [], "")

  type Filter = Record -> bool

  datatype Query = Query(since: nat, filter: Filter, limit: int, epoch: string)

  datatype Result = Result(records: seq<Record>, lastSeq: nat, dropped: nat, skipped: nat, epoch: string,
    restarted: bool)

  function ByTime(r: Record): int { r.time }

  function Matching(filter: Filter, held: seq<Record>): seq<Record> {
    if held == [] then []
    else Matching(filter, held[..|held| - 1]) + if filter(held[|held| - 1]) then [held[|held| - 1]] else []
  }

  // ----- the unbounded log -----

  /** A log numbered from one without a gap. */
  ghost predicate Numbered(log: seq<Record>) {
    forall i :: 0 <= i < |log| ==> log[i].number == i + 1
  }

  /** How many of the oldest records a ring of a capacity has let go. */
  function Gone(n: nat, capacity: nat): nat {
    if n > capacity then n - capacity else 0
  }

  /** The records of a log, still in a ring of a capacity, after a number. */
  function HeldAfter(log: seq<Record>, capacity: nat, since: nat): seq<Record> {
    if since >= |log| then []
    else if since >= Gone(|log|, capacity) then log[since..]
    else log[Gone(|log|, capacity)..]
  }

  function OldestSeq(n: nat, capacity: nat): nat {
    if n == 0 then 0 else Gone(n, capacity) + 1
  }

  predicate Restarts(n: nat, epoch: string, q: Query) {
    (q.epoch != "" && q.epoch != epoch) || q.since > n
  }

  /** The number a query is answered from. */
  function Effective(n: nat, epoch: string, q: Query): nat {
    if Restarts(n, epoch, q) then 0 else q.since
  }

  /** The newest of the records that match, as many as the limit allows. */
  function Newest(records: seq<Record>, limit: int): seq<Record> {
    if 0 < limit < |records| then records[|records| - limit..] else records
  }

  /** How many records a follower is told of that the ring had let go when it asked. */
  function Dropped(n: nat, capacity: nat, following: bool, since: nat): nat {
    if following && OldestSeq(n, capacity) > since + 1 then OldestSeq(n, capacity) - since - 1 else 0
  }

  /** How many matching records a follower is told its limit left out. */
  function Skipped(matching: seq<Record>, limit: int, following: bool): nat {
    if following then |matching| - |Newest(matching, limit)| else 0
  }

  /** The answer the unbounded log would give if it had forgotten what the ring lets go. */
  function Answer(log: seq<Record>, capacity: nat, epoch: string, q: Query): Result {
    var since := Effective(|log|, epoch, q);
    var matching := Matching(q.filter, HeldAfter(log, capacity, since));
    Result(
      SortBy(ByTime, Newest(matching, q.limit)), |log|,
      Dropped(|log|, capacity, q.since > 0, since), Skipped(matching, q.limit, q.since > 0),
      epoch, Restarts(|log|, epoch, q))
  }

  // ----- the ring -----

  /** Before the next place lie the newest records; from it on, once the ring has been
      filled, the oldest still held. */
  ghost predicate Mirrors(ring: seq<Record>, next: nat, filled: bool, log: seq<Record>) {
    && next < |ring|
    && (if filled then |log| >= |ring| else next == |log|)
    && ring[..next] == log[|log| - next..]
    && (filled ==> ring[next..] == log[|log| - |ring|..|log| - next])
  }

  lemma EmptyMirrors(ring: seq<Record>)
    requires ring != []
    ensures Numbered([]) && Mirrors(ring, 0, false, [])
  {
  }

  lemma StoringMirrors(ring: seq<Record>, next: nat, filled: bool, log: seq<Record>, r: Record)
    requires Mirrors(ring, next, filled, log) && Numbered(log) && r.number == |log| + 1
    ensures Numbered(log + [r]) && next < |ring|
    ensures var after := if next + 1 == |ring| then 0 else next + 1;
            Mirrors(ring[next := r], after, filled || after == 0, log + [r])
  {
    hide Mirrors;
    assert next < |ring| by { MirrorsBounds(ring, next, filled, log); }
    if next + 1 == |ring| {
      StoringAtTheEnd(ring, next, filled, log, r);
    } else {
      StoringMidway(ring, next, filled, log, r);
    }
  }

  lemma MirrorsBounds(ring: seq<Record>, next: nat, filled: bool, log: seq<Record>)
    requires Mirrors(ring, next, filled, log)
    ensures next < |ring| && next <= |log|
  {
  }

  lemma StoringMidway(ring: seq<Record>, next: nat, filled: bool, log: seq<Record>, r: Record)
    requires Mirrors(ring, next, filled, log) && next + 1 < |ring|
    ensures Mirrors(ring[next := r], next + 1, filled, log + [r])
  {
    StoredAt(ring, next, r);
    StoredLast(log, next, r);
    if filled {
      OldestForgotten(log, |ring|, next, r);
    }
  }

  lemma StoringAtTheEnd(ring: seq<Record>, next: nat, filled: bool, log: seq<Record>, r: Record)
    requires Mirrors(ring, next, filled, log) && next + 1 == |ring|
    ensures Mirrors(ring[next := r], 0, true, log + [r])
  {
    var stored, grown := ring[next := r], log + [r];
    StoredAt(ring, next, r);
    StoredLast(log, next, r);
    assert stored[0..] == stored && stored[..0] == [] == grown[|grown|..];
    assert grown[|grown| - |ring|..|grown|] == grown[|log| - next..];
  }

  lemma StoredAt(ring: seq<Record>, next: nat, r: Record)
    requires next < |ring|
    ensures ring[next := r][..next + 1] == ring[..next] + [r] && ring[next := r][next + 1..] == ring[next..][1..]
    ensures next + 1 == |ring| ==> ring[next := r] == ring[..next] + [r]
  {
  }

  lemma StoredLast(log: seq<Record>, next: nat, r: Record)
    requires next <= |log|
    ensures (log + [r])[|log| - next..] == log[|log| - next..] + [r]
  {
  }

  lemma OldestForgotten(log: seq<Record>, capacity: nat, next: nat, r: Record)
    requires next < capacity <= |log|
    ensures (log + [r])[|log| + 1 - capacity..|log| - next] == log[|log| - capacity..|log| - next][1..]
  {
  }

  lemma MirrorsTheHeld(ring: seq<Record>, next: nat, filled: bool, log: seq<Record>)
    requires Mirrors(ring, next, filled, log)
    ensures (if filled then ring[next..] else []) + ring[..next] == log[Gone(|log|, |ring|)..]
  {
  }

  method CutMessage(message: seq<Byte>) returns (kept: seq<Byte>)
    ensures kept == KeptMessage(message) && IsKept(message, kept)
  {
    MessageIsKept(message, KeptMessage(message));
    kept := message;
    if |message| > MAX_KEPT_BYTES {
      var cut: nat := MAX_KEPT_BYTES;
      while cut > 0 && !RuneStart(message[cut])
        invariant cut <= MAX_KEPT_BYTES
        invariant CutBack(message, cut) == CutBack(message, MAX_KEPT_BYTES)
      {
        cut := cut - 1;
      }
      kept := message[..cut] + TRUNCATION_NOTE;
    }
  }

  /** The records of one part of the ring after a number. */
  method NewerIn(part: seq<Record>, since: nat, was: seq<Record>) returns (out: seq<Record>)
    ensures out == was + After(part, since)
  {
    out := was;
    for j := 0 to |part|
      invariant out == was + After(part[..j], since)
    {
      assert part[..j + 1][..j] == part[..j];
      if part[j].number > since {
        out := out + [part[j]];
      }
    }
    assert part[..|part|] == part;
  }

  method Select(filter: Filter, held: seq<Record>) returns (records: seq<Record>)
    ensures records == Matching(filter, held)
  {
    records := [];
    for i := 0 to |held|
      invariant records == Matching(filter, held[..i])
    {
      assert held[..i + 1][..i] == held[..i];
      if filter(held[i]) {
        records := records + [held[i]];
      }
    }
    assert held[..|held|] == held;
  }

  class Sink {
    var ring: array<Record>
    var next: nat
    var filled: bool
    var lastSeq: nat
    const epoch: string
    ghost var log: seq<Record>

    /** The ring agrees with the log it abbreviates. */
    ghost predicate Valid()
      reads this, ring
    {
      lastSeq == |log| && Numbered(log) && Mirrors(ring[..], next, filled, log)
    }

    constructor (capacity: int, name: string)
      ensures Valid() && log == [] && epoch == name && fresh(ring)
      ensures ring.Length == if capacity <= 0 then DEFAULT_CAPACITY else capacity
    {
      hide Numbered, Mirrors;
      var size := if capacity <= 0 then DEFAULT_CAPACITY else capacity;
      ring := new Record[size](_ => EMPTY);
      next, filled, lastSeq := 0, false, 0;
      epoch := name;
      log := [];
      new;
      EmptyMirrors(ring[..]);
    }

    method Append(r: Record)
      requires Valid()
      modifies this, ring
      ensures Valid() && ring == old(ring)
      ensures log == old(log) + [Stored(r, |old(log)|)]
      ensures var stored := log[|old(log)|];
              && stored.number == |log| && stored.time == r.time && stored.tag == r.tag
              && IsKept(r.message, stored.message)
    {
      hide Numbered, Mirrors, KeptMessage, IsKept;
      var message := CutMessage(r.message);
      lastSeq := lastSeq + 1;
      var stored := r.(number := lastSeq, message := message);
      ghost var was := ring[..];
      StoringMirrors(was, next, filled, log, stored);
      NextPlace(next, ring.Length);
      ring[next] := stored;
      assert ring[..] == was[next := stored];
      next := (next + 1) % ring.Length;
      if next == 0 {
        filled := true;
      }
      log := log + [stored];
    }

    method OldestSeqHeld() returns (oldest: nat)
      requires Valid()
      ensures oldest == OldestSeq(|log|, ring.Length)
    {
      if !filled {
        if next == 0 {
          return 0;
        }
        return ring[0].number;
      }
      return ring[next].number;
    }

    /** The two parts of the ring, oldest first: the part from the next place on, once the
        ring has been filled, and then the part before it. */
    method Parts() returns (older: seq<Record>, newer: seq<Record>)
      requires Valid()
      ensures older + newer == log[Gone(|log|, ring.Length)..]
    {
      ghost var all := ring[..];
      older := if filled then ring[next..] else [];
      newer := ring[..next];
      assert older == (if filled then all[next..] else []) && newer == all[..next];
      MirrorsTheHeld(all, next, filled, log);
    }

    /** Of what the ring holds, the records with a greater number, in ascending order. */
    method HeldNewerThan(since: nat) returns (out: seq<Record>)
      requires Valid()
      ensures out == HeldAfter(log, ring.Length, since)
    {
      var older, newer := Parts();
      out := NewerIn(older, since, []);
      assert out == After(older, since);
      out := NewerIn(newer, since, out);
      HeldFromParts(log, ring.Length, since, older, newer);
    }

    /** Where a query is answered from, and how much was let go before that. */
    method Position(q: Query) returns (since: nat, restarted: bool, dropped: nat)
      requires Valid()
      ensures since == Effective(|log|, epoch, q) && restarted == Restarts(|log|, epoch, q)
      ensures dropped == Dropped(|log|, ring.Length, q.since > 0, since)
    {
      since, restarted := q.since, false;
      if (q.epoch != "" && q.epoch != epoch) || q.since > lastSeq {
        since := 0;
        restarted := true;
      }
      dropped := 0;
      var oldest := OldestSeqHeld();
      if q.since > 0 && oldest > since + 1 {
        dropped := oldest - since - 1;
      }
    }

    /** The query is answered as the unbounded log would answer it, less what the ring has
        let go. */
    method Query(q: Query) returns (result: Result)
      requires Valid()
      ensures result == Answer(log, ring.Length, epoch, q)
    {
      var since, restarted, dropped := Position(q);
      var held := HeldNewerThan(since);
      var records := Select(q.filter, held);
      var page, skipped := Trim(records, q.limit, q.since > 0);
      result := Result(SortBy(ByTime, page), lastSeq, dropped, skipped, epoch, restarted);
    }
  }

  method Trim(records: seq<Record>, limit: int, following: bool) returns (page: seq<Record>, skipped: nat)
    ensures page == Newest(records, limit) && skipped == Skipped(records, limit, following)
  {
    page, skipped := records, 0;
    if limit > 0 && |records| > limit {
      if following {
        skipped := |records| - limit;
      }
      page := records[|records| - limit..];
    }
  }

  lemma NextPlace(next: nat, length: nat)
    requires next < length
    ensures (next + 1) % length == if next + 1 == length then 0 else next + 1
  {
  }

  /** The records of a stretch of the log after a number. */
  function After(s: seq<Record>, since: nat): seq<Record> {
    if s == [] then []
    else After(s[..|s| - 1], since) + if s[|s| - 1].number > since then [s[|s| - 1]] else []
  }

  lemma {:induction false} AfterInTwo(a: seq<Record>, b: seq<Record>, since: nat)
    ensures After(a + b, since) == After(a, since) + After(b, since)
  {
    if b == [] {
      assert a + b == a;
    } else {
      assert (a + b)[..|a + b| - 1] == a + b[..|b| - 1];
      AfterInTwo(a, b[..|b| - 1], since);
    }
  }

  lemma {:induction false} AfterAll(s: seq<Record>, since: nat)
    requires forall i :: 0 <= i < |s| ==> s[i].number > since
    ensures After(s, since) == s
  {
    if s == [] {
    } else {
      AfterAll(s[..|s| - 1], since);
    }
  }

  lemma {:induction false} AfterNone(s: seq<Record>, since: nat)
    requires forall i :: 0 <= i < |s| ==> s[i].number <= since
    ensures After(s, since) == []
  {
    if s == [] {
    } else {
      AfterNone(s[..|s| - 1], since);
    }
  }

  lemma AfterIsTail(log: seq<Record>, gone: nat, since: nat)
    requires Numbered(log) && gone <= |log|
    ensures After(log[gone..], since) ==
            if since >= |log| then [] else if since >= gone then log[since..] else log[gone..]
  {
    var at := if since >= |log| then |log| else if since >= gone then since else gone;
    var whole, a, b := log[gone..], log[gone..at], log[at..];
    assert whole == a + b;
    AfterSplit(whole, a, b, since);
  }

  lemma HeldFromParts(log: seq<Record>, capacity: nat, since: nat, older: seq<Record>, newer: seq<Record>)
    requires Numbered(log) && older + newer == log[Gone(|log|, capacity)..]
    ensures After(older, since) + After(newer, since) == HeldAfter(log, capacity, since)
  {
    AfterInTwo(older, newer, since);
    AfterIsTail(log, Gone(|log|, capacity), since);
  }

  lemma AfterSplit(whole: seq<Record>, a: seq<Record>, b: seq<Record>, since: nat)
    requires whole == a + b
    requires forall i :: 0 <= i < |a| ==> a[i].number <= since
    requires forall i :: 0 <= i < |b| ==> b[i].number > since
    ensures After(whole, since) == b
  {
    AfterInTwo(a, b, since);
    AfterNone(a, since);
    AfterAll(b, since);
  }

  // ----- what is on a page -----

  lemma {:induction false} MatchingInTwo(filter: Filter, a: seq<Record>, b: seq<Record>)
    ensures Matching(filter, a + b) == Matching(filter, a) + Matching(filter, b)
  {
    if b == [] {
      assert a + b == a;
    } else {
      assert (a + b)[..|a + b| - 1] == a + b[..|b| - 1];
      MatchingInTwo(filter, a, b[..|b| - 1]);
    }
  }

  lemma {:induction false} MatchingMembers(filter: Filter, s: seq<Record>)
    ensures forall r :: r in Matching(filter, s) <==> r in s && filter(r)
  {
    if s == [] {
    } else {
      MatchingMembers(filter, s[..|s| - 1]);
      assert s == s[..|s| - 1] + [s[|s| - 1]];
    }
  }

  ghost predicate InOrder(s: seq<Record>) {
    forall i, j :: 0 <= i < j < |s| ==> s[i].number < s[j].number
  }

  ghost predicate Before(a: Record, b: Record) {
    a.time < b.time || (a.time == b.time && a.number < b.number)
  }

  ghost predicate InTimeOrder(s: seq<Record>) {
    forall i, j :: 0 <= i < j < |s| ==> Before(s[i], s[j])
  }

  lemma {:induction false} MatchingInOrder(filter: Filter, s: seq<Record>)
    requires InOrder(s)
    ensures InOrder(Matching(filter, s))
  {
    if s == [] {
    } else {
      var init := s[..|s| - 1];
      MatchingInOrder(filter, init);
      MatchingMembers(filter, init);
      forall r | r in Matching(filter, init) ensures r.number < s[|s| - 1].number {
        assert r in init;
      }
    }
  }

  lemma {:induction false} InsertInTimeOrder(x: Record, s: seq<Record>)
    requires InTimeOrder(s) && forall r :: r in s ==> r.number < x.number
    ensures InTimeOrder(Insert(ByTime, x, s))
    ensures forall r :: r in Insert(ByTime, x, s) <==> r in s || r == x
  {
    if s == [] || ByTime(s[|s| - 1]) <= ByTime(x) {
      forall i | 0 <= i < |s| ensures Before(s[i], x) {
        assert s[i] in s;
        assert i < |s| - 1 ==> Before(s[i], s[|s| - 1]);
      }
    } else {
      var init, last := s[..|s| - 1], s[|s| - 1];
      InsertInTimeOrder(x, init);
      var r := Insert(ByTime, x, init);
      forall i | 0 <= i < |r| ensures Before(r[i], last) {
        assert r[i] in r;
      }
      assert s == init + [last];
    }
  }

  /** Records in the order they were numbered are put into the order of their times, and
      equal times keep the order of their numbers. */
  lemma {:induction false} SortedInTimeOrder(s: seq<Record>)
    requires InOrder(s)
    ensures InTimeOrder(SortBy(ByTime, s)) && multiset(SortBy(ByTime, s)) == multiset(s)
  {
    SortBySorts(ByTime, s);
    if s == [] {
    } else {
      var init, last := s[..|s| - 1], s[|s| - 1];
      SortedInTimeOrder(init);
      SortBySorts(ByTime, init);
      InsertInTimeOrder(last, SortBy(ByTime, init));
    }
  }

  /** A page is the newest of the held records that match, as many as the limit allows, all
      newer than those it leaves out, and in time order with ties by number. */
  lemma PageOfAnAnswer(log: seq<Record>, capacity: nat, epoch: string, q: Query)
    requires Numbered(log)
    ensures var matching := Matching(q.filter, HeldAfter(log, capacity, Effective(|log|, epoch, q)));
            var newest := Newest(matching, q.limit);
            && matching == matching[..|matching| - |newest|] + newest
            && |newest| == (if 0 < q.limit < |matching| then q.limit else |matching|)
            && InOrder(matching)
            && InTimeOrder(Answer(log, capacity, epoch, q).records)
            && multiset(Answer(log, capacity, epoch, q).records) == multiset(newest)
  {
    var held := HeldAfter(log, capacity, Effective(|log|, epoch, q));
    MatchingInOrder(q.filter, held);
    SortedInTimeOrder(Newest(Matching(q.filter, held), q.limit));
  }

  /** An answer says that it begins anew exactly when the query names another process or a number
      this one has not reached; it names its process and where its log ends; and all it returns
      lies after the number asked for, or anywhere in the log where it begins anew. Without a
      limit it returns every such line that is still held and matches. */
  lemma RestartIsTold(log: seq<Record>, capacity: nat, epoch: string, q: Query)
    requires Numbered(log)
    ensures var answer := Answer(log, capacity, epoch, q);
            var begin := if answer.restarted then 0 else q.since;
            && answer.epoch == epoch && answer.lastSeq == |log|
            && (answer.restarted <==> q.epoch !in {"", epoch} || q.since > |log|)
            && (forall r :: r in answer.records ==> begin < r.number <= |log|)
            && (q.limit <= 0 ==> forall i :: 0 <= i < |log| ==>
                  (log[i] in answer.records <==> begin <= i && |log| - capacity <= i && q.filter(log[i])))
  {
    var since := Effective(|log|, epoch, q);
    var held := HeldAfter(log, capacity, since);
    var page := Newest(Matching(q.filter, held), q.limit);
    MatchingMembers(q.filter, held);
    SortBySorts(ByTime, page);
    forall r | r in page ensures r in held {
      assert r in Matching(q.filter, held);
    }
    forall i | 0 <= i < |log| ensures log[i] in held <==> since <= i && |log| - capacity <= i {
      HeldLines(log, capacity, since, i);
    }
  }

  lemma HeldLines(log: seq<Record>, capacity: nat, since: nat, i: nat)
    requires Numbered(log) && i < |log|
    ensures log[i] in HeldAfter(log, capacity, since) <==> since <= i && |log| - capacity <= i
    ensures forall r :: r in HeldAfter(log, capacity, since) ==> since < r.number <= |log|
  {
    var from := if since >= Gone(|log|, capacity) then since else Gone(|log|, capacity);
    if from <= i {
      assert log[from..][i - from] == log[i];
    }
  }
}
