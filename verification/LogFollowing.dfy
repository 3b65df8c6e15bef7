/** A viewer that follows the log: what becomes of every line between two of its polls, and
    that no line falls between two polls or into both. */
module LogFollowing {
  import opened Sorting
  import opened LogSink

  // ----- one poll -----

  datatype Fate = Returned | Excluded | LeftOut | FellOut

  /** What becomes of the i-th line in the answer to a query: it fell out of the ring, does
      not match, is left out because as many newer ones match as the limit allows, or is
      returned. */
  ghost function FateOf(log: seq<Record>, capacity: nat, q: Query, i: nat): Fate
    requires 0 < i <= |log|
  {
    if i <= Gone(|log|, capacity) then FellOut
    else if !q.filter(log[i - 1]) then Excluded
    else if q.limit > 0 && |Matching(q.filter, log[i..])| >= q.limit then LeftOut
    else Returned
  }

  /** How many of the lines after one number up to another meet a fate. */
  ghost function Tally(log: seq<Record>, capacity: nat, q: Query, fate: Fate, lo: nat, hi: nat): nat
    requires hi <= |log|
    decreases hi
  {
    if hi <= lo then 0
    else Tally(log, capacity, q, fate, lo, hi - 1) + if FateOf(log, capacity, q, hi) == fate then 1 else 0
  }

  lemma {:induction false} EveryLineHasAFate(log: seq<Record>, capacity: nat, q: Query, lo: nat, hi: nat)
    requires lo <= hi <= |log|
    ensures Tally(log, capacity, q, Returned, lo, hi) + Tally(log, capacity, q, Excluded, lo, hi)
            + Tally(log, capacity, q, LeftOut, lo, hi) + Tally(log, capacity, q, FellOut, lo, hi) == hi - lo
    decreases hi
  {
    if lo < hi {
      EveryLineHasAFate(log, capacity, q, lo, hi - 1);
    }
  }

  lemma {:induction false} TallyInTwo(log: seq<Record>, capacity: nat, q: Query, fate: Fate, lo: nat, middle: nat,
                                      hi: nat)
    requires lo <= middle <= hi <= |log|
    ensures Tally(log, capacity, q, fate, lo, hi)
            == Tally(log, capacity, q, fate, lo, middle) + Tally(log, capacity, q, fate, middle, hi)
    decreases hi
  {
    if middle < hi {
      TallyInTwo(log, capacity, q, fate, lo, middle, hi - 1);
    }
  }

  lemma {:induction false} TallyNone(log: seq<Record>, capacity: nat, q: Query, fate: Fate, lo: nat, hi: nat)
    requires lo <= hi <= |log| && forall i :: lo < i <= hi ==> FateOf(log, capacity, q, i) != fate
    ensures Tally(log, capacity, q, fate, lo, hi) == 0
    decreases hi
  {
    if lo < hi {
      TallyNone(log, capacity, q, fate, lo, hi - 1);
    }
  }

  lemma {:induction false} TallyEvery(log: seq<Record>, capacity: nat, q: Query, fate: Fate, lo: nat, hi: nat)
    requires lo <= hi <= |log| && forall i :: lo < i <= hi ==> FateOf(log, capacity, q, i) == fate
    ensures Tally(log, capacity, q, fate, lo, hi) == hi - lo
    decreases hi
  {
    if lo < hi {
      TallyEvery(log, capacity, q, fate, lo, hi - 1);
    }
  }

  lemma {:induction false} TallyMatching(log: seq<Record>, capacity: nat, q: Query, fate: Fate, lo: nat, hi: nat)
    requires lo <= hi <= |log|
    requires forall i :: lo < i <= hi ==> (FateOf(log, capacity, q, i) == fate <==> q.filter(log[i - 1]))
    ensures Tally(log, capacity, q, fate, lo, hi) == |Matching(q.filter, log[lo..hi])|
    decreases hi
  {
    if lo < hi {
      TallyMatching(log, capacity, q, fate, lo, hi - 1);
      var s := log[lo..hi];
      assert s[..|s| - 1] == log[lo..hi - 1] && s[|s| - 1] == log[hi - 1];
    }
  }

  /** Where the limit cuts the log: the first place from which on no more lines match than
      it allows. */
  ghost function CutAt(log: seq<Record>, filter: Filter, limit: nat, from: nat): (cut: nat)
    requires from <= |log|
    ensures from <= cut <= |log| && |Matching(filter, log[cut..])| <= limit
    ensures cut > from ==> |Matching(filter, log[cut..])| == limit
    ensures forall c :: from <= c < cut ==> |Matching(filter, log[c..])| > limit
    decreases |log| - from
  {
    if |Matching(filter, log[from..])| <= limit then from
    else
      MatchingFrom(log, filter, from);
      CutAt(log, filter, limit, from + 1)
  }

  lemma MatchingFrom(log: seq<Record>, filter: Filter, from: nat)
    requires from <= |log|
    ensures from == |log| ==> Matching(filter, log[from..]) == []
    ensures from < |log| ==> |Matching(filter, log[from..])|
                             == |Matching(filter, log[from + 1..])| + if filter(log[from]) then 1 else 0
  {
    if from < |log| {
      var one := [log[from]];
      assert log[from..] == one + log[from + 1..];
      MatchingInTwo(filter, one, log[from + 1..]);
      assert one[..0] == [] && Matching(filter, one) == Matching(filter, one[..0]) + if filter(one[0]) then one else [];
    }
  }

  /** The first line a query's answer can hold. */
  ghost function FirstHeld(log: seq<Record>, capacity: nat, since: nat): nat {
    if since < Gone(|log|, capacity) then Gone(|log|, capacity) else since
  }

  /** The cut of a query: before it matching lines are left out, from it on returned. */
  ghost function CutOf(log: seq<Record>, capacity: nat, q: Query, since: nat): (cut: nat)
    requires since <= |log|
    ensures FirstHeld(log, capacity, since) <= cut <= |log|
  {
    if q.limit > 0 then CutAt(log, q.filter, q.limit, FirstHeld(log, capacity, since))
    else FirstHeld(log, capacity, since)
  }

  lemma PageIsAfterTheCut(log: seq<Record>, capacity: nat, q: Query, since: nat)
    requires since <= |log|
    ensures var matching := Matching(q.filter, HeldAfter(log, capacity, since));
            var cut := CutOf(log, capacity, q, since);
            && Newest(matching, q.limit) == Matching(q.filter, log[cut..])
            && |matching| == |Matching(q.filter, log[FirstHeld(log, capacity, since)..cut])|
              + |Newest(matching, q.limit)|
  {
    var first, cut := FirstHeld(log, capacity, since), CutOf(log, capacity, q, since);
    assert HeldAfter(log, capacity, since) == log[first..];
    assert log[first..] == log[first..cut] + log[cut..];
    MatchingInTwo(q.filter, log[first..cut], log[cut..]);
    if cut == first {
      assert log[first..cut] == [];
    }
  }

  lemma FatesByTheCut(log: seq<Record>, capacity: nat, q: Query, since: nat)
    requires since <= |log|
    ensures var first, cut := FirstHeld(log, capacity, since), CutOf(log, capacity, q, since);
            && (forall i :: since < i <= first ==> FateOf(log, capacity, q, i) == FellOut)
            && (forall i :: first < i <= cut
                            ==> FateOf(log, capacity, q, i) == if q.filter(log[i - 1]) then LeftOut else Excluded)
            && forall i :: cut < i <= |log|
                           ==> FateOf(log, capacity, q, i) == if q.filter(log[i - 1]) then Returned else Excluded
  {
    var first, cut := FirstHeld(log, capacity, since), CutOf(log, capacity, q, since);
    forall i | first < i <= |log| && q.filter(log[i - 1])
      ensures FateOf(log, capacity, q, i) == if i <= cut then LeftOut else Returned
    {
      MatchingFrom(log, q.filter, i - 1);
      if q.limit > 0 && cut < i {
        FewerLater(log, q.filter, cut, i - 1);
      }
    }
  }

  lemma {:induction false} FewerLater(log: seq<Record>, filter: Filter, a: nat, b: nat)
    requires a <= b <= |log|
    ensures |Matching(filter, log[b..])| <= |Matching(filter, log[a..])|
  {
    assert log[a..] == log[a..b] + log[b..];
    MatchingInTwo(filter, log[a..b], log[b..]);
  }

  /** The records of an answer are exactly the lines whose fate is to be returned, and the
      answer's figures count the others: of a viewer that follows on, every line after the
      position it is answered from is returned, does not match, or is counted. */
  lemma PollAccounts(log: seq<Record>, capacity: nat, epoch: string, q: Query)
    requires Numbered(log) && q.since > 0
    ensures var since, answer := Effective(|log|, epoch, q), Answer(log, capacity, epoch, q);
            && since <= |log| == answer.lastSeq && answer.epoch == epoch
            && (if answer.restarted then since == 0 else since == q.since && (q.epoch == "" || q.epoch == epoch))
            && (forall r :: r in answer.records <==> IsReturned(log, capacity, q, since, r))
            && |answer.records| == Tally(log, capacity, q, Returned, since, |log|)
            && answer.skipped == Tally(log, capacity, q, LeftOut, since, |log|)
            && answer.dropped == Tally(log, capacity, q, FellOut, since, |log|)
            && |answer.records| + answer.skipped + answer.dropped + Tally(log, capacity, q, Excluded, since, |log|)
              == answer.lastSeq - since
  {
    var since := Effective(|log|, epoch, q);
    AnswerByFates(log, capacity, epoch, q);
    EveryLineHasAFate(log, capacity, q, since, |log|);
  }

  lemma AnswerByFates(log: seq<Record>, capacity: nat, epoch: string, q: Query)
    requires Numbered(log)
    ensures var since, answer := Effective(|log|, epoch, q), Answer(log, capacity, epoch, q);
            var matching := Matching(q.filter, HeldAfter(log, capacity, since));
            && since <= |log| == answer.lastSeq
            && (forall r :: r in answer.records <==> IsReturned(log, capacity, q, since, r))
            && |answer.records| == Tally(log, capacity, q, Returned, since, |log|)
            && |matching| - |Newest(matching, q.limit)| == Tally(log, capacity, q, LeftOut, since, |log|)
            && FirstHeld(log, capacity, since) - since == Tally(log, capacity, q, FellOut, since, |log|)
  {
    hide FateOf, Matching, Tally, HeldAfter, SortBy, CutOf, IsReturned, Newest, Numbered;
    var since := Effective(|log|, epoch, q);
    var first, cut := FirstHeld(log, capacity, since), CutOf(log, capacity, q, since);
    PageIsAfterTheCut(log, capacity, q, since);
    FatesByTheCut(log, capacity, q, since);
    SortBySorts(ByTime, Matching(q.filter, log[cut..]));
    forall r ensures r in Matching(q.filter, log[cut..]) <==> IsReturned(log, capacity, q, since, r) {
      ReturnedAfterTheCut(log, capacity, q, since, cut, r);
    }
    Tallies(log, capacity, q, since, first, cut);
    assert log[cut..|log|] == log[cut..];
  }

  /** A line after a position whose fate is to be returned. */
  ghost predicate IsReturned(log: seq<Record>, capacity: nat, q: Query, since: nat, r: Record) {
    exists i :: since < i <= |log| && FateOf(log, capacity, q, i) == Returned && r == log[i - 1]
  }

  lemma ReturnedAfterTheCut(log: seq<Record>, capacity: nat, q: Query, since: nat, cut: nat, r: Record)
    requires since <= cut <= |log|
    requires forall i :: since < i <= cut ==> FateOf(log, capacity, q, i) != Returned
    requires forall i :: cut < i <= |log|
                         ==> FateOf(log, capacity, q, i) == if q.filter(log[i - 1]) then Returned else Excluded
    ensures r in Matching(q.filter, log[cut..]) <==> IsReturned(log, capacity, q, since, r)
  {
    var tail := log[cut..];
    MatchingMembers(q.filter, tail);
    if r in tail && q.filter(r) {
      var k :| 0 <= k < |tail| && tail[k] == r;
      assert FateOf(log, capacity, q, cut + k + 1) == Returned;
    }
    if IsReturned(log, capacity, q, since, r) {
      var i :| since < i <= |log| && FateOf(log, capacity, q, i) == Returned && r == log[i - 1];
      assert tail[i - 1 - cut] == r;
    }
  }

  lemma Tallies(log: seq<Record>, capacity: nat, q: Query, since: nat, first: nat, cut: nat)
    requires since <= first <= cut <= |log|
    requires forall i :: since < i <= first ==> FateOf(log, capacity, q, i) == FellOut
    requires forall i :: first < i <= cut
                         ==> FateOf(log, capacity, q, i) == if q.filter(log[i - 1]) then LeftOut else Excluded
    requires forall i :: cut < i <= |log|
                         ==> FateOf(log, capacity, q, i) == if q.filter(log[i - 1]) then Returned else Excluded
    ensures Tally(log, capacity, q, Returned, since, |log|) == |Matching(q.filter, log[cut..|log|])|
    ensures Tally(log, capacity, q, LeftOut, since, |log|) == |Matching(q.filter, log[first..cut])|
    ensures Tally(log, capacity, q, FellOut, since, |log|) == first - since
  {
    var n := |log|;
    TallyInTwo(log, capacity, q, Returned, since, cut, n);
    TallyNone(log, capacity, q, Returned, since, cut);
    TallyMatching(log, capacity, q, Returned, cut, n);
    TallyInTwo(log, capacity, q, LeftOut, since, cut, n);
    TallyInTwo(log, capacity, q, LeftOut, since, first, cut);
    TallyNone(log, capacity, q, LeftOut, since, first);
    TallyNone(log, capacity, q, LeftOut, cut, n);
    TallyMatching(log, capacity, q, LeftOut, first, cut);
    TallyInTwo(log, capacity, q, FellOut, since, first, n);
    TallyEvery(log, capacity, q, FellOut, since, first);
    TallyNone(log, capacity, q, FellOut, first, n);
  }

  /** Without a filter the figures add up to the lines between the two positions. */
  lemma UnfilteredPollAccounts(log: seq<Record>, capacity: nat, epoch: string, q: Query)
    requires Numbered(log) && q.since > 0 && forall r :: q.filter(r)
    ensures var answer := Answer(log, capacity, epoch, q);
            |answer.records| + answer.skipped + answer.dropped == answer.lastSeq - Effective(|log|, epoch, q)
  {
    PollAccounts(log, capacity, epoch, q);
    TallyNone(log, capacity, q, Excluded, Effective(|log|, epoch, q), |log|);
  }

  /** A position of zero, which an empty log gives out as well, is not taken for one that is
      followed on from: the figures then add up exactly when nothing fell out of the ring and
      the limit left nothing out. */
  lemma PollFromZero(log: seq<Record>, capacity: nat, epoch: string, q: Query)
    requires Numbered(log) && q.since == 0
    ensures var answer := Answer(log, capacity, epoch, q);
            var matching := Matching(q.filter, HeldAfter(log, capacity, 0));
            |answer.records| + answer.skipped + answer.dropped + Tally(log, capacity, q, Excluded, 0, |log|)
              == answer.lastSeq
            <==> |log| <= capacity && (q.limit <= 0 || |matching| <= q.limit)
  {
    AnswerByFates(log, capacity, epoch, q);
    EveryLineHasAFate(log, capacity, q, 0, |log|);
  }

  /** A viewer that polled while the log was empty, and polls again after two lines have come
      to a ring that holds one, is given the second and told of no other. */
  lemma ALineLostUnsaid(first: Record, second: Record, epoch: string)
    requires first.number == 1 && second.number == 2
    ensures var all := Query(0, r => true, 0, epoch);
            && Answer([], 1, epoch, all).lastSeq == 0 && Answer([first, second], 1, epoch, all).records == [second]
            && Answer([first, second], 1, epoch, all).dropped == 0
            && Answer([first, second], 1, epoch, all).skipped == 0
  {
    var all := Query(0, r => true, 0, epoch);
    var log := [first, second];
    assert HeldAfter(log, 1, 0) == log[1..] == [second];
    assert [second][..0] == [];
    assert Matching(all.filter, [second]) == [second];
    SortBySorts(ByTime, [second]);
    var sorted := SortBy(ByTime, [second]);
    assert second in [second] && second in sorted;
  }

  // ----- a run of appends and polls -----

  datatype Event =
    | Append(record: Record)
    | Poll(filter: Filter, limit: int, named: bool)
    | Replace(capacity: nat, epoch: string)

  /** The process, its log and ring, and the position a viewer has come to, with the process
      it was given by; a viewer that has not polled yet knows neither. */
  datatype World = World(log: seq<Record>, capacity: nat, epoch: string, since: nat, known: string)

  /** What a viewer asks: on from its position, naming the process it knows, or not naming any. */
  function Asked(w: World, e: Event): Query
    requires e.Poll?
  {
    Query(w.since, e.filter, e.limit, if e.named then w.known else "")
  }

  /** A poll moves the viewer on to where the log ends, and a replaced process begins a log
      of its own. */
  function Next(w: World, e: Event): World {
    match e
    case Append(r) => w.(log := w.log + [Stored(r, |w.log|)])
    case Poll(_, _, _) =>
      var answer := Answer(w.log, w.capacity, w.epoch, Asked(w, e));
      w.(since := answer.lastSeq, known := answer.epoch)
    case Replace(capacity, epoch) => World([], capacity, epoch, w.since, w.known)
  }

  function WorldAfter(w: World, events: seq<Event>): World {
    if events == [] then w else Next(WorldAfter(w, events[..|events| - 1]), events[|events| - 1])
  }

  ghost predicate Sound(w: World) {
    Numbered(w.log) && w.epoch != "" && (w.known == "" ==> w.since == 0) && (w.known == w.epoch ==> w.since <= |w.log|)
  }

  /** How far into the log of the running process the viewer has come. */
  function Reached(w: World): nat {
    if w.known == w.epoch then w.since else 0
  }

  /** No process answers to a name an earlier one had. */
  ghost predicate Fresh(w: World, events: seq<Event>) {
    events == [] || (
      var before, last := events[..|events| - 1], events[|events| - 1];
      Fresh(w, before) && (last.Replace? ==> last.epoch != "" && last.epoch !in Names(w, before)))
  }

  ghost function Names(w: World, events: seq<Event>): set<string> {
    if events == [] then {w.epoch, w.known}
    else Names(w, events[..|events| - 1]) + if events[|events| - 1].Replace? then {events[|events| - 1].epoch} else {}
  }

  /** A poll that names its process, or that the process can tell is not one of its own. */
  predicate Recognised(w: World, e: Event) {
    e.Poll? ==> e.named || w.known == w.epoch || w.since == 0 || w.since > |w.log|
  }

  ghost predicate AllRecognised(w: World, events: seq<Event>) {
    events == [] || (AllRecognised(w, events[..|events| - 1])
                     && Recognised(WorldAfter(w, events[..|events| - 1]), events[|events| - 1]))
  }

  /** A poll is answered from where the viewer has come to exactly when it is recognised, and
      never from before that. */
  lemma AnsweredFrom(w: World, e: Event)
    requires Sound(w) && e.Poll?
    ensures Reached(w) <= Effective(|w.log|, w.epoch, Asked(w, e)) <= |w.log|
    ensures Effective(|w.log|, w.epoch, Asked(w, e)) == Reached(w) <==> Recognised(w, e)
  {
  }

  /** Whether a step is a poll whose answer is about the i-th line of a process. */
  predicate Covers(w: World, e: Event, epoch: string, i: nat) {
    e.Poll? && w.epoch == epoch && Effective(|w.log|, w.epoch, Asked(w, e)) < i <= |w.log|
  }

  /** How many polls of a run are about the i-th line of a process. */
  function Times(w: World, events: seq<Event>, epoch: string, i: nat): nat {
    if events == [] then 0
    else Times(w, events[..|events| - 1], epoch, i)
         + if Covers(WorldAfter(w, events[..|events| - 1]), events[|events| - 1], epoch, i) then 1 else 0
  }

  /** Where the viewer's first position lies in the log of a process. */
  function Start(w: World, epoch: string): nat {
    if w.epoch == epoch then Reached(w) else 0
  }

  lemma {:induction false} RunStaysSound(w: World, events: seq<Event>)
    requires Sound(w) && Fresh(w, events)
    ensures var end := WorldAfter(w, events);
            && Sound(end) && w.epoch in Names(w, events) && end.epoch in Names(w, events)
            && (end.known in Names(w, events)) && Start(w, end.epoch) <= Reached(end)
  {
    if events == [] {
    } else {
      RunStaysSound(w, events[..|events| - 1]);
    }
  }

  /** Over any run of appends, polls and replaced processes no line is in the answers of two
      polls; and where the polls are recognised, of the running process's lines those the viewer
      has come past since its first position are in exactly one, and no others are. */
  lemma {:induction false} EachLineInOnePoll(w: World, events: seq<Event>, epoch: string, i: nat)
    requires Sound(w) && Fresh(w, events) && i > 0
    ensures Times(w, events, epoch, i) <= 1
    ensures epoch == WorldAfter(w, events).epoch && Times(w, events, epoch, i) == 1 ==>
              Start(w, epoch) < i <= Reached(WorldAfter(w, events))
    ensures epoch == WorldAfter(w, events).epoch && AllRecognised(w, events) ==>
              Times(w, events, epoch, i) == if Start(w, epoch) < i <= Reached(WorldAfter(w, events)) then 1 else 0
    ensures epoch !in Names(w, events) ==> Times(w, events, epoch, i) == 0
  {
    if events == [] {
    } else {
      var init, e := events[..|events| - 1], events[|events| - 1];
      RunStaysSound(w, init);
      RunStaysSound(w, events);
      EachLineInOnePoll(w, init, epoch, i);
      if e.Poll? {
        AnsweredFrom(WorldAfter(w, init), e);
      }
    }
  }

  /** Of the running process's lines, those the viewer has come past are in exactly one answer. */
  ghost predicate Complete(w: World, events: seq<Event>) {
    var end := WorldAfter(w, events);
    forall i: nat :: i > 0 ==>
      Times(w, events, end.epoch, i) == if Start(w, end.epoch) < i <= Reached(end) then 1 else 0
  }

  lemma PolledTo(w: World, e: Event)
    requires Sound(w) && e.Poll?
    ensures Reached(Next(w, e)) == |w.log| && Next(w, e).epoch == w.epoch
  {
  }

  lemma UnrecognisedMeans(w: World, e: Event)
    requires Sound(w) && !Recognised(w, e)
    ensures e.Poll? && Reached(w) == 0 && 0 < |w.log| && !Covers(w, e, w.epoch, 1)
  {
    AnsweredFrom(w, e);
  }

  /** A poll that is not recognised passes over the first line of its process, for good. */
  lemma PassesOver(w: World, events: seq<Event>)
    requires Sound(w) && Fresh(w, events) && events != [] && AllRecognised(w, events[..|events| - 1])
    requires !Recognised(WorldAfter(w, events[..|events| - 1]), events[|events| - 1])
    ensures !Complete(w, events)
  {
    var init, e := events[..|events| - 1], events[|events| - 1];
    var before, end := WorldAfter(w, init), WorldAfter(w, events);
    RunStaysSound(w, init);
    UnrecognisedMeans(before, e);
    PolledTo(before, e);
    EachLineInOnePoll(w, init, before.epoch, 1);
    assert end == Next(before, e);
    assert Times(w, events, end.epoch, 1) == 0;
    hide Sound, Fresh, AllRecognised, Recognised, Covers, Next, WorldAfter, Times;
    assert Start(w, end.epoch) < 1 <= Reached(end);
  }

  /** A viewer that has come to the first line of one process asks the next, which has written a
      line of its own, and does not name the one it knows: it is given nothing and told of no
      restart, and the line lies behind it. */
  lemma ALinePassedOver(r: Record, w: World, e: Event)
    requires r.number == 1 && w == World([r], 1, "second", 1, "first") && e == Poll(x => true, 0, false)
    ensures var answer := Answer(w.log, w.capacity, w.epoch, Asked(w, e));
            Sound(w) && answer.records == [] && answer.dropped == 0 && answer.skipped == 0 && !answer.restarted
    ensures Reached(Next(w, e)) == 1 && !Covers(w, e, w.epoch, 1)
  {
    SortBySorts(ByTime, []);
  }

  lemma {:induction false} SomeMomentMisses(w: World, events: seq<Event>) returns (k: nat)
    requires Sound(w) && Fresh(w, events) && !AllRecognised(w, events)
    ensures k <= |events| && !Complete(w, events[..k])
  {
    var n := |events|;
    var init := events[..n - 1];
    if AllRecognised(w, init) {
      k := n;
      PassesOver(w, events);
      assert events[..n] == events;
    } else {
      k := SomeMomentMisses(w, init);
      assert init[..k] == events[..k];
    }
  }

  lemma {:induction false} EarlierMoments(w: World, events: seq<Event>, k: nat)
    requires k <= |events| && Fresh(w, events) && AllRecognised(w, events)
    ensures Fresh(w, events[..k]) && AllRecognised(w, events[..k])
  {
    if k == |events| {
      assert events[..k] == events;
    } else {
      var init := events[..|events| - 1];
      EarlierMoments(w, init, k);
      assert init[..k] == events[..k];
    }
  }

  /** No moment of a run finds a line passed over exactly when every poll is recognised. */
  lemma CompleteExactly(w: World, events: seq<Event>)
    requires Sound(w) && Fresh(w, events)
    ensures (forall k :: 0 <= k <= |events| ==> Complete(w, events[..k])) <==> AllRecognised(w, events)
  {
    if AllRecognised(w, events) {
      forall k | 0 <= k <= |events| ensures Complete(w, events[..k]) {
        EarlierMoments(w, events, k);
        CompleteWhereRecognised(w, events[..k]);
      }
    } else {
      var k := SomeMomentMisses(w, events);
    }
  }

  lemma CompleteWhereRecognised(w: World, events: seq<Event>)
    requires Sound(w) && Fresh(w, events) && AllRecognised(w, events)
    ensures Complete(w, events)
  {
    forall i: nat | i > 0
      ensures Times(w, events, WorldAfter(w, events).epoch, i)
              == if Start(w, WorldAfter(w, events).epoch) < i <= Reached(WorldAfter(w, events)) then 1 else 0
    {
      EachLineInOnePoll(w, events, WorldAfter(w, events).epoch, i);
    }
  }

  // ----- the figures of a run -----

  /** What one poll returned, counted, or passed over because it did not match. */
  ghost function Figures(w: World, e: Event): nat
    requires e.Poll?
  {
    var q, answer := Asked(w, e), Answer(w.log, w.capacity, w.epoch, Asked(w, e));
    |answer.records| + answer.skipped + answer.dropped
      + Tally(w.log, w.capacity, q, Excluded, Effective(|w.log|, w.epoch, q), |w.log|)
  }

  /** A recognised poll that follows on from a position, or from which nothing is missing. */
  predicate Told(w: World, e: Event)
    requires e.Poll?
  {
    && Recognised(w, e)
    && (w.since > 0
        || (|w.log| <= w.capacity
            && (e.limit <= 0 || |Matching(e.filter, HeldAfter(w.log, w.capacity, 0))| <= e.limit)))
  }

  /** A poll's figures are never more than the lines it moves past, and just as many exactly
      where the viewer is told of all. */
  lemma FiguresOfAPoll(w: World, e: Event)
    requires Sound(w) && e.Poll?
    ensures Figures(w, e) <= |w.log| - Reached(w)
    ensures Figures(w, e) == |w.log| - Reached(w) <==> Told(w, e)
  {
    var q := Asked(w, e);
    AnsweredFrom(w, e);
    if w.since > 0 {
      PollAccounts(w.log, w.capacity, w.epoch, q);
    } else {
      PollFromZero(w.log, w.capacity, w.epoch, q);
      AnswerByFates(w.log, w.capacity, w.epoch, q);
      EveryLineHasAFate(w.log, w.capacity, q, 0, |w.log|);
    }
  }

  /** The figures of the polls of a run that a process answered. */
  ghost function Accounted(w: World, events: seq<Event>, epoch: string): nat {
    if events == [] then 0
    else
      var init, e := events[..|events| - 1], events[|events| - 1];
      var before := WorldAfter(w, init);
      Accounted(w, init, epoch) + if e.Poll? && before.epoch == epoch then Figures(before, e) else 0
  }

  ghost predicate AllTold(w: World, events: seq<Event>, epoch: string) {
    if events == [] then true
    else
      var init, e := events[..|events| - 1], events[|events| - 1];
      var before := WorldAfter(w, init);
      AllTold(w, init, epoch) && (e.Poll? && before.epoch == epoch ==> Told(before, e))
  }

  /** Over any run the figures the running process gave are never more than the lines from the
      viewer's first position to its last, and as many exactly where every poll was told of all:
      then nothing is lost unsaid. */
  lemma {:induction false} RunAccounts(w: World, events: seq<Event>)
    requires Sound(w) && Fresh(w, events)
    ensures var end := WorldAfter(w, events);
            && Start(w, end.epoch) <= Reached(end)
            && Accounted(w, events, end.epoch) <= Reached(end) - Start(w, end.epoch)
            && (Accounted(w, events, end.epoch) == Reached(end) - Start(w, end.epoch)
              <==> AllTold(w, events, end.epoch))
  {
    RunStaysSound(w, events);
    if events == [] {
    } else {
      var init, e := events[..|events| - 1], events[|events| - 1];
      RunStaysSound(w, init);
      RunAccounts(w, init);
      hide Told, Figures, Recognised;
      if e.Poll? {
        FiguresOfAPoll(WorldAfter(w, init), e);
      } else if e.Replace? {
        NothingOfAnother(w, init, e.epoch);
      }
    }
  }

  lemma {:induction false} NothingOfAnother(w: World, events: seq<Event>, epoch: string)
    requires Sound(w) && Fresh(w, events) && epoch !in Names(w, events)
    ensures Accounted(w, events, epoch) == 0 && AllTold(w, events, epoch)
  {
    if events == [] {
    } else {
      RunStaysSound(w, events[..|events| - 1]);
      NothingOfAnother(w, events[..|events| - 1], epoch);
    }
  }
}
