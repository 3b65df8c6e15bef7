/** The announcement hub: open streams, what is still worth saying to whoever joins, and
    what each stream hears. Methods run one at a time, as the hub's mutex has them. */
module Announce {
  import opened Options

  datatype Kind = Installing | Restarting | Pending | Cancelled | Maintenance

  datatype Announcement = Announcement(kind: Kind, version: string, at: int)

  const STREAM_BUFFER := 4

  // ----- what is still worth saying, from the whole history -----

  /** The two things the channel carries: maintenance, and the update. */
  predicate About(a: Announcement, maintenance: bool) {
    (a.kind == Maintenance) == maintenance
  }

  /** Where the last announcement about one of the two is, or -1. */
  function LastAbout(history: seq<Announcement>, maintenance: bool): (i: int)
    ensures -1 <= i < |history|
    ensures i >= 0 ==> About(history[i], maintenance)
    ensures forall j :: i < j < |history| ==> !About(history[j], maintenance)
  {
    if history == [] then -1
    else if About(history[|history| - 1], maintenance) then |history| - 1
    else LastAbout(history[..|history| - 1], maintenance)
  }

  /** The last thing said about one of the two, unless it took back what was said before. */
  function InForce(history: seq<Announcement>, maintenance: bool): Option<Announcement> {
    var i := LastAbout(history, maintenance);
    if i >= 0 && history[i].kind != Cancelled then Some(history[i]) else None
  }

  function AsSeq(a: Option<Announcement>): seq<Announcement> {
    if a.Some? then [a.value] else []
  }

  /** The last maintenance notice and the last update notice unless that one was Cancelled,
      in the order they were said. */
  function StandingAfter(history: seq<Announcement>): (standing: seq<Announcement>)
    ensures |standing| <= 2
  {
    var maintenance, update := AsSeq(InForce(history, true)), AsSeq(InForce(history, false));
    if LastAbout(history, true) < LastAbout(history, false) then maintenance + update else update + maintenance
  }

  /** What Publish leaves of what stood: everything about the other thing. */
  function Without(standing: seq<Announcement>, maintenance: bool): seq<Announcement> {
    if standing == [] then []
    else (if About(standing[0], maintenance) then [] else [standing[0]]) + Without(standing[1..], maintenance)
  }

  /** Publish's bookkeeping keeps the memory a function of the whole history. */
  lemma PublishingStands(history: seq<Announcement>, said: Announcement)
    ensures Without(StandingAfter(history), said.kind == Maintenance) + (if said.kind != Cancelled then [said] else [])
            == StandingAfter(history + [said])
  {
    var topic := said.kind == Maintenance;
    OthersStand(history, topic);
    LastAfterOneMore(history, said, topic);
    hide LastAbout, Without;
    assert InForce(history + [said], !topic) == InForce(history, !topic);
    assert InForce(history + [said], topic) == if said.kind != Cancelled then Some(said) else None;
  }

  /** Of what stood, what is about the other thing remains. */
  lemma OthersStand(history: seq<Announcement>, topic: bool)
    ensures Without(StandingAfter(history), topic) == AsSeq(InForce(history, !topic))
  {
    ForceIsAbout(history, true);
    ForceIsAbout(history, false);
    WithoutTwo(StandingAfter(history), topic);
    hide InForce, LastAbout, Without;
  }

  lemma ForceIsAbout(history: seq<Announcement>, maintenance: bool)
    ensures InForce(history, maintenance).Some? ==>
              About(InForce(history, maintenance).value, maintenance)
                && !About(InForce(history, maintenance).value, !maintenance)
  {
  }

  lemma LastAfterOneMore(history: seq<Announcement>, said: Announcement, maintenance: bool)
    requires About(said, maintenance)
    ensures LastAbout(history + [said], maintenance) == |history|
    ensures LastAbout(history + [said], !maintenance) == LastAbout(history, !maintenance)
  {
    assert (history + [said])[..|history|] == history;
  }

  lemma WithoutTwo(standing: seq<Announcement>, maintenance: bool)
    requires |standing| <= 2
    ensures Without(standing, maintenance) ==
            (if |standing| > 0 && !About(standing[0], maintenance) then [standing[0]] else [])
            + (if |standing| > 1 && !About(standing[1], maintenance) then [standing[1]] else [])
  {
    if |standing| == 2 {
      assert standing[1..][1..] == [];
    }
  }

  /** What is in force, publication by publication: maintenance until the next maintenance, and of
      the update what was said last, unless that was that it is off. */
  lemma EachSaysOneThing(history: seq<Announcement>, said: Announcement)
    ensures InForce([], true) == InForce([], false) == None
    ensures var maintenance, update := InForce(history + [said], true), InForce(history + [said], false);
            match said.kind
            case Maintenance => maintenance == Some(said) && update == InForce(history, false)
            case Cancelled => maintenance == InForce(history, true) && update == None
            case _ => maintenance == InForce(history, true) && update == Some(said)
  {
    LastAfterOneMore(history, said, said.kind == Maintenance);
  }

  // ----- a late joiner and an early subscriber -----

  lemma {:induction false} LastInTwo(a: seq<Announcement>, b: seq<Announcement>, maintenance: bool)
    ensures LastAbout(a + b, maintenance)
            == if LastAbout(b, maintenance) >= 0 then |a| + LastAbout(b, maintenance) else LastAbout(a, maintenance)
  {
    if b == [] {
      assert a + b == a;
    } else {
      assert (a + b)[..|a + b| - 1] == a + b[..|b| - 1];
      LastInTwo(a, b[..|b| - 1], maintenance);
    }
  }

  /** What stands says of either thing what the history it stands for says. */
  lemma StandingSaysTheSame(history: seq<Announcement>, maintenance: bool)
    ensures InForce(StandingAfter(history), maintenance) == InForce(history, maintenance)
  {
    var standing := StandingAfter(history);
    var i := LastAbout(standing, maintenance);
    if InForce(history, maintenance).Some? {
      assert InForce(history, maintenance).value in standing;
    }
  }

  /** Whenever two subscribers joined, if neither lost anything both now hold the same
      notice of the update to be in force, and of maintenance, and it is the one in force:
      Cancelled reads as none. */
  lemma SubscribersAgree(history: seq<Announcement>, early: nat, late: nat, maintenance: bool)
    requires early <= |history| && late <= |history|
    ensures InForce(StandingAfter(history[..early]) + history[early..], maintenance) == InForce(history, maintenance)
    ensures InForce(StandingAfter(history[..early]) + history[early..], maintenance)
            == InForce(StandingAfter(history[..late]) + history[late..], maintenance)
  {
    HeardIsInForce(history, early, maintenance);
    HeardIsInForce(history, late, maintenance);
  }

  lemma ForceInTwo(a: seq<Announcement>, b: seq<Announcement>, maintenance: bool)
    ensures InForce(a + b, maintenance) ==
      if LastAbout(b, maintenance) >= 0 then InForce(b, maintenance) else InForce(a, maintenance)
  {
    hide LastAbout;
    LastInTwo(a, b, maintenance);
  }

  /** Whoever joined at any time and lost nothing since holds the notice in force. */
  lemma HeardIsInForce(history: seq<Announcement>, joined: nat, maintenance: bool)
    requires joined <= |history|
    ensures InForce(StandingAfter(history[..joined]) + history[joined..], maintenance) == InForce(history, maintenance)
  {
    hide InForce, StandingAfter, LastAbout;
    var before, since := history[..joined], history[joined..];
    assert history == before + since;
    ForceInTwo(before, since, maintenance);
    ForceInTwo(StandingAfter(before), since, maintenance);
    StandingSaysTheSame(before, maintenance);
  }

  /** What was offered to a stream and fitted its buffer, in order. */
  function Fitting(offered: seq<Announcement>, fitted: seq<bool>): seq<Announcement>
    requires |offered| == |fitted|
  {
    if offered == [] then []
    else
      Fitting(offered[..|offered| - 1], fitted[..|fitted| - 1])
      + if fitted[|fitted| - 1] then [offered[|offered| - 1]] else []
  }

  lemma {:induction false} AllFitting(offered: seq<Announcement>, fitted: seq<bool>)
    requires |offered| == |fitted| && forall i :: 0 <= i < |fitted| ==> fitted[i]
    ensures Fitting(offered, fitted) == offered
  {
    if offered == [] {
    } else {
      AllFitting(offered[..|offered| - 1], fitted[..|fitted| - 1]);
    }
  }

  /** A stream's past: what stood when it was opened, the publications offered to it since
      the given length of the history, which of them fitted, and what has been received. */
  datatype Story = Story(since: nat, offered: seq<Announcement>, fitted: seq<bool>, received: seq<Announcement>) {
    ghost predicate Sound(history: seq<Announcement>, buffer: seq<Announcement>) {
      && |offered| == |fitted| && since + |offered| <= |history|
      && offered == history[since..since + |offered|]
      && received + buffer == StandingAfter(history[..since]) + Fitting(offered, fitted)
    }

    /** What has been received and still waits is what stood, and then an in-order selection
        of what was said since. */
    ghost predicate HeardInOrder(history: seq<Announcement>, buffer: seq<Announcement>) {
      && since <= |history|
      && exists at, later ::
        received + buffer == StandingAfter(history[..since]) + later && InOrderIn(at, history[since..], later)
    }
  }

  /** A buffered channel. */
  class Stream {
    const capacity: nat
    ghost const number: nat
    var buffer: seq<Announcement>
    var closed: bool
    ghost var story: Story

    constructor (capacity: nat, ghost number: nat, ghost since: nat)
      ensures this.capacity == capacity && this.number == number && buffer == [] && !closed
        && story == Story(since, [], [], [])
    {
      this.capacity, this.number := capacity, number;
      buffer, closed := [], false;
      story := Story(since, [], [], []);
    }

    /** A send that would wait if the buffer were full. */
    method Send(a: Announcement)
      requires !closed && |buffer| < capacity
      modifies this`buffer
      ensures buffer == old(buffer) + [a]
    {
      buffer := buffer + [a];
    }

    /** A send that is dropped where the buffer is full. */
    method Offer(a: Announcement)
      requires !closed
      modifies this
      ensures closed == old(closed)
      ensures buffer == if |old(buffer)| < capacity then old(buffer) + [a] else old(buffer)
      ensures story == old(story).(offered := old(story).offered + [a],
        fitted := old(story).fitted + [|old(buffer)| < capacity])
    {
      story := story.(offered := story.offered + [a], fitted := story.fitted + [|buffer| < capacity]);
      if |buffer| < capacity {
        buffer := buffer + [a];
      }
    }

    /** What waits first, if anything does. */
    method Receive() returns (a: Option<Announcement>)
      modifies this
      ensures closed == old(closed)
      ensures a == if old(buffer) == [] then None else Some(old(buffer)[0])
      ensures buffer == if old(buffer) == [] then [] else old(buffer)[1..]
      ensures story == old(story).(received := old(story).received + AsSeq(a))
    {
      if buffer == [] {
        assert story.received + [] == story.received;
        return None;
      }
      a := Some(buffer[0]);
      story := story.(received := story.received + [buffer[0]]);
      buffer := buffer[1..];
    }

    method Close()
      requires !closed
      modifies this`closed
      ensures closed
    {
      closed := true;
    }
  }

  // ----- the hub -----

  class Hub {
    var subscribers: map<nat, Stream>
    var next: nat
    var closed: bool
    var standing: seq<Announcement>
    ghost var history: seq<Announcement>
    ghost var streams: set<Stream>

    ghost predicate Subscribed(s: Stream)
      reads this
    {
      s.number in subscribers && subscribers[s.number] == s
    }

    /** A stream ever opened has heard what stood when it was and then, in order, what fitted
        of what came since, up to now while it is open, which is while it is subscribed. */
    ghost predicate InTouch(s: Stream)
      reads this, s
    {
      && s.story.Sound(history, s.buffer)
      && s.capacity == STREAM_BUFFER && s.number <= next
      && (if Subscribed(s) then !s.closed && s.story.since + |s.story.offered| == |history| else s.closed)
    }

    ghost predicate Valid()
      reads this, streams
    {
      && standing == StandingAfter(history)
      && (closed ==> subscribers == map[])
      && (forall id :: id in subscribers ==> subscribers[id] in streams && subscribers[id].number == id)
      && forall s :: s in streams ==> InTouch(s)
    }

    constructor ()
      ensures Valid() && history == [] && streams == {} && subscribers == map[] && !closed
    {
      subscribers, next, closed, standing := map[], 0, false, [];
      history, streams := [], {};
    }

    /** Opens a stream with what stands in its buffer, or one already closed where the hub
        is; the returned closer closes it by its number, which no stream before it had. */
    method Subscribe() returns (stream: Stream, number: Option<nat>)
      requires Valid()
      modifies this
      ensures Valid() && fresh(stream)
      ensures history == old(history) && standing == old(standing) && closed == old(closed)
      ensures closed ==> stream.closed && stream.buffer == [] && number == None
                         && subscribers == old(subscribers) && streams == old(streams)
      ensures !closed ==> !stream.closed && stream.buffer == standing && stream.story == Story(|history|, [], [], [])
                          && number.Some? && number.value !in old(subscribers)
                          && subscribers == old(subscribers)[number.value := stream]
                          && streams == old(streams) + {stream}
                          && stream.number == number.value && forall s :: s in old(streams) ==> s.number != number.value
    {
      hide Story.Sound, StandingAfter;
      if closed {
        stream := new Stream(0, 0, |history|);
        stream.Close();
        return stream, None;
      }
      next := next + 1;
      stream := new Stream(STREAM_BUFFER, next, |history|);
      // No send can wait here: what stands is at most two, and the buffer is empty.
      for i := 0 to |standing|
        invariant stream.buffer == standing[..i]
        modifies stream`buffer
      {
        stream.Send(standing[i]);
      }
      JoiningIsSound(history);
      assert stream.buffer == standing == StandingAfter(history);
      subscribers := subscribers[next := stream];
      streams := streams + {stream};
      number := Some(next);
    }

    /** Says something to every stream that is open, dropping it for one whose buffer is
        full, and remembers what is still worth saying. */
    method Publish(kind: Kind, version: string, at: int)
      requires Valid()
      modifies this, subscribers.Values
      ensures Valid()
      ensures history == old(history) + [Announcement(kind, version, at)]
      ensures subscribers == old(subscribers) && closed == old(closed) && streams == old(streams)
      ensures forall s :: s in subscribers.Values ==>
                s.buffer ==
                old(s.buffer) + if |old(s.buffer)| < s.capacity then [Announcement(kind, version, at)] else []
      ensures forall s :: s in streams ==> s.closed == old(s.closed) && s.story.since == old(s.story.since)
                                           && s.story.received == old(s.story.received)
      ensures forall s :: s in streams && s !in subscribers.Values
                          ==> s.buffer == old(s.buffer) && s.story == old(s.story)
    {
      hide Story.Sound, StandingAfter, Without, Fitting;
      var announcement := Announcement(kind, version, at);
      standing := Without(standing, kind == Maintenance);
      if kind != Cancelled {
        standing := standing + [announcement];
      }
      PublishingStands(history, announcement);
      history := history + [announcement];
      var open := subscribers;
      OfferToAll(open, announcement);
      forall s | s in streams ensures InTouch(s) {
        assert old(InTouch(s));
        if Subscribed(s) {
          assert s.number in open;
          assert Offered(old(open[s.number].buffer), old(open[s.number].story), announcement, open[s.number]);
          OfferedIsSound(old(s.story), old(history), old(s.buffer), announcement, |old(s.buffer)| < s.capacity,
                         s.buffer, s.story);
        } else {
          assert s !in open.Values;
          SoundGrows(s.story, old(history), s.buffer, announcement);
        }
      }
    }

    /** What a returned closer does: it closes the stream of its number and no other, once. */
    method Unsubscribe(number: Option<nat>)
      requires Valid()
      modifies this, subscribers.Values
      ensures Valid() && history == old(history) && closed == old(closed) && streams == old(streams)
      ensures number.None? || number.value !in old(subscribers) ==> subscribers == old(subscribers)
      ensures number.Some? ==> subscribers == old(subscribers) - {number.value}
      ensures forall s :: s in streams ==> s.closed == (old(s.closed) || number == Some(s.number))
      ensures forall s :: s in streams ==> s.buffer == old(s.buffer) && s.story == old(s.story)
    {
      hide Story.Sound, StandingAfter;
      if number.Some? && number.value in subscribers {
        var existing := subscribers[number.value];
        subscribers := subscribers - {number.value};
        existing.Close();
      }
    }

    /** Closes every open stream; whoever subscribes afterwards is given a closed one. */
    method Close()
      requires Valid()
      modifies this, subscribers.Values
      ensures Valid() && closed && subscribers == map[]
      ensures history == old(history) && streams == old(streams)
      ensures forall s :: s in streams ==> s.closed && s.buffer == old(s.buffer) && s.story == old(s.story)
    {
      hide Story.Sound, StandingAfter;
      if closed {
        return;
      }
      closed := true;
      CloseAll(subscribers);
      subscribers := map[];
    }

    /** The notice of an update that is in force, if one is. */
    method Last() returns (said: Option<Announcement>)
      requires Valid()
      ensures said == InForce(history, false)
    {
      StandingSaysTheSame(history, false);
      for i := 0 to |standing|
        invariant forall j :: 0 <= j < i ==> standing[j].kind == Maintenance
      {
        if standing[i].kind != Maintenance {
          StandingHoldsOne(history, i);
          return Some(standing[i]);
        }
      }
      return None;
    }

    /** A subscriber reading its stream leaves the hub as it is. */
    method Receive(stream: Stream) returns (a: Option<Announcement>)
      requires Valid() && stream in streams
      modifies stream
      ensures Valid()
      ensures a == if old(stream.buffer) == [] then None else Some(old(stream.buffer)[0])
      ensures stream.story == old(stream.story).(received := old(stream.story.received) + AsSeq(a))
      ensures stream.closed == old(stream.closed)
    {
      hide Story.Sound, StandingAfter;
      assert InTouch(stream);
      ReceivingIsSound(stream.story, history, stream.buffer);
      a := stream.Receive();
    }

    /** What any stream has received and still holds is what stood when it was opened and
        then, in order, what fitted of what was said while it was open; all of that where
        nothing was ever dropped. An open stream has been offered everything said since. */
    lemma Hears(s: Stream)
      requires Valid() && s in streams
      ensures s.story.HeardInOrder(history, s.buffer)
      ensures s.story.since + |s.story.offered| <= |history|
      ensures (forall i :: 0 <= i < |s.story.fitted| ==> s.story.fitted[i]) ==>
                s.story.received + s.buffer
                == StandingAfter(history[..s.story.since]) + history[s.story.since..s.story.since + |s.story.offered|]
      ensures !s.closed ==> s.story.since + |s.story.offered| == |history|
    {
      hide StandingAfter, Fitting, InOrderIn;
      assert InTouch(s) && s.story.Sound(history, s.buffer);
      hide Valid;
      HeardSoFar(s.story, history, s.buffer);
      if forall i :: 0 <= i < |s.story.fitted| ==> s.story.fitted[i] {
        HeardAll(s.story, history, s.buffer);
      }
    }
  }

  lemma HeardSoFar(story: Story, history: seq<Announcement>, buffer: seq<Announcement>)
    requires story.Sound(history, buffer)
    ensures story.HeardInOrder(history, buffer)
  {
    hide StandingAfter;
    var later := Fitting(story.offered, story.fitted);
    var at := FittingInOrder(story.offered, story.fitted);
    assert InOrderIn(at, history[story.since..], later);
  }

  lemma HeardAll(story: Story, history: seq<Announcement>, buffer: seq<Announcement>)
    requires story.Sound(history, buffer) && forall i :: 0 <= i < |story.fitted| ==> story.fitted[i]
    ensures story.received + buffer
            == StandingAfter(history[..story.since]) + history[story.since..story.since + |story.offered|]
  {
    hide StandingAfter;
    AllFitting(story.offered, story.fitted);
  }

  /** The places of a list's elements in another, in the same order. */
  ghost predicate InOrderIn(at: seq<nat>, whole: seq<Announcement>, some: seq<Announcement>) {
    && |at| == |some|
    && (forall i :: 0 <= i < |at| ==> at[i] < |whole| && whole[at[i]] == some[i])
    && forall i, j :: 0 <= i < j < |at| ==> at[i] < at[j]
  }

  lemma {:induction false} FittingInOrder(offered: seq<Announcement>, fitted: seq<bool>) returns (at: seq<nat>)
    requires |offered| == |fitted|
    ensures InOrderIn(at, offered, Fitting(offered, fitted))
  {
    hide InOrderIn;
    if offered == [] {
      at := [];
      NothingInOrder(offered);
    } else {
      var n := |offered| - 1;
      at := FittingInOrder(offered[..n], fitted[..n]);
      InOrderGrows(at, offered[..n], Fitting(offered[..n], fitted[..n]), offered[n]);
      assert offered == offered[..n] + [offered[n]];
      if fitted[n] {
        at := at + [n];
      }
    }
  }

  lemma NothingInOrder(whole: seq<Announcement>)
    ensures InOrderIn([], whole, [])
  {
  }

  lemma InOrderGrows(at: seq<nat>, whole: seq<Announcement>, some: seq<Announcement>, a: Announcement)
    requires InOrderIn(at, whole, some)
    ensures InOrderIn(at, whole + [a], some + []) && InOrderIn(at + [|whole|], whole + [a], some + [a])
  {
    assert some + [] == some;
  }

  method OfferToAll(open: map<nat, Stream>, a: Announcement)
    requires forall id :: id in open ==> open[id].number == id && !open[id].closed
    modifies open.Values
    ensures forall id :: id in open ==> Offered(old(open[id].buffer), old(open[id].story), a, open[id])
  {
    var ids := open.Keys;
    while ids != {}
      invariant ids <= open.Keys
      invariant forall id :: id in ids ==> Untouched(old(open[id].buffer), old(open[id].story), open[id])
      invariant forall id :: id in open && id !in ids
                             ==> Offered(old(open[id].buffer), old(open[id].story), a, open[id])
      decreases |ids|
    {
      var id :| id in ids;
      ids := ids - {id};
      open[id].Offer(a);
    }
  }

  method CloseAll(open: map<nat, Stream>)
    requires forall id :: id in open ==> open[id].number == id && !open[id].closed
    modifies open.Values
    ensures forall id :: id in open ==> open[id].closed
    ensures forall id :: id in open ==>
              open[id].buffer == old(open[id].buffer) && open[id].story == old(open[id].story)
  {
    var ids := open.Keys;
    while ids != {}
      invariant ids <= open.Keys
      invariant forall id :: id in open ==> open[id].closed == (id !in ids)
      invariant forall id :: id in open
                             ==> open[id].buffer == old(open[id].buffer) && open[id].story == old(open[id].story)
      decreases |ids|
    {
      var id :| id in ids;
      ids := ids - {id};
      open[id].Close();
    }
  }

  ghost predicate Untouched(buffer: seq<Announcement>, story: Story, s: Stream)
    reads s
  {
    s.buffer == buffer && s.story == story && !s.closed
  }

  ghost predicate Offered(buffer: seq<Announcement>, story: Story, a: Announcement, s: Stream)
    reads s
  {
    && !s.closed
    && s.buffer == (if |buffer| < s.capacity then buffer + [a] else buffer)
    && s.story == story.(offered := story.offered + [a], fitted := story.fitted + [|buffer| < s.capacity])
  }

  lemma JoiningIsSound(history: seq<Announcement>)
    ensures Story(|history|, [], [], []).Sound(history, StandingAfter(history))
  {
    assert history[..|history|] == history && history[|history|..] == [];
  }

  lemma ReceivingIsSound(story: Story, history: seq<Announcement>, buffer: seq<Announcement>)
    requires story.Sound(history, buffer)
    ensures buffer != [] ==> story.(received := story.received + [buffer[0]]).Sound(history, buffer[1..])
    ensures buffer == [] ==> story.(received := story.received + []).Sound(history, [])
  {
    if buffer != [] {
      assert story.received + [buffer[0]] + buffer[1..] == story.received + buffer;
    }
  }

  lemma SoundGrows(story: Story, history: seq<Announcement>, buffer: seq<Announcement>, a: Announcement)
    requires story.Sound(history, buffer)
    ensures story.Sound(history + [a], buffer)
  {
    assert (history + [a])[..story.since] == history[..story.since];
  }

  lemma OfferedIsSound(was: Story, history: seq<Announcement>, buffer: seq<Announcement>, a: Announcement, fits: bool,
                       after: seq<Announcement>, story: Story)
    requires was.Sound(history, buffer) && was.since + |was.offered| == |history|
    requires after == if fits then buffer + [a] else buffer
    requires story == was.(offered := was.offered + [a], fitted := was.fitted + [fits])
    ensures story.Sound(history + [a], after)
  {
    assert (history + [a])[..was.since] == history[..was.since];
    assert story.offered[..|story.offered| - 1] == was.offered && story.fitted[..|story.fitted| - 1] == was.fitted;
    assert Fitting(story.offered, story.fitted) == Fitting(was.offered, was.fitted) + if fits then [a] else [];
    assert fits ==> was.received + (buffer + [a]) == was.received + buffer + [a];
  }

  lemma StandingHoldsOne(history: seq<Announcement>, i: nat)
    requires i < |StandingAfter(history)| && StandingAfter(history)[i].kind != Maintenance
    ensures InForce(history, false) == Some(StandingAfter(history)[i])
  {
  }
}
