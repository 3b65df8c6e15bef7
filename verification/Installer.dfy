/** The installer's handover: any number of save requests at once, one mutex, one file and
    one channel, and the process that goes on with what it is handed. */
module Installer {
  import opened Options
  import opened Datasources

  // ----- the requests -----

  /** Where a save request is. Of what it carries the form that will be stored. */
  datatype Phase =
    | Accepted(ds: Datasource)
    | Probed(ds: Datasource)
    | Holding(ds: Datasource)
    | Writing(ds: Datasource)
    | Wrote(ds: Datasource, ok: bool)
    | Sending(ds: Datasource)
    | Delivered(ds: Datasource)
    | Refused

  datatype Serving = Waiting | Handed(ds: Datasource) | Stopped

  datatype State = State(
    requests: map<nat, Phase>, holder: Option<nat>, saved: bool, file: Option<Datasource>, done: seq<Datasource>,
      serving: Serving)

  const DONE_CAPACITY := 1

  datatype Action =
    | Arrive(id: nat, ds: Datasource)
    | Probe(id: nat, works: bool)
    | Lock(id: nat)
    | Check(id: nat)
    | Write(id: nat, failing: Option<SaveStep>)
    | Settle(id: nat)
    | Send(id: nat)
    | Receive
    | Stop

  function Initial(file: Option<Datasource>): State {
    State(map[], None, false, file, [], Waiting)
  }

  /** A step is possible where its request is at it; the lock can be had while nobody holds
      it, and the channel takes what it has room for. */
  predicate Enabled(s: State, a: Action) {
    match a
    case Arrive(id, ds) => id !in s.requests
    case Probe(id, works) => id in s.requests && s.requests[id].Accepted?
    case Lock(id) => id in s.requests && s.requests[id].Probed? && s.holder.None?
    case Check(id) => id in s.requests && s.requests[id].Holding?
    case Write(id, failing) => id in s.requests && s.requests[id].Writing?
    case Settle(id) => id in s.requests && s.requests[id].Wrote?
    case Send(id) => id in s.requests && s.requests[id].Sending? && |s.done| < DONE_CAPACITY
    case Receive => s.serving.Waiting? && s.done != []
    case Stop => s.serving.Waiting?
  }

  function At(s: State, id: nat, phase: Phase): State {
    s.(requests := s.requests[id := phase])
  }

  function Apply(s: State, a: Action): State
    requires Enabled(s, a)
  {
    match a
    case Arrive(id, ds) => At(s, id, if Usable(ds) then Accepted(AsStored(ds)) else Refused)
    case Probe(id, works) => At(s, id, if works then Probed(s.requests[id].ds) else Refused)
    case Lock(id) => At(s, id, Holding(s.requests[id].ds)).(holder := Some(id))
    case Check(id) =>
      if s.saved then At(s, id, Refused).(holder := None) else At(s, id, Writing(s.requests[id].ds))
    case Write(id, failing) =>
      var (file, ok) := Saved(s.file, s.requests[id].ds, failing);
      At(s, id, Wrote(s.requests[id].ds, ok)).(file := file)
    case Settle(id) =>
      var phase := s.requests[id];
      At(s, id, if phase.ok then Sending(phase.ds) else Refused).(saved := phase.ok, holder := None)
    case Send(id) => At(s, id, Delivered(s.requests[id].ds)).(done := s.done + [s.requests[id].ds])
    case Receive => s.(done := s.done[1..], serving := Handed(s.done[0]))
    case Stop => s.(serving := Stopped)
  }

  function Step(s: State, a: Action): State {
    if Enabled(s, a) then Apply(s, a) else s
  }

  function Run(s: State, actions: seq<Action>): State {
    if actions == [] then s else Step(Run(s, actions[..|actions| - 1]), actions[|actions| - 1])
  }

  // ----- what every step keeps -----

  predicate Holds(p: Phase) {
    p.Holding? || p.Writing? || p.Wrote?
  }

  /** Past the decision: the file holds this request's connection. */
  predicate Won(p: Phase) {
    (p.Wrote? && p.ok) || p.Sending? || p.Delivered?
  }

  /** What the state is while a request has won: the file holds its connection, and of the
      channel and the wait one holds it exactly when it has been sent. */
  ghost predicate Agrees(s: State, p: Phase)
    requires Won(p)
  {
    && s.file == Some(p.ds)
    && (p.Wrote? ==> !s.saved && s.done == [] && !s.serving.Handed?)
    && (p.Sending? ==> s.saved && s.done == [] && !s.serving.Handed?)
    && (p.Delivered? ==>
          s.saved
          && if s.serving.Handed? then s.serving == Handed(p.ds) && s.done == [] else s.done == [p.ds])
  }

  ghost predicate Sound(s: State) {
    && (forall id :: id in s.requests && Holds(s.requests[id]) ==> s.holder == Some(id))
    && (forall id :: id in s.requests && !s.requests[id].Refused? ==>
                       Usable(s.requests[id].ds) && AsStored(s.requests[id].ds) == s.requests[id].ds)
    && (forall id :: id in s.requests && s.requests[id].Writing? ==> !s.saved)
    && (forall id :: id in s.requests && s.requests[id].Wrote? ==> !s.saved)
    && (forall a, b :: a in s.requests && b in s.requests && Won(s.requests[a]) && Won(s.requests[b]) ==> a == b)
    && (forall id :: id in s.requests && Won(s.requests[id]) ==> Agrees(s, s.requests[id]))
    && (NoneWon(s) ==> !s.saved && s.done == [] && !s.serving.Handed?)
  }

  ghost predicate NoneWon(s: State) {
    forall id :: id in s.requests ==> !Won(s.requests[id])
  }

  /** While a request still writes, nobody has won. */
  lemma NoneWonBefore(s: State, id: nat)
    requires Sound(s) && id in s.requests && (s.requests[id].Writing? || (s.requests[id].Wrote? && !s.requests[id].ok))
    ensures NoneWon(s)
  {
    forall other | other in s.requests && Won(s.requests[other]) ensures s.requests[other].Wrote? && other == id {
      assert Agrees(s, s.requests[other]);
    }
  }

  lemma DecisionKeepsSound(s: State, a: Action)
    requires Sound(s) && Enabled(s, a) && (a.Write? || a.Settle?)
    ensures Sound(Apply(s, a))
  {
    var after := Apply(s, a);
    var p := s.requests[a.id];
    if p.Writing? || !p.ok {
      NoneWonBefore(s, a.id);
    } else {
      assert Agrees(s, p);
    }
    forall id | id in after.requests && Won(after.requests[id])
      ensures id == a.id && Agrees(after, after.requests[id])
    {
      StoredOnce(p.ds);
    }
  }

  lemma DeliveryKeepsSound(s: State, a: Action)
    requires Sound(s) && Enabled(s, a) && (a.Send? || a.Receive? || a.Stop?)
    ensures Sound(Apply(s, a))
  {
    hide Lower, Usable, AsStored;
    var after := Apply(s, a);
    assert after.requests.Keys == s.requests.Keys;
    assert forall id :: id in after.requests ==> Won(after.requests[id]) == Won(s.requests[id]);
    assert NoneWon(after) ==> NoneWon(s);
    forall id | id in after.requests && Won(after.requests[id]) ensures Agrees(after, after.requests[id]) {
      assert Won(s.requests[id]) && Agrees(s, s.requests[id]);
      if a.Send? {
        assert Won(s.requests[a.id]) && id == a.id;
      }
    }
  }

  /** A step that moves one request that has not won to another place short of winning. */
  lemma ShortOfWinning(s: State, after: State, id: nat)
    requires Sound(s) && (id in s.requests ==> !Won(s.requests[id]))
    requires id in after.requests && !Won(after.requests[id]) && after.requests == s.requests[id := after.requests[id]]
    requires after.file == s.file && after.saved == s.saved && after.done == s.done && after.serving == s.serving
    ensures forall a, b ::
              a in after.requests && b in after.requests && Won(after.requests[a]) && Won(after.requests[b]) ==> a == b
    ensures forall a :: a in after.requests && Won(after.requests[a]) ==> Agrees(after, after.requests[a])
    ensures NoneWon(after) ==> !after.saved && after.done == [] && !after.serving.Handed?
  {
    assert forall a :: a in after.requests && a != id ==> a in s.requests && after.requests[a] == s.requests[a];
    forall a | a in after.requests && Won(after.requests[a]) ensures Agrees(after, after.requests[a]) {
      assert Agrees(s, s.requests[a]);
    }
    if NoneWon(after) {
      forall a | a in s.requests ensures !Won(s.requests[a]) {
        assert a != id ==> !Won(after.requests[a]);
      }
    }
  }

  lemma ApproachKeepsSound(s: State, a: Action)
    requires Sound(s) && Enabled(s, a) && (a.Arrive? || a.Probe? || a.Lock? || a.Check?)
    ensures Sound(Apply(s, a))
  {
    hide Lower, Usable, AsStored, Agrees, NoneWon;
    if a.Arrive? {
      StoredOnce(a.ds);
    }
    ShortOfWinning(s, Apply(s, a), a.id);
  }

  lemma StepKeepsSound(s: State, a: Action)
    requires Sound(s)
    ensures Sound(Step(s, a))
  {
    hide Sound;
    if Enabled(s, a) {
      match a {
        case Write(_, _) => DecisionKeepsSound(s, a);
        case Settle(_) => DecisionKeepsSound(s, a);
        case Send(_) => DeliveryKeepsSound(s, a);
        case Receive => DeliveryKeepsSound(s, a);
        case Stop => DeliveryKeepsSound(s, a);
        case _ => ApproachKeepsSound(s, a);
      }
    }
  }

  lemma {:induction false} RunKeepsSound(s: State, actions: seq<Action>)
    requires Sound(s)
    ensures Sound(Run(s, actions))
  {
    if actions == [] {
    } else {
      RunKeepsSound(s, actions[..|actions| - 1]);
      StepKeepsSound(Run(s, actions[..|actions| - 1]), actions[|actions| - 1]);
    }
  }

  /** However many requests there are and however their steps interleave, at most one is
      past the handover, and when it comes to send there is room: the send never waits. */
  lemma OneHandover(file: Option<Datasource>, actions: seq<Action>, a: nat, b: nat)
    ensures var s := Run(Initial(file), actions);
            && (a in s.requests && b in s.requests && Won(s.requests[a]) && Won(s.requests[b]) ==> a == b)
            && (a in s.requests && s.requests[a].Sending? ==> Enabled(s, Send(a)))
            && |s.done| <= DONE_CAPACITY
  {
    RunKeepsSound(Initial(file), actions);
    var s := Run(Initial(file), actions);
    if id :| id in s.requests && Won(s.requests[id]) {
      assert Agrees(s, s.requests[id]);
    }
  }

  /** A write that fails leaves the file and the decision as they were, and the lock free. */
  lemma FailedWriteChangesNothing(s: State, id: nat, failing: SaveStep)
    requires Sound(s) && Enabled(s, Write(id, Some(failing)))
    ensures var after := Step(Step(s, Write(id, Some(failing))), Settle(id));
            && Sound(after) && after.file == s.file && !after.saved && after.done == s.done && after.holder == None
            && after.serving == s.serving && after.requests == s.requests[id := Refused]
  {
    StepKeepsSound(s, Write(id, Some(failing)));
    StepKeepsSound(Step(s, Write(id, Some(failing))), Settle(id));
  }

  lemma RunOfTwo(s: State, a: Action, b: Action)
    ensures Run(s, [a, b]) == Step(Step(s, a), b)
  {
    hide Step;
    assert [a, b][..1] == [a] && [a][..0] == [];
    assert Run(s, [a]) == Step(Run(s, []), a);
  }

  lemma GoesOnToWrite(s: State, id: nat)
    requires s.holder == None && !s.saved && id in s.requests && s.requests[id].Probed?
    ensures Run(s, [Lock(id), Check(id)]) == At(s, id, Writing(s.requests[id].ds)).(holder := Some(id))
  {
    RunOfTwo(s, Lock(id), Check(id));
    var locked := Step(s, Lock(id));
    assert locked.requests[id := Writing(s.requests[id].ds)] == s.requests[id := Writing(s.requests[id].ds)];
  }

  lemma GoesOnToSend(s: State, id: nat)
    requires id in s.requests && s.requests[id].Writing? && Usable(s.requests[id].ds)
      && AsStored(s.requests[id].ds) == s.requests[id].ds
    ensures var ds := s.requests[id].ds;
            Run(s, [Write(id, None), Settle(id)])
              == At(s, id, Sending(ds)).(file := Some(ds), saved := true, holder := None)
  {
    hide Usable, AsStored;
    RunOfTwo(s, Write(id, None), Settle(id));
    var ds := s.requests[id].ds;
    var wrote := Step(s, Write(id, None));
    assert wrote == At(s, id, Wrote(ds, true)).(file := Some(ds));
    assert wrote.requests[id := Sending(ds)] == s.requests[id := Sending(ds)];
  }

  lemma GoesOnToTheHandover(s: State, id: nat)
    requires id in s.requests && s.requests[id].Sending? && s.done == [] && s.serving.Waiting?
    ensures Run(s, [Send(id), Receive]).serving == Handed(s.requests[id].ds)
  {
    RunOfTwo(s, Send(id), Receive);
    assert Step(s, Send(id)).done == [s.requests[id].ds];
  }

  /** And while the installer still waits and nothing has been saved, any request that has been
      probed can go on to be the one that is handed over, and loaded. */
  lemma AnotherCanBeHanded(s: State, id: nat)
    requires Sound(s) && s.holder == None && !s.saved && s.done == [] && s.serving.Waiting?
    requires id in s.requests && s.requests[id].Probed?
    ensures var after := Run(s, [Lock(id), Check(id)] + [Write(id, None), Settle(id)] + [Send(id), Receive]);
            after.serving == Handed(s.requests[id].ds) && Loaded(after.file) == Some(s.requests[id].ds)
  {
    var ds := s.requests[id].ds;
    assert Usable(ds) && AsStored(ds) == ds;
    GoesOnToWrite(s, id);
    var writing := Run(s, [Lock(id), Check(id)]);
    GoesOnToSend(writing, id);
    RunInTwo(s, [Lock(id), Check(id)], [Write(id, None), Settle(id)]);
    var sending := Run(s, [Lock(id), Check(id)] + [Write(id, None), Settle(id)]);
    GoesOnToTheHandover(sending, id);
    RunInTwo(s, [Lock(id), Check(id)] + [Write(id, None), Settle(id)], [Send(id), Receive]);
    RunKeepsSound(s, [Lock(id), Check(id)] + [Write(id, None), Settle(id)] + [Send(id), Receive]);
    hide Run, Sound, Usable, AsStored;
    HandedLoads(Run(s, [Lock(id), Check(id)] + [Write(id, None), Settle(id)] + [Send(id), Receive]));
  }

  /** What the steps of a run say of a request: it arrived with a usable connection, of which it
      carries the form that is stored, and past its probe that connection has worked. */
  ghost predicate Accounted(actions: seq<Action>, id: nat, p: Phase)
    requires !p.Refused?
  {
    && (exists k, asked :: 0 <= k < |actions| && actions[k] == Arrive(id, asked) && Usable(asked)
                           && StoredFor(asked, p.ds))
    && (p.Accepted? || Probe(id, true) in actions)
  }

  lemma AccountedOn(actions: seq<Action>, a: Action, id: nat, before: Phase, after: Phase)
    requires !before.Refused? && !after.Refused? && Accounted(actions, id, before) && after.ds == before.ds
    requires before.Accepted? && !after.Accepted? ==> a == Probe(id, true)
    requires !before.Accepted? ==> !after.Accepted?
    ensures Accounted(actions + [a], id, after)
  {
    hide Usable, StoredFor;
    var k, asked :| 0 <= k < |actions| && actions[k] == Arrive(id, asked) && Usable(asked)
                    && StoredFor(asked, before.ds);
    assert (actions + [a])[k] == Arrive(id, asked);
  }

  lemma {:induction false} RequestsAreAccounted(file: Option<Datasource>, actions: seq<Action>, id: nat)
    ensures var s := Run(Initial(file), actions);
            id in s.requests && !s.requests[id].Refused? ==> Accounted(actions, id, s.requests[id])
  {
    hide Accounted, Usable, AsStored, Saved, StoredFor;
    if actions == [] {
    } else {
      var init, a := actions[..|actions| - 1], actions[|actions| - 1];
      var before := Run(Initial(file), init);
      RequestsAreAccounted(file, init, id);
      assert actions == init + [a];
      RequestStep(init, before, a, id);
    }
  }

  lemma RequestStep(actions: seq<Action>, s: State, a: Action, id: nat)
    requires id in s.requests && !s.requests[id].Refused? ==> Accounted(actions, id, s.requests[id])
    ensures var after := Step(s, a);
            id in after.requests && !after.requests[id].Refused? ==> Accounted(actions + [a], id, after.requests[id])
  {
    hide Accounted, Usable, AsStored, Saved, StoredFor;
    var after := Step(s, a);
    if id in after.requests && !after.requests[id].Refused? {
      if id in s.requests {
        AccountedOn(actions, a, id, s.requests[id], after.requests[id]);
      } else {
        ArrivalIsAccounted(actions, a.ds, id);
      }
    }
  }

  lemma ArrivalIsAccounted(actions: seq<Action>, asked: Datasource, id: nat)
    requires Usable(asked)
    ensures Accounted(actions + [Arrive(id, asked)], id, Accepted(AsStored(asked)))
  {
    StoredAsAsked(asked, AsStored(asked));
    hide Usable, AsStored, StoredFor;
    assert (actions + [Arrive(id, asked)])[|actions|] == Arrive(id, asked);
  }

  /** When the installer returns without an error, some request asked for the connection it returns
      and its probe worked. */
  lemma HandedWasAskedFor(file: Option<Datasource>, actions: seq<Action>) returns (id: nat, asked: Datasource)
    requires Run(Initial(file), actions).serving.Handed?
    ensures Arrive(id, asked) in actions && Probe(id, true) in actions
    ensures Usable(asked) && StoredFor(asked, Run(Initial(file), actions).serving.ds)
  {
    RunKeepsSound(Initial(file), actions);
    var s := Run(Initial(file), actions);
    id :| id in s.requests && Won(s.requests[id]);
    assert Agrees(s, s.requests[id]);
    RequestsAreAccounted(file, actions, id);
    hide Run, Sound, Usable, StoredFor;
    var k, a :| 0 <= k < |actions| && actions[k] == Arrive(id, a) && Usable(a) && StoredFor(a, s.requests[id].ds);
    asked := a;
  }

  /** A usable connection that arrives while the installer waits and nothing has been saved, and
      whose probe works, can go on to be handed over. */
  lemma ArrivalCanBeHanded(s: State, id: nat, asked: Datasource) returns (on: seq<Action>)
    requires Sound(s) && s.holder == None && !s.saved && s.done == [] && s.serving.Waiting?
    requires id !in s.requests && Usable(asked)
    ensures Run(s, on).serving.Handed? && StoredFor(asked, Run(s, on).serving.ds)
    ensures Loaded(Run(s, on).file) == Some(Run(s, on).serving.ds)
  {
    var first := [Arrive(id, asked), Probe(id, true)];
    var rest := [Lock(id), Check(id)] + [Write(id, None), Settle(id)] + [Send(id), Receive];
    RunOfTwo(s, Arrive(id, asked), Probe(id, true));
    RunKeepsSound(s, first);
    StoredAsAsked(asked, AsStored(asked));
    hide Sound, Usable, AsStored, StoredFor;
    AnotherCanBeHanded(Run(s, first), id);
    RunInTwo(s, first, rest);
    on := first + rest;
  }

  /** When the installer returns without an error, the connection it returns is exactly what
      the next start loads, at that moment and after whatever else the requests still do. */
  lemma HandedIsLoaded(file: Option<Datasource>, actions: seq<Action>, later: seq<Action>)
    requires Run(Initial(file), actions).serving.Handed?
    ensures var ds := Run(Initial(file), actions).serving.ds;
            && Loaded(Run(Initial(file), actions).file) == Some(ds)
            && Run(Initial(file), actions + later).serving == Handed(ds)
            && Loaded(Run(Initial(file), actions + later).file) == Some(ds)
  {
    RunKeepsSound(Initial(file), actions);
    var s := Run(Initial(file), actions);
    RunInTwo(Initial(file), actions, later);
    HandedLoads(s);
    HandedStays(s, later);
    RunKeepsSound(s, later);
    HandedLoads(Run(s, later));
  }

  lemma HandedLoads(s: State)
    requires Sound(s) && s.serving.Handed?
    ensures Loaded(s.file) == Some(s.serving.ds)
  {
    var id :| id in s.requests && Won(s.requests[id]);
    assert Agrees(s, s.requests[id]);
    assert Lower("") == "";
  }

  lemma {:induction false} HandedStays(s: State, later: seq<Action>)
    requires s.serving.Handed?
    ensures Run(s, later).serving == s.serving
  {
    if later == [] {
    } else {
      HandedStays(s, later[..|later| - 1]);
    }
  }

  lemma {:induction false} RunInTwo(s: State, a: seq<Action>, b: seq<Action>)
    ensures Run(s, a + b) == Run(Run(s, a), b)
  {
    if b == [] {
      assert a + b == a;
    } else {
      assert (a + b)[..|a + b| - 1] == a + b[..|b| - 1];
      RunInTwo(s, a, b[..|b| - 1]);
    }
  }
}
