/**
 What the user of the ICE agent sees of its connection states: the changes wait in the queue of events until they are
 polled, and a restart empties the queue.
 */
module IceAnnouncements {
  import opened Bytes
  import opened Stun
  import opened IcePair
  import opened IceCandidate
  import opened IceAgentSpec
  import opened IceAgentOps
  import opened IceAgentRuns

  /** The connection states among events. */
  function StatesOf(events: seq<Event>): seq<ConnState> {
    if events == [] then []
    else (if events[0].StateChange? then [events[0].state] else []) + StatesOf(events[1..])
  }

  lemma StatesOfCons(e: Event, rest: seq<Event>)
    ensures StatesOf([e] + rest) == (if e.StateChange? then [e.state] else []) + StatesOf(rest)
  {
    assert ([e] + rest)[1..] == rest;
  }

  lemma {:induction false} StatesOfConcat(a: seq<Event>, b: seq<Event>)
    ensures StatesOf(a + b) == StatesOf(a) + StatesOf(b)
  {
    hide StatesOf;
    if |a| == 0 {
      assert StatesOf(a) == [] by {
        NoStates(a);
      }
      assert a + b == b;
      assert [] + StatesOf(b) == StatesOf(b);
      return;
    }
    var rest := a[1..];
    assert a == [a[0]] + rest;
    StatesOfCons(a[0], rest);
    StatesOfCons(a[0], rest + b);
    assert a + b == [a[0]] + (rest + b);
    StatesOfConcat(rest, b);
    var first := if a[0].StateChange? then [a[0].state] else [];
    assert first + (StatesOf(rest) + StatesOf(b)) == first + StatesOf(rest) + StatesOf(b);
  }

  lemma NoStates(events: seq<Event>)
    requires |events| == 0
    ensures StatesOf(events) == []
  {
  }

  lemma StatesOfOneMore(events: seq<Event>, e: Event)
    ensures StatesOf(events + [e]) == StatesOf(events) + if e.StateChange? then [e.state] else []
  {
    StatesOfConcat(events, [e]);
    assert [e][1..] == [];
  }

  /** The states announced between two agents are those that were put into the queue. */
  ghost predicate Announces(a: Agent, b: Agent) {
    exists states :: b.stateLog == a.stateLog + states && StatesOf(b.events) == StatesOf(a.events) + states
  }

  lemma SameAnnounces(a: Agent, b: Agent)
    requires b.events == a.events && b.stateLog == a.stateLog
    ensures Announces(a, b)
  {
    assert b.stateLog == a.stateLog + [] && StatesOf(b.events) == StatesOf(a.events) + [];
  }

  lemma AnnouncesChain(a: Agent, b: Agent, c: Agent)
    requires Announces(a, b) && Announces(b, c)
    ensures Announces(a, c)
  {
    hide StatesOf;
    var first :| b.stateLog == a.stateLog + first && StatesOf(b.events) == StatesOf(a.events) + first;
    var second :| c.stateLog == b.stateLog + second && StatesOf(c.events) == StatesOf(b.events) + second;
    assert c.stateLog == a.stateLog + (first + second);
    assert StatesOf(c.events) == StatesOf(a.events) + (first + second);
  }

  lemma EmitAnnounces(a: Agent, e: Event)
    requires !e.StateChange?
    ensures Announces(a, EmitEvent(a, e))
  {
    StatesOfOneMore(a.events, e);
    hide StatesOf;
    var b := EmitEvent(a, e);
    assert b.stateLog == a.stateLog + [] && StatesOf(b.events) == StatesOf(a.events) + [];
  }

  lemma SetStateAnnounces(a: Agent, s: ConnState)
    ensures Announces(a, SetConnectionState(a, s))
  {
    StatesOfOneMore(a.events, StateChange(s));
    SameAnnounces(a, a);
    hide StatesOf;
    var b := SetConnectionState(a, s);
    if s != a.state {
      assert b.stateLog == a.stateLog + [s] && StatesOf(b.events) == StatesOf(a.events) + [s];
    }
  }

  lemma EvaluateStateAnnounces(a: Agent, now: int)
    ensures Announces(a, EvaluateState(a, now))
  {
    SetStateAnnounces(a, Checking);
    SetStateAnnounces(a, Connected);
    SetStateAnnounces(a, Completed);
    SetStateAnnounces(a, Disconnected);
    SameAnnounces(a, a);
    hide SetConnectionState, Announces, AnyNominated, AnyStillPossible;
  }

  lemma NominationAnnounces(a: Agent)
    requires AllWellFormed(a.pairs, a.local, a.remote)
    ensures Announces(a, EvaluateNomination(a))
  {
    hide Announces, StatesOf, FindId, EmitEvent;
    SameAnnounces(a, a);
    var b := EvaluateNomination(a);
    var best, current := BestPair(a.controlling, a.pairs), SendingPair(a);
    if best.Some? && !(current.Some? && a.pairs[current.value].prio == a.pairs[best.value].prio) {
      var p := a.pairs[best.value];
      var p' := if !p.IsNominated() && (a.controlling || a.iceLite) then p.Nominate(a.iceLite) else p;
      var a1 := a.(pairs := a.pairs[best.value := p'], nominatedSend := Some(p.id));
      SameAnnounces(a, a1);
      EmitAnnounces(a1, NominatedSend(a.local[p.localIdx].proto, a.local[p.localIdx].Base(), a.remote[p.remoteIdx].addr));
      AnnouncesChain(a, a1, b);
    }
  }

  lemma RequestAnnounces(a: Agent, req: StunRequest)
    requires Inv(a) && a.remoteCreds.Some?
    ensures Announces(a, HandleRequest(a, req))
  {
    hide Inv, FindPair, EvaluateNomination, FindDestination, Announces;
    SameAnnounces(a, a);
    if req.remoteUfrag == a.remoteCreds.value.ufrag && !(req.useCandidate && a.controlling) {
      var (a1, r) := WithSource(a, req);
      WithSourceKeepsInv(a, req);
      SameAnnounces(a, a1);
      var dest := FindDestination(a1.local, req.proto, req.destination);
      if dest.Some? && !(FindPair(a1.pairs, dest.value, r).None? && a1.local[dest.value].discarded) {
        FoundPairIsUsable(a1, dest.value, r);
        WithPairKeepsInv(a1, dest.value, r);
        var a2 := WithPair(a1, dest.value, r);
        SameAnnounces(a, a2);
        AnswerAnnounces(a2, dest.value, r, req);
        AnnouncesChain(a, a2, AnswerRequest(a2, dest.value, r, req));
      }
    }
  }

  lemma AnswerAnnounces(a: Agent, l: nat, r: nat, req: StunRequest)
    requires Inv(a) && FindPair(a.pairs, l, r).Some?
    ensures Announces(a, AnswerRequest(a, l, r, req))
  {
    hide Inv, FindPair, EvaluateNomination, Announces;
    FoundPair(a, l, r);
    var k := FindPair(a.pairs, l, r).value;
    var a1 := Counted(a, k, req);
    CountedKeepsInv(a, k, req);
    InvMeans(a1);
    SameAnnounces(a, a1);
    NominationAnnounces(a1);
    var a2 := if a.controlling && a1.pairs[k].state == Succeeded then EvaluateNomination(a1) else a1;
    SameAnnounces(a1, a1);
    SameAnnounces(a2, AnswerRequest(a, l, r, req));
    AnnouncesChain(a, a1, a2);
    AnnouncesChain(a, a2, AnswerRequest(a, l, r, req));
  }

  lemma ResponseAnnounces(a: Agent, now: int, transId: nat, mapped: Address)
    requires Inv(a)
    ensures Announces(a, HandleResponse(a, now, transId, mapped))
  {
    hide Inv, EvaluateNomination, EvaluateState, Announces;
    SameAnnounces(a, a);
    var k := FindAttempt(a.pairs, transId);
    if k.Some? {
      var a1 := Responded(a, now, transId, mapped, k.value);
      RespondedKeepsInv(a, now, transId, mapped, k.value);
      InvMeans(a1);
      SameAnnounces(a, a1);
      NominationAnnounces(a1);
      SameAnnounces(a1, a1);
      var a2 := if a1.controlling then EvaluateNomination(a1) else a1;
      EvaluateStateAnnounces(a2, now);
      AnnouncesChain(a, a1, a2);
      AnnouncesChain(a, a2, EvaluateState(a2, now));
    }
  }

  lemma PacketAnnounces(a: Agent, now: int, packet: Packet)
    requires Inv(a) && Parsed(packet.message)
    ensures Announces(a, HandlePacket(a, now, packet).0)
  {
    hide Inv, HandleRequest, HandleResponse, EmitEvent, Announces;
    SameAnnounces(a, a);
    var m := packet.message;
    if AcceptsMessage(a, m) {
      var a1 := a;
      if m.cls == Request {
        a1 := HandleMessage(a, now, packet);
        if a.remoteCreds.Some? {
          RequestAnnounces(a, StunRequest(now, packet.proto, packet.source, packet.destination, m.transId,
                                          m.prio.value, m.useCandidate, m.username.value.1));
        } else {
          SameAnnounces(a, a1);
        }
      } else if m.cls == Success {
        a1 := HandleResponse(a, now, m.transId, m.mapped.value);
        ResponseAnnounces(a, now, m.transId, m.mapped.value);
      }
      EmitAnnounces(a1, DiscoveredRecv(packet.proto, packet.source));
      AnnouncesChain(a, a1, EmitEvent(a1, DiscoveredRecv(packet.proto, packet.source)));
    }
  }

  lemma PruneAnnounces(a: Agent, now: int)
    requires Inv(a)
    ensures Announces(a, Prune(a, now))
  {
    hide Inv, EvaluateNomination, EvaluateState, Retain, Announces;
    InvMeans(a);
    NominationAnnounces(a);
    EvaluateNominationKeepsInv(a);
    var a1 := EvaluateNomination(a);
    RetainKeepsInv(a1, Keep(a.iceLite, now));
    var a2 := a1.(pairs := Retain(a1.pairs, Keep(a.iceLite, now)));
    InvMeans(a2);
    SameAnnounces(a1, a2);
    NominationAnnounces(a2);
    var a3 := EvaluateNomination(a2);
    EvaluateStateAnnounces(a3, now);
    AnnouncesChain(a, a1, a2);
    AnnouncesChain(a, a2, a3);
    AnnouncesChain(a, a3, EvaluateState(a3, now));
  }

  lemma AdvanceAnnounces(a: Agent, now: int)
    requires Inv(a)
    ensures Announces(a, Advance(a, now))
  {
    hide Inv, Prune, CountFromNow, NextPair, Scheduled, Announces;
    var a1 := a.(lastNow := Some(now));
    TimeKeepsInv(a, now);
    SameAnnounces(a, a1);
    PruneAnnounces(a1, now);
    PruneKeepsInv(a1, now);
    var a2 := Prune(a1, now);
    SameAnnounces(a2, Advance(a, now));
    AnnouncesChain(a, a1, a2);
    AnnouncesChain(a, a2, Advance(a, now));
  }

  lemma TimeoutAnnounces(a: Agent, now: int)
    requires Inv(a)
    ensures Announces(a, HandleTimeout(a, now))
  {
    hide Inv, EmitEvent, EvaluateState, DropOld, HandleRequest, Advance, Announces;
    var a0 := if a.state == New then EmitEvent(a, IceRestarted(a.localCreds)) else a;
    SameAnnounces(a, a);
    EmitAnnounces(a, IceRestarted(a.localCreds));
    EmitEventKeepsInv(a, IceRestarted(a.localCreds));
    EvaluateStateAnnounces(a0, now);
    EvaluateStateKeepsInv(a0, now);
    var a1 := EvaluateState(a0, now);
    AnnouncesChain(a, a0, a1);
    var queue := DropOld(a1.stunServerQueue, now);
    QueueKeepsInv(a1, if queue == [] then [] else queue[1..]);
    var a2 := if a1.remoteCreds.None? then a1 else a1.(stunServerQueue := if queue == [] then [] else queue[1..]);
    SameAnnounces(a1, a2);
    AnnouncesChain(a, a1, a2);
    if a1.remoteCreds.Some? && queue != [] {
      RequestAnnounces(a2, queue[0]);
    } else {
      AdvanceAnnounces(a2, now);
    }
    AnnouncesChain(a, a2, HandleTimeout(a, now));
  }

  // ---------- What the user sees ----------

  /** The state that an operation shows to the user: one is shown when its event is polled. */
  function SeenAt(a: Agent, op: Op): seq<ConnState> {
    if op.AskEvent? && a.events != [] && a.events[0].StateChange? then [a.events[0].state] else []
  }

  /** How many states an operation throws away before the user has seen them. */
  function LostAt(a: Agent, op: Op): nat {
    if op.Restart? then |StatesOf(a.events)| else 0
  }

  ghost function Seen(a: Agent, ops: seq<Op>): seq<ConnState>
    requires LegalRun(a, ops)
    decreases |ops|
  {
    if |ops| == 0 then [] else SeenAt(a, ops[0]) + Seen(Step(a, ops[0]), ops[1..])
  }

  /** No restart of a run happens while a change of state waits to be polled. */
  ghost predicate NothingLost(a: Agent, ops: seq<Op>)
    requires LegalRun(a, ops)
    decreases |ops|
  {
    |ops| == 0 || (LostAt(a, ops[0]) == 0 && NothingLost(Step(a, ops[0]), ops[1..]))
  }

  /** The states seen so far and those that wait are all that were announced. */
  predicate InSync(a: Agent, seen: seq<ConnState>) {
    a.stateLog == seen + StatesOf(a.events)
  }

  /** More states were announced than were seen and wait. */
  predicate Missed(a: Agent, seen: seq<ConnState>) {
    |a.stateLog| > |seen| + |StatesOf(a.events)|
  }

  lemma AnnouncingShows(a: Agent, b: Agent, seen: seq<ConnState>)
    requires Announces(a, b)
    ensures InSync(a, seen) ==> InSync(b, seen)
    ensures Missed(a, seen) ==> Missed(b, seen)
  {
    hide StatesOf;
    var states :| b.stateLog == a.stateLog + states && StatesOf(b.events) == StatesOf(a.events) + states;
    assert seen + StatesOf(a.events) + states == seen + (StatesOf(a.events) + states);
  }

  lemma RestartShows(a: Agent, creds: Creds, keepLocal: bool, seen: seq<ConnState>)
    ensures var b := IceRestart(a, creds, keepLocal);
            && (InSync(a, seen) && StatesOf(a.events) == [] ==> InSync(b, seen))
            && (InSync(a, seen) && StatesOf(a.events) != [] ==> Missed(b, seen))
            && (Missed(a, seen) ==> Missed(b, seen))
  {
    var b := IceRestart(a, creds, keepLocal);
    var first := IceRestarted(creds);
    StatesOfOneMore([], first);
    StatesOfOneMore([first], StateChange(Checking));
    assert [] + [first] == [first];
    assert StatesOf(b.events) == if a.state == Checking then [] else [Checking];
  }

  lemma PollShows(a: Agent, seen: seq<ConnState>)
    requires Inv(a)
    ensures var b := Step(a, AskEvent);
            var seen' := seen + SeenAt(a, AskEvent);
            && (InSync(a, seen) ==> InSync(b, seen'))
            && (Missed(a, seen) ==> Missed(b, seen'))
  {
    if a.events == [] {
      assert seen + [] == seen;
    } else {
      var rest := StatesOf(a.events[1..]);
      assert StatesOf(a.events) == SeenAt(a, AskEvent) + rest;
      assert seen + (SeenAt(a, AskEvent) + rest) == seen + SeenAt(a, AskEvent) + rest;
    }
  }

  /** Every operation but a restart and a poll only announces. */
  lemma OtherAnnounces(a: Agent, op: Op)
    requires Inv(a) && Legal(a, op) && !op.Restart? && !op.AskEvent?
    ensures Announces(a, Step(a, op))
  {
    match op
    case AddLocal(c) => AddLocalIsSilent(a, c);
    case AddRemote(c) => AddRemoteIsSilent(a, c);
    case Receive(now, packet) => PacketAnnounces(a, now, packet);
    case Timeout(now) => TimeoutAnnounces(a, now);
    case Restart(_, _) =>
    case AskEvent =>
    case _ => SameAnnounces(a, Step(a, op));
  }

  lemma AddLocalIsSilent(a: Agent, c: Candidate)
    requires Inv(a) && Legal(a, AddLocal(c))
    ensures Announces(a, AddLocalCandidate(a, c).0)
  {
    SameAnnounces(a, AddLocalCandidate(a, c).0);
  }

  lemma AddRemoteIsSilent(a: Agent, c: Candidate)
    requires Inv(a) && Legal(a, AddRemote(c))
    ensures Announces(a, AddRemoteCandidate(a, c))
  {
    SameAnnounces(a, AddRemoteCandidate(a, c));
  }

  lemma StepShows(a: Agent, op: Op, seen: seq<ConnState>)
    requires Inv(a) && Legal(a, op)
    ensures var b := Step(a, op);
            var seen' := seen + SeenAt(a, op);
            && (InSync(a, seen) && LostAt(a, op) == 0 ==> InSync(b, seen'))
            && (InSync(a, seen) && LostAt(a, op) > 0 ==> Missed(b, seen'))
            && (Missed(a, seen) ==> Missed(b, seen'))
  {
    if op.AskEvent? {
      hide Inv, StatesOf;
      PollShows(a, seen);
    } else {
      hide StatesOf, InSync, Missed, Inv, IceRestart, Announces;
      assert seen + [] == seen;
      if op.Restart? {
        RestartShows(a, op.creds, op.keepLocal, seen);
      } else {
        OtherAnnounces(a, op);
        AnnouncingShows(a, Step(a, op), seen);
      }
    }
  }

  lemma {:induction false} RunShows(a: Agent, ops: seq<Op>, seen: seq<ConnState>)
    requires Inv(a) && LegalRun(a, ops)
    ensures var b, seen' := Run(a, ops), seen + Seen(a, ops);
            && (InSync(a, seen) && NothingLost(a, ops) ==> InSync(b, seen'))
            && (InSync(a, seen) && !NothingLost(a, ops) ==> Missed(b, seen'))
            && (Missed(a, seen) ==> Missed(b, seen'))
    decreases |ops|
  {
    hide Inv, InSync, Missed, Step, SeenAt, LostAt;
    if |ops| == 0 {
      assert seen + [] == seen;
    } else {
      var b := Step(a, ops[0]);
      StepKeepsInv(a, ops[0]);
      StepShows(a, ops[0], seen);
      RunShows(b, ops[1..], seen + SeenAt(a, ops[0]));
      assert seen + SeenAt(a, ops[0]) + Seen(b, ops[1..]) == seen + Seen(a, ops);
    }
  }

  /**
   The user has seen every state that was announced, in order, but those that still wait, if and only if no restart
   came while one waited. Then no state is seen twice in a row.
   */
  lemma SeesAllIff(creds: Creds, controlling: bool, ops: seq<Op>)
    requires var a := NewAgent(creds).(controlling := controlling); Inv(a) && LegalRun(a, ops)
    ensures var a := NewAgent(creds).(controlling := controlling);
            var b := Run(a, ops);
            && (b.stateLog == Seen(a, ops) + StatesOf(b.events) <==> NothingLost(a, ops))
            && (NothingLost(a, ops) ==> NoRepeats(Seen(a, ops)))
  {
    var a := NewAgent(creds).(controlling := controlling);
    var b := Run(a, ops);
    assert InSync(a, []);
    RunShows(a, ops, []);
    assert [] + Seen(a, ops) == Seen(a, ops);
    ChecklistOverRuns(creds, controlling, ops);
    hide Run, LegalRun, Seen, StatesOf;
    if NothingLost(a, ops) {
      forall k | 0 < k < |Seen(a, ops)| ensures Seen(a, ops)[k] != Seen(a, ops)[k - 1] {
        assert b.stateLog[k] == Seen(a, ops)[k] && b.stateLog[k - 1] == Seen(a, ops)[k - 1];
      }
    }
  }

  lemma {:induction false} SeenOneMore(a: Agent, ops: seq<Op>, op: Op)
    requires Inv(a) && LegalRun(a, ops) && Legal(Run(a, ops), op)
    ensures Inv(Run(a, ops)) && LegalRun(a, ops + [op]) && Run(a, ops + [op]) == Step(Run(a, ops), op)
    ensures Seen(a, ops + [op]) == Seen(a, ops) + SeenAt(Run(a, ops), op)
    decreases |ops|
  {
    hide Inv, Step, SeenAt;
    RunOneMore(a, ops, op);
    if |ops| == 0 {
      assert ops + [op] == [op] && |[op][1..]| == 0;
      assert SeenAt(a, op) + [] == [] + SeenAt(a, op);
    } else {
      StepKeepsInv(a, ops[0]);
      assert (ops + [op])[1..] == ops[1..] + [op];
      SeenOneMore(Step(a, ops[0]), ops[1..], op);
      var rest := Seen(Step(a, ops[0]), ops[1..]);
      assert SeenAt(a, ops[0]) + (rest + SeenAt(Run(a, ops), op)) == SeenAt(a, ops[0]) + rest + SeenAt(Run(a, ops), op);
    }
  }

  function RestartAndPoll(creds: Creds, keepLocal: bool): seq<Op> {
    [Restart(creds, keepLocal), AskEvent, AskEvent]
  }

  /**
   What a restart shows: Checking, unless the agent was checking already. So a user who has last seen Checking sees
   it again if and only if the agent had gone on to another state.
   */
  lemma RestartShowsChecking(a: Agent, ops: seq<Op>, creds: Creds, keepLocal: bool)
    requires Inv(a) && LegalRun(a, ops)
    ensures var ops' := ops + RestartAndPoll(creds, keepLocal);
            && LegalRun(a, ops') && Run(a, ops') == IceRestart(Run(a, ops), creds, keepLocal).(events := [])
            && Seen(a, ops') == Seen(a, ops) + if Run(a, ops).state == Checking then [] else [Checking]
  {
    hide Inv, LegalRun, Run, Seen;
    var b := Run(a, ops);
    SeenOneMore(a, ops, Restart(creds, keepLocal));
    SeenOneMore(a, ops + [Restart(creds, keepLocal)], AskEvent);
    SeenOneMore(a, ops + [Restart(creds, keepLocal)] + [AskEvent], AskEvent);
    assert ops + RestartAndPoll(creds, keepLocal) == ops + [Restart(creds, keepLocal)] + [AskEvent] + [AskEvent];
  }

  // ---------- Exactly when a state is seen twice in a row ----------

  /** The next state that a run shows: the first one polled or, if none is, the first one that waits in the end. */
  ghost function NextShown(a: Agent, ops: seq<Op>): Option<ConnState>
    requires LegalRun(a, ops)
    decreases |ops|
  {
    if |ops| == 0 then FirstState(StatesOf(a.events))
    else if SeenAt(a, ops[0]) != [] then Some(SeenAt(a, ops[0])[0])
    else NextShown(Step(a, ops[0]), ops[1..])
  }

  function FirstState(states: seq<ConnState>): Option<ConnState> {
    if states == [] then None else Some(states[0])
  }

  /**
   No restart of a run throws away a waiting state such that what is shown next is what was seen last; last is what was
   seen last before the run.
   */
  ghost predicate RestartsDiffer(a: Agent, ops: seq<Op>, last: Option<ConnState>)
    requires LegalRun(a, ops)
    decreases |ops|
  {
    |ops| == 0 ||
    (&& (LostAt(a, ops[0]) > 0 && last.Some? ==> NextShown(Step(a, ops[0]), ops[1..]) != last)
     && RestartsDiffer(Step(a, ops[0]), ops[1..], if SeenAt(a, ops[0]) != [] then Some(SeenAt(a, ops[0])[0]) else last))
  }

  predicate EndsWith(log: seq<ConnState>, states: seq<ConnState>) {
    |states| <= |log| && log[|log| - |states|..] == states
  }

  lemma EndsWithMore(log: seq<ConnState>, states: seq<ConnState>, more: seq<ConnState>)
    requires EndsWith(log, states)
    ensures EndsWith(log + more, states + more)
  {
    assert log == log[..|log| - |states|] + states;
    assert log + more == log[..|log| - |states|] + (states + more);
  }

  /** What waits is the end of what was announced, after what was seen last if nothing was thrown away since. */
  predicate Waiting(a: Agent, seen: seq<ConnState>) {
    EndsWith(a.stateLog, seen + StatesOf(a.events))
  }

  lemma AnnouncesWaiting(a: Agent, b: Agent, seen: seq<ConnState>)
    requires Announces(a, b) && Waiting(a, seen)
    ensures Waiting(b, seen)
  {
    hide StatesOf, EndsWith;
    var states :| b.stateLog == a.stateLog + states && StatesOf(b.events) == StatesOf(a.events) + states;
    EndsWithMore(a.stateLog, seen + StatesOf(a.events), states);
    assert seen + StatesOf(a.events) + states == seen + StatesOf(b.events);
  }

  /** A restart that throws nothing away only announces. */
  lemma LosslessRestartAnnounces(a: Agent, creds: Creds, keepLocal: bool)
    requires StatesOf(a.events) == []
    ensures Announces(a, IceRestart(a, creds, keepLocal))
  {
    var b := IceRestart(a, creds, keepLocal);
    RestartShows(a, creds, keepLocal, []);
    RestartQueues(a, creds, keepLocal);
    var states := StatesOf(b.events);
    assert b.stateLog == a.stateLog + states && StatesOf(b.events) == StatesOf(a.events) + states;
  }

  lemma RestartQueues(a: Agent, creds: Creds, keepLocal: bool)
    ensures var b := IceRestart(a, creds, keepLocal);
            var states := if a.state == Checking then [] else [Checking];
            StatesOf(b.events) == states && b.stateLog == a.stateLog + states && b.state == Checking
  {
    var first := IceRestarted(creds);
    StatesOfOneMore([], first);
    StatesOfOneMore([first], StateChange(Checking));
    assert [] + [first] == [first];
  }

  /** In every case, what waits is the end of what was announced. */
  lemma StepWaiting(a: Agent, op: Op)
    requires Inv(a) && Legal(a, op) && Waiting(a, [])
    ensures Waiting(Step(a, op), [])
  {
    hide Inv, IceRestart, Announces;
    if op.Restart? {
      RestartQueues(a, op.creds, op.keepLocal);
    } else if op.AskEvent? {
      if a.events != [] {
        assert StatesOf(a.events) == SeenAt(a, op) + StatesOf(a.events[1..]);
      }
    } else {
      OtherAnnounces(a, op);
      hide Step, Waiting;
      AnnouncesWaiting(a, Step(a, op), []);
    }
  }

  /** As long as nothing is thrown away and nothing more is seen, what waits comes right after what was seen last. */
  lemma StepWaitingAfter(a: Agent, op: Op, x: ConnState)
    requires Inv(a) && Legal(a, op) && Waiting(a, [x]) && SeenAt(a, op) == [] && LostAt(a, op) == 0
    ensures Waiting(Step(a, op), [x])
  {
    hide Inv, IceRestart, Announces;
    if op.AskEvent? {
      if a.events != [] {
        assert StatesOf(a.events) == StatesOf(a.events[1..]);
      }
    } else {
      if op.Restart? {
        LosslessRestartAnnounces(a, op.creds, op.keepLocal);
      } else {
        OtherAnnounces(a, op);
      }
      hide Waiting;
      AnnouncesWaiting(a, Step(a, op), [x]);
    }
  }

  /** What is polled is the first that waits. */
  lemma SeenIsFirst(a: Agent, op: Op)
    requires Inv(a) && Legal(a, op) && Waiting(a, []) && SeenAt(a, op) != []
    ensures var x := SeenAt(a, op)[0];
            SeenAt(a, op) == [x] && FirstState(StatesOf(a.events)) == Some(x) && Waiting(Step(a, op), [x])
    ensures LostAt(a, op) == 0
  {
    hide Inv;
    var x := SeenAt(a, op)[0];
    assert StatesOf(a.events) == [x] + StatesOf(a.events[1..]);
    assert [] + StatesOf(a.events) == StatesOf(a.events);
  }

  /** The first that waits differs from what came just before it. */
  lemma WaitingDiffers(a: Agent, x: ConnState)
    requires Inv(a) && Waiting(a, [x])
    ensures FirstState(StatesOf(a.events)) != Some(x)
  {
    var log, states := a.stateLog, [x] + StatesOf(a.events);
    if StatesOf(a.events) != [] {
      var k := |log| - |states|;
      assert log[k] == log[k..][0] == x && log[k + 1] == log[k..][1] == StatesOf(a.events)[0];
      assert NoRepeats(log);
    }
  }

  lemma WaitingLess(a: Agent, x: ConnState)
    requires Waiting(a, [x])
    ensures Waiting(a, [])
  {
    var log, states := a.stateLog, [x] + StatesOf(a.events);
    assert log[|log| - |StatesOf(a.events)|..] == log[|log| - |states|..][1..];
    assert [] + StatesOf(a.events) == StatesOf(a.events);
  }

  /** After a state was seen, the next one shown differs from it, unless a restart makes it the same. */
  lemma {:induction false} NextDiffers(a: Agent, ops: seq<Op>, x: ConnState)
    requires Inv(a) && LegalRun(a, ops) && Waiting(a, [x]) && RestartsDiffer(a, ops, Some(x))
    ensures NextShown(a, ops) != Some(x)
    decreases |ops|
  {
    hide Inv, Waiting, Step, SeenAt, LostAt, FirstState;
    if |ops| == 0 {
      WaitingDiffers(a, x);
    } else {
      StepKeepsInv(a, ops[0]);
      if SeenAt(a, ops[0]) != [] {
        WaitingLess(a, x);
        SeenIsFirst(a, ops[0]);
        WaitingDiffers(a, x);
      } else if LostAt(a, ops[0]) == 0 {
        StepWaitingAfter(a, ops[0], x);
        NextDiffers(Step(a, ops[0]), ops[1..], x);
      }
    }
  }

  /** All that a run shows: what is seen, and what waits in the end. */
  ghost function Shown(a: Agent, ops: seq<Op>): seq<ConnState>
    requires LegalRun(a, ops)
  {
    Seen(a, ops) + StatesOf(Run(a, ops).events)
  }

  function Before(last: Option<ConnState>): seq<ConnState> {
    if last.Some? then [last.value] else []
  }

  lemma ShownNext(a: Agent, ops: seq<Op>)
    requires LegalRun(a, ops) && |ops| > 0
    ensures Shown(a, ops) == SeenAt(a, ops[0]) + Shown(Step(a, ops[0]), ops[1..])
  {
    hide Step, SeenAt;
  }

  lemma RepeatsNext(last: Option<ConnState>, x: ConnState, rest: seq<ConnState>)
    ensures NoRepeats(Before(last) + ([x] + rest)) <==> last != Some(x) && NoRepeats(Before(Some(x)) + rest)
  {
    var s, t := Before(last) + ([x] + rest), [x] + rest;
    var n := |Before(last)|;
    assert forall k | 0 <= k < |t| :: s[n + k] == t[k];
    if NoRepeats(s) {
      forall k | 0 < k < |t| ensures t[k] != t[k - 1] {
        assert s[n + k] != s[n + k - 1];
      }
      assert last.Some? ==> s[1] != s[0];
    }
    if last != Some(x) && NoRepeats(t) {
      forall k | 0 < k < |s| ensures s[k] != s[k - 1] {
        assert k > n ==> t[k - n] != t[k - n - 1];
      }
    }
  }

  lemma EndDoesNotRepeat(log: seq<ConnState>, states: seq<ConnState>)
    requires NoRepeats(log) && EndsWith(log, states)
    ensures NoRepeats(states)
  {
    var m := |log| - |states|;
    forall k | 0 < k < |states| ensures states[k] != states[k - 1] {
      assert log[m..][k] == log[m + k] && log[m..][k - 1] == log[m + k - 1];
    }
  }

  lemma WaitingDoesNotRepeat(a: Agent)
    requires Inv(a) && Waiting(a, [])
    ensures NoRepeats(StatesOf(a.events))
  {
    assert [] + StatesOf(a.events) == StatesOf(a.events);
    LogDoesNotRepeat(a);
    hide StatesOf, Inv, NoRepeats, EndsWith;
    EndDoesNotRepeat(a.stateLog, StatesOf(a.events));
  }

  lemma EndRepeats(a: Agent, last: Option<ConnState>)
    requires Inv(a) && Waiting(a, [])
    ensures NoRepeats(Before(last) + StatesOf(a.events)) <==> (last.Some? ==> FirstState(StatesOf(a.events)) != last)
  {
    hide StatesOf, Inv, NoRepeats, Waiting;
    var states := StatesOf(a.events);
    WaitingDoesNotRepeat(a);
    OneDoesNotRepeat(last);
    if states == [] {
      assert Before(last) + states == Before(last);
    } else {
      assert states == [states[0]] + states[1..] && Before(Some(states[0])) + states[1..] == states;
      RepeatsNext(last, states[0], states[1..]);
    }
  }

  lemma OneDoesNotRepeat(last: Option<ConnState>)
    ensures NoRepeats(Before(last))
  {
  }

  lemma LogDoesNotRepeat(a: Agent)
    requires Inv(a)
    ensures NoRepeats(a.stateLog)
  {
  }

  lemma {:induction false} ShownRepeatsIff(a: Agent, ops: seq<Op>, last: Option<ConnState>)
    requires Inv(a) && LegalRun(a, ops) && Waiting(a, [])
    ensures NoRepeats(Before(last) + Shown(a, ops)) <==>
            (last.Some? ==> NextShown(a, ops) != last) && RestartsDiffer(a, ops, last)
    decreases |ops|
  {
    hide Inv, Waiting, Step, SeenAt, LostAt, FirstState, NoRepeats, StatesOf, Before;
    if |ops| == 0 {
      EndRepeats(a, last);
      assert [] + StatesOf(a.events) == StatesOf(a.events);
      return;
    }
    var b := Step(a, ops[0]);
    ShownNext(a, ops);
    hide Shown;
    StepKeepsInv(a, ops[0]);
    StepWaiting(a, ops[0]);
    if SeenAt(a, ops[0]) != [] {
      var x := SeenAt(a, ops[0])[0];
      SeenIsFirst(a, ops[0]);
      RepeatsNext(last, x, Shown(b, ops[1..]));
      ShownRepeatsIff(b, ops[1..], Some(x));
      if RestartsDiffer(b, ops[1..], Some(x)) {
        NextDiffers(b, ops[1..], x);
      }
    } else {
      assert [] + Shown(b, ops[1..]) == Shown(b, ops[1..]);
      ShownRepeatsIff(b, ops[1..], last);
    }
  }

  /**
   Over every run of a new agent: no state is shown twice in a row, among those seen and those that wait in the end, if
   and only if no restart throws away a waiting state such that what is shown next is what was seen last.
   */
  lemma SeenTwiceIff(creds: Creds, controlling: bool, ops: seq<Op>)
    requires var a := NewAgent(creds).(controlling := controlling); Inv(a) && LegalRun(a, ops)
    ensures var a := NewAgent(creds).(controlling := controlling);
            NoRepeats(Seen(a, ops) + StatesOf(Run(a, ops).events)) <==> RestartsDiffer(a, ops, None)
  {
    var a := NewAgent(creds).(controlling := controlling);
    assert Waiting(a, []);
    ShownRepeatsIff(a, ops, None);
    hide Run, Seen, StatesOf, NoRepeats;
    assert Before(None) + Shown(a, ops) == Seen(a, ops) + StatesOf(Run(a, ops).events);
  }

  // ---------- What is shown next ----------

  lemma FirstOfMore(states: seq<ConnState>, more: seq<ConnState>)
    ensures states != [] ==> FirstState(states + more) == FirstState(states)
  {
  }

  /** A run that throws nothing away shows next what waits first or else is announced first. */
  lemma {:induction false} NextIsAnnounced(a: Agent, ops: seq<Op>)
    requires Inv(a) && LegalRun(a, ops) && NothingLost(a, ops) && Waiting(a, [])
    ensures a.stateLog <= Run(a, ops).stateLog
    ensures NextShown(a, ops) == FirstState(StatesOf(a.events) + Run(a, ops).stateLog[|a.stateLog|..])
    decreases |ops|
  {
    hide Inv, Waiting, Step, SeenAt, LostAt, FirstState, StatesOf;
    if |ops| == 0 {
      assert StatesOf(a.events) + a.stateLog[|a.stateLog|..] == StatesOf(a.events);
    } else {
      var b := Step(a, ops[0]);
      var log := Run(b, ops[1..]).stateLog;
      StepKeepsInv(a, ops[0]);
      StepWaiting(a, ops[0]);
      NextIsAnnounced(b, ops[1..]);
      hide Run, NextShown;
      if SeenAt(a, ops[0]) != [] {
        SeenIsFirst(a, ops[0]);
        SeenKeepsLog(a, ops[0]);
        SomeFirst(StatesOf(a.events));
        FirstOfMore(StatesOf(a.events), log[|a.stateLog|..]);
        NextWhenSeen(a, ops);
      } else {
        NextWhenNotSeen(a, ops);
        var states := StepAnnounces(a, ops[0]);
        assert log[|a.stateLog|..] == states + log[|b.stateLog|..];
        assert StatesOf(a.events) + log[|a.stateLog|..] == StatesOf(b.events) + log[|b.stateLog|..];
      }
    }
  }

  lemma SomeFirst(states: seq<ConnState>)
    ensures FirstState(states).Some? ==> states != []
  {
  }

  lemma NextWhenSeen(a: Agent, ops: seq<Op>)
    requires LegalRun(a, ops) && |ops| > 0 && SeenAt(a, ops[0]) != []
    ensures NextShown(a, ops) == Some(SeenAt(a, ops[0])[0])
  {
  }

  lemma NextWhenNotSeen(a: Agent, ops: seq<Op>)
    requires LegalRun(a, ops) && |ops| > 0 && SeenAt(a, ops[0]) == []
    ensures NextShown(a, ops) == NextShown(Step(a, ops[0]), ops[1..])
  {
  }

  lemma SeenKeepsLog(a: Agent, op: Op)
    requires Inv(a) && Legal(a, op) && SeenAt(a, op) != []
    ensures Step(a, op).stateLog == a.stateLog
  {
    hide Inv;
  }

  lemma StepAnnounces(a: Agent, op: Op) returns (states: seq<ConnState>)
    requires Inv(a) && Legal(a, op) && SeenAt(a, op) == [] && LostAt(a, op) == 0
    ensures Step(a, op).stateLog == a.stateLog + states && StatesOf(Step(a, op).events) == StatesOf(a.events) + states
  {
    hide Inv, IceRestart;
    if op.AskEvent? {
      states := [];
      if a.events != [] {
        assert StatesOf(a.events) == StatesOf(a.events[1..]);
      }
    } else {
      if op.Restart? {
        LosslessRestartAnnounces(a, op.creds, op.keepLocal);
      } else {
        OtherAnnounces(a, op);
      }
      var b := Step(a, op);
      hide Step, StatesOf;
      states :| b.stateLog == a.stateLog + states && StatesOf(b.events) == StatesOf(a.events) + states;
    }
  }

  /**
   What a run shows next after a restart, if no other restart throws that away: Checking, if the agent was not checking,
   and otherwise the first state that the rest of the run announces.
   */
  lemma NextAfterRestart(a: Agent, creds: Creds, keepLocal: bool, ops: seq<Op>)
    requires Inv(a) && LegalRun(IceRestart(a, creds, keepLocal), ops) && NothingLost(IceRestart(a, creds, keepLocal), ops)
    ensures var b := IceRestart(a, creds, keepLocal);
            var log := Run(b, ops).stateLog;
            && |a.stateLog| <= |log|
            && NextShown(b, ops) == if a.state != Checking then Some(Checking) else FirstState(log[|a.stateLog|..])
  {
    hide Inv, IceRestart, Run, LegalRun, NothingLost, NextShown;
    var b := IceRestart(a, creds, keepLocal);
    IceRestartKeepsInv(a, creds, keepLocal);
    RestartQueues(a, creds, keepLocal);
    hide StatesOf;
    assert [] + StatesOf(b.events) == StatesOf(b.events);
    assert Waiting(b, []);
    NextIsAnnounced(b, ops);
    if a.state == Checking {
      var log := Run(b, ops).stateLog;
      assert [] + log[|b.stateLog|..] == log[|a.stateLog|..];
    }
  }

  /** Two restarts without a poll in between: Checking is never shown, although the agent goes through it. */
  lemma RestartTwice(a: Agent, ops: seq<Op>, creds: Creds, keepLocal: bool)
    requires Inv(a) && LegalRun(a, ops)
    ensures var ops' := ops + [Restart(creds, keepLocal)] + [Restart(creds, keepLocal)];
            && LegalRun(a, ops') && Seen(a, ops') == Seen(a, ops)
            && Run(a, ops').state == Checking && StatesOf(Run(a, ops').events) == []
  {
    var op := Restart(creds, keepLocal);
    hide Inv, LegalRun, Run, Seen, IceRestart;
    SeenOneMore(a, ops, op);
    SeenOneMore(a, ops + [op], op);
    RestartQueues(Run(a, ops), creds, keepLocal);
    RestartQueues(Run(a, ops + [op]), creds, keepLocal);
    assert Seen(a, ops) + [] + [] == Seen(a, ops);
  }

  // ---------- A run that shows Checking twice ----------

  const MINE := Creds("l", "mine")
  const THERE := Candidate(None, 1, Udp, Some(1), Address(1, 4000, false), None, Host, None, None, None, false)

  /** Without a single pair, the agent gives up as soon as it has a remote candidate. */
  lemma NoPairsDisconnects(a: Agent, now: int)
    requires Inv(a) && a.state == Checking && a.pairs == [] && a.remote != [] && a.stunServerQueue == []
    ensures HandleTimeout(a, now).state == Disconnected
  {
    hide Inv;
    assert Retain([], Keep(a.iceLite, now)) == [];
  }

  /** An agent that checks, without any candidate of either side. */
  predicate Alone(a: Agent) {
    && a.state == Checking && a.pairs == [] && a.local == [] && a.remote == [] && a.remoteCreds == None
    && a.stunServerQueue == []
  }

  lemma AddRemoteAlone(a: Agent)
    requires Inv(a) && Alone(a)
    ensures Legal(a, AddRemote(THERE))
    ensures var b := Step(a, AddRemote(THERE));
            b.remote == [THERE] && b.pairs == [] && b.state == Checking && b.stunServerQueue == []
  {
    assert [] + [THERE] == [THERE];
    hide Inv;
    PlaceRemoteKeepsInv(a, THERE);
    InvMeans(PlaceRemote(a, THERE).0);
    InvMeansValid(PlaceRemote(a, THERE).0);
    assert PairableFrom(a.local, false, 0) == [];
  }

  const FIRST: seq<Op> := RestartAndPoll(MINE, false)
  const SECOND: seq<Op> := FIRST + [AddRemote(THERE)] + [Timeout(0)]

  lemma FirstShows()
    ensures var a := NewAgent(MINE);
            Inv(a) && LegalRun(a, FIRST) && Seen(a, FIRST) == [Checking] && Alone(Run(a, FIRST))
  {
    var a := NewAgent(MINE);
    NewAgentInv(MINE, false);
    hide Inv;
    RestartShowsChecking(a, [], MINE, false);
    assert [] + FIRST == FIRST && [] + [Checking] == [Checking];
  }

  lemma TimeoutIs(a: Agent)
    requires Inv(a) && a.state == Checking && a.pairs == [] && a.remote != [] && a.stunServerQueue == []
    ensures Legal(a, Timeout(0)) && Step(a, Timeout(0)).state == Disconnected
  {
    hide Inv, HandleTimeout;
    NoPairsDisconnects(a, 0);
  }

  lemma SecondShows()
    ensures var a := NewAgent(MINE);
            Inv(a) && LegalRun(a, SECOND) && Seen(a, SECOND) == [Checking] && Run(a, SECOND).state == Disconnected
  {
    var a := NewAgent(MINE);
    FirstShows();
    hide Inv, Run, LegalRun, Seen, FIRST, NewAgent, Alone, Step, Legal;
    var b := Run(a, FIRST);
    RunKeepsInv(a, FIRST);
    AddRemoteAlone(b);
    SeenOneMore(a, FIRST, AddRemote(THERE));
    var c := Step(b, AddRemote(THERE));
    RunKeepsInv(a, FIRST + [AddRemote(THERE)]);
    TimeoutIs(c);
    SeenOneMore(a, FIRST + [AddRemote(THERE)], Timeout(0));
    assert [Checking] + [] + [] == [Checking];
  }

  /** A new agent, started, left without a local candidate, and restarted: its user sees Checking twice in a row. */
  lemma CheckingTwice()
    ensures var a := NewAgent(MINE);
            var ops := SECOND + RestartAndPoll(MINE, false);
            Inv(a) && LegalRun(a, ops) && Seen(a, ops) == [Checking, Checking] && !NothingLost(a, ops)
  {
    var a := NewAgent(MINE);
    var ops := SECOND + RestartAndPoll(MINE, false);
    SecondShows();
    hide Inv, Run, LegalRun, Seen, SECOND, IceRestart, NothingLost;
    RestartShowsChecking(a, SECOND, MINE, false);
    assert [Checking] + [Checking] == [Checking, Checking];
    assert Seen(a, ops)[1] == Seen(a, ops)[0];
    assert a == NewAgent(MINE).(controlling := false);
    SeesAllIff(MINE, false, ops);
  }
}
