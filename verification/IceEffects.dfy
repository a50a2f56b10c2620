/**
 What the operations of the ICE agent leave behind, beyond the checklist: which connection state is the right one, which
 discoveries the user is told of, and which candidates are kept.
 */
module IceEffects {
  import opened Bytes
  import opened Stun
  import opened IcePair
  import opened IceCandidate
  import opened IceAgentSpec
  import opened IceAgentOps
  import opened IceAgentRuns

  // ---------- Connection state ----------

  /** Something better may still come: from a pair that was neither nominated nor given up, or from a first candidate. */
  predicate MayImprove(a: Agent, now: int) {
    a.remote == [] || exists x :: x in a.pairs && !x.IsNominated() && x.IsStillPossible(now)
  }

  /**
   An agent that checks, and was started before, is completed after looking at its state if and only if a pair is nominated
   and nothing better may come, and connected if and only if one is nominated and something better may come.
   */
  lemma CompletedIff(a: Agent, now: int)
    requires a.state != New && !a.iceLite
    ensures EvaluateState(a, now).state == Completed <==> AnyNominated(a.pairs) && !MayImprove(a, now)
    ensures EvaluateState(a, now).state == Connected <==> AnyNominated(a.pairs) && MayImprove(a, now)
  {
    SomeMayImprove(a, now);
  }

  /** An agent that only answers is completed with its first nominated pair, unless it was connected when it became one. */
  lemma LiteCompletedIff(a: Agent, now: int)
    requires a.state != New && a.iceLite
    ensures EvaluateState(a, now).state == Completed <==>
            AnyNominated(a.pairs) && (a.state == Connected ==> !MayImprove(a, now))
  {
    SomeMayImprove(a, now);
  }

  lemma SomeMayImprove(a: Agent, now: int)
    ensures MayImprove(a, now) <==> a.remote == [] || AnyStillPossible(a.pairs, now)
  {
    if AnyStillPossible(a.pairs, now) {
      var k :| 0 <= k < |a.pairs| && !a.pairs[k].IsNominated() && a.pairs[k].IsStillPossible(now);
      assert a.pairs[k] in a.pairs;
    }
  }

  // ---------- Discoveries ----------

  /** The sources that events tell of. */
  function SourcesOf(events: seq<Event>): seq<(Protocol, Address)> {
    if events == [] then []
    else (if events[0].DiscoveredRecv? then [(events[0].proto, events[0].source)] else []) + SourcesOf(events[1..])
  }

  lemma {:induction false} SourcesOfOneMore(events: seq<Event>, e: Event)
    ensures SourcesOf(events + [e]) == SourcesOf(events) + if e.DiscoveredRecv? then [(e.proto, e.source)] else []
  {
    if |events| == 0 {
      assert events + [e] == [e] && [e][1..] == [];
    } else {
      assert (events + [e])[1..] == events[1..] + [e];
      SourcesOfOneMore(events[1..], e);
    }
  }

  /** The agent has heard from the same sources, and told of the same. */
  predicate SameSources(a: Agent, b: Agent) {
    b.discoveredRecv == a.discoveredRecv && SourcesOf(b.events) == SourcesOf(a.events)
  }

  lemma EmitSameSources(a: Agent, e: Event)
    requires !e.DiscoveredRecv?
    ensures SameSources(a, EmitEvent(a, e))
  {
    SourcesOfOneMore(a.events, e);
  }

  lemma StateSameSources(a: Agent, now: int)
    ensures SameSources(a, EvaluateState(a, now))
  {
    hide SourcesOf, AnyNominated, AnyStillPossible, EmitEvent;
    SetStateSameSources(a, Checking);
    SetStateSameSources(a, Connected);
    SetStateSameSources(a, Completed);
    SetStateSameSources(a, Disconnected);
  }

  lemma SetStateSameSources(a: Agent, s: ConnState)
    ensures SameSources(a, SetConnectionState(a, s))
  {
    EmitSameSources(a.(state := s, stateLog := a.stateLog + [s]), StateChange(s));
  }

  lemma NominationSameSources(a: Agent)
    requires AllWellFormed(a.pairs, a.local, a.remote)
    ensures SameSources(a, EvaluateNomination(a))
  {
    hide SourcesOf, EmitEvent;
    var best := BestPair(a.controlling, a.pairs);
    if best.Some? {
      var p := a.pairs[best.value];
      var p' := if !p.IsNominated() && (a.controlling || a.iceLite) then p.Nominate(a.iceLite) else p;
      EmitSameSources(a.(pairs := a.pairs[best.value := p'], nominatedSend := Some(p.id)),
                      NominatedSend(a.local[p.localIdx].proto, a.local[p.localIdx].Base(), a.remote[p.remoteIdx].addr));
    }
  }

  lemma AnswerSameSources(a: Agent, l: nat, r: nat, req: StunRequest)
    requires Inv(a) && FindPair(a.pairs, l, r).Some?
    ensures SameSources(a, AnswerRequest(a, l, r, req))
  {
    hide Inv, EvaluateNomination, FindPair, SourcesOf;
    FoundPair(a, l, r);
    var k := FindPair(a.pairs, l, r).value;
    CountedKeepsInv(a, k, req);
    InvMeans(Counted(a, k, req));
    NominationSameSources(Counted(a, k, req));
  }

  lemma RequestSameSources(a: Agent, req: StunRequest)
    requires Inv(a) && a.remoteCreds.Some?
    ensures SameSources(a, HandleRequest(a, req))
  {
    hide Inv, WithSource, WithPair, AnswerRequest, FindPair, FindDestination, SourcesOf;
    if req.remoteUfrag == a.remoteCreds.value.ufrag && !(req.useCandidate && a.controlling) {
      var (a1, r) := WithSource(a, req);
      WithSourceKeepsInv(a, req);
      var dest := FindDestination(a1.local, req.proto, req.destination);
      if dest.Some? && !(FindPair(a1.pairs, dest.value, r).None? && a1.local[dest.value].discarded) {
        FoundInRange(a1.local, req);
        FoundPairIsUsable(a1, dest.value, r);
        WithPairKeepsInv(a1, dest.value, r);
        AnswerSameSources(WithPair(a1, dest.value, r), dest.value, r, req);
      }
    }
  }

  lemma FoundInRange(cs: seq<Candidate>, req: StunRequest)
    ensures var dest := FindDestination(cs, req.proto, req.destination); dest.Some? ==> dest.value < |cs|
  {
  }

  lemma ResponseSameSources(a: Agent, now: int, transId: nat, mapped: Address)
    requires Inv(a)
    ensures SameSources(a, HandleResponse(a, now, transId, mapped))
  {
    hide Inv, EvaluateNomination, EvaluateState, WithMapped, SourcesOf;
    var k := FindAttempt(a.pairs, transId);
    if k.Some? {
      RespondedKeepsInv(a, now, transId, mapped, k.value);
      WithMappedKeepsInv(a, k.value, mapped);
      var a1 := Responded(a, now, transId, mapped, k.value);
      InvMeans(a1);
      NominationSameSources(a1);
      StateSameSources(if a1.controlling then EvaluateNomination(a1) else a1, now);
    }
  }

  lemma PruneSameSources(a: Agent, now: int)
    requires Inv(a)
    ensures SameSources(a, Prune(a, now))
  {
    hide Inv, EvaluateNomination, EvaluateState, Retain, SourcesOf;
    InvMeans(a);
    EvaluateNominationKeepsInv(a);
    NominationSameSources(a);
    var a1 := EvaluateNomination(a);
    RetainKeepsInv(a1, Keep(a.iceLite, now));
    var a2 := a1.(pairs := Retain(a1.pairs, Keep(a.iceLite, now)));
    InvMeans(a2);
    NominationSameSources(a2);
    StateSameSources(EvaluateNomination(a2), now);
  }

  lemma TimeoutSameSources(a: Agent, now: int)
    requires Inv(a)
    ensures SameSources(a, HandleTimeout(a, now))
  {
    hide Inv, EmitEvent, EvaluateState, DropOld, HandleRequest, Prune, SourcesOf, SendCheck, Scheduled, NextPair;
    var a0 := if a.state == New then EmitEvent(a, IceRestarted(a.localCreds)) else a;
    EmitSameSources(a, IceRestarted(a.localCreds));
    EmitEventKeepsInv(a, IceRestarted(a.localCreds));
    var a1 := EvaluateState(a0, now);
    StateSameSources(a0, now);
    EvaluateStateKeepsInv(a0, now);
    var queue := DropOld(a1.stunServerQueue, now);
    QueueKeepsInv(a1, if queue == [] then [] else queue[1..]);
    if a1.remoteCreds.Some? && queue != [] {
      RequestSameSources(a1.(stunServerQueue := queue[1..]), queue[0]);
    } else {
      var a2 := if a1.remoteCreds.Some? then a1.(stunServerQueue := []) else a1;
      TimeKeepsInv(a2, now);
      PruneSameSources(a2.(lastNow := Some(now)), now);
      PruneKeepsInv(a2.(lastNow := Some(now)), now);
      AdvanceSameSources(a2, now);
    }
  }

  lemma AdvanceSameSources(a: Agent, now: int)
    requires Inv(a)
    ensures SameSources(a, Advance(a, now))
  {
    hide Inv, Prune, SourcesOf, CheckDue, CountFromNow;
    TimeKeepsInv(a, now);
    PruneSameSources(a.(lastNow := Some(now)), now);
    PruneKeepsInv(a.(lastNow := Some(now)), now);
    var a2 := Prune(a.(lastNow := Some(now)), now);
    if a2.remoteCreds.Some? {
      CheckSameSources(a2, now);
    }
  }

  lemma CheckSameSources(a: Agent, now: int)
    requires Inv(a) && a.remoteCreds.Some?
    ensures SameSources(a, CheckDue(a, now))
  {
    hide NextPair, Scheduled, SourcesOf, Pair.NextBindingAttempt, Pair.NewAttempt;
  }

  /** The source of a packet that is accepted. */
  function HeardAt(a: Agent, op: Op): set<(Protocol, Address)>
    requires Inv(a) && (op.Receive? ==> Parsed(op.packet.message))
  {
    if op.Receive? && AcceptsMessage(a, op.packet.message) then {(op.packet.proto, op.packet.source)} else {}
  }

  /** The sources of the packets accepted since the last restart, those heard from before the run included. */
  ghost function Heard(a: Agent, ops: seq<Op>, before: set<(Protocol, Address)>): set<(Protocol, Address)>
    requires LegalRun(a, ops)
    decreases |ops|
  {
    if |ops| == 0 then before
    else Heard(Step(a, ops[0]), ops[1..], if ops[0].Restart? then {} else before + HeardAt(a, ops[0]))
  }

  /** What the user was told of before an operation and by it, since the last restart. */
  function TellingAt(a: Agent, op: Op, told: seq<(Protocol, Address)>): seq<(Protocol, Address)> {
    if op.Restart? then []
    else if op.AskEvent? && a.events != [] && a.events[0].DiscoveredRecv? then told + [(a.events[0].proto, a.events[0].source)]
    else told
  }

  ghost function Told(a: Agent, ops: seq<Op>, before: seq<(Protocol, Address)>): seq<(Protocol, Address)>
    requires LegalRun(a, ops)
    decreases |ops|
  {
    if |ops| == 0 then before else Told(Step(a, ops[0]), ops[1..], TellingAt(a, ops[0], before))
  }

  predicate Distinct(s: seq<(Protocol, Address)>) {
    forall i, j | 0 <= i < j < |s| :: s[i] != s[j]
  }

  /** The user was told, or is about to be, of each source that was heard from, and of each once. */
  ghost predicate TellsAll(a: Agent, heard: set<(Protocol, Address)>, told: seq<(Protocol, Address)>) {
    && a.discoveredRecv == heard
    && Distinct(told + SourcesOf(a.events))
    && (forall s :: s in told + SourcesOf(a.events) <==> s in heard)
  }

  lemma SameTellsAll(a: Agent, b: Agent, heard: set<(Protocol, Address)>, told: seq<(Protocol, Address)>)
    requires TellsAll(a, heard, told) && SameSources(a, b)
    ensures TellsAll(b, heard, told)
  {
    hide SourcesOf;
  }

  lemma PacketSameSources(a: Agent, now: int, packet: Packet)
    requires Inv(a) && Parsed(packet.message) && AcceptsMessage(a, packet.message)
    ensures var b := HandlePacket(a, now, packet).0;
            exists c :: SameSources(a, c) && b == EmitEvent(c, DiscoveredRecv(packet.proto, packet.source))
  {
    hide Inv, HandleRequest, HandleResponse, EmitEvent, AcceptsMessage, SourcesOf;
    var m := packet.message;
    if m.cls == Request {
      ParsedRequest(a, m);
      if a.remoteCreds.Some? {
        RequestSameSources(a, StunRequest(now, packet.proto, packet.source, packet.destination, m.transId,
                                          m.prio.value, m.useCandidate, m.username.value.1));
      }
      assert SameSources(a, HandleMessage(a, now, packet));
    } else if m.cls == Success {
      ParsedRequest(a, m);
      ResponseSameSources(a, now, m.transId, m.mapped.value);
    }
  }

  lemma PacketTellsAll(a: Agent, now: int, packet: Packet, heard: set<(Protocol, Address)>, told: seq<(Protocol, Address)>)
    requires Inv(a) && Parsed(packet.message) && TellsAll(a, heard, told)
    ensures TellsAll(HandlePacket(a, now, packet).0, heard + HeardAt(a, Receive(now, packet)), told)
  {
    hide Inv, HandlePacket, AcceptsMessage;
    if AcceptsMessage(a, packet.message) {
      PacketSameSources(a, now, packet);
      var c :| SameSources(a, c) && HandlePacket(a, now, packet).0 == EmitEvent(c, DiscoveredRecv(packet.proto, packet.source));
      SameTellsAll(a, c, heard, told);
      NewSourceTellsAll(c, packet.proto, packet.source, heard, told);
    } else {
      NotForThisAgent(a, now, packet);
      assert heard + {} == heard;
    }
  }

  lemma NotForThisAgent(a: Agent, now: int, packet: Packet)
    requires Inv(a) && Parsed(packet.message) && !AcceptsMessage(a, packet.message)
    ensures HandlePacket(a, now, packet) == (a, false)
  {
  }

  lemma NewSourceTellsAll(a: Agent, proto: Protocol, source: Address, heard: set<(Protocol, Address)>,
                          told: seq<(Protocol, Address)>)
    requires TellsAll(a, heard, told)
    ensures TellsAll(EmitEvent(a, DiscoveredRecv(proto, source)), heard + {(proto, source)}, told)
  {
    SourcesOfOneMore(a.events, DiscoveredRecv(proto, source));
    hide SourcesOf;
    var all := told + SourcesOf(a.events);
    if (proto, source) !in heard {
      assert told + SourcesOf(EmitEvent(a, DiscoveredRecv(proto, source)).events) == all + [(proto, source)];
    }
  }

  lemma PollTellsAll(a: Agent, heard: set<(Protocol, Address)>, told: seq<(Protocol, Address)>)
    requires TellsAll(a, heard, told) && a.events != []
    ensures TellsAll(a.(events := a.events[1..]), heard, TellingAt(a, AskEvent, told))
  {
    var first := if a.events[0].DiscoveredRecv? then [(a.events[0].proto, a.events[0].source)] else [];
    assert told + SourcesOf(a.events) == told + first + SourcesOf(a.events[1..]);
    assert told + [] == told;
  }

  lemma RestartTellsNone(a: Agent, creds: Creds, keepLocal: bool)
    ensures TellsAll(IceRestart(a, creds, keepLocal), {}, [])
  {
    var a1 := a.(remoteCreds := None, remote := [], pairs := [], transmit := [], events := [], discoveredRecv := {},
                 local := if keepLocal then WithUfrag(a.local, creds.ufrag) else [], localCreds := creds);
    EmitSameSources(a1, IceRestarted(creds));
    SetStateSameSources(EmitEvent(a1, IceRestarted(creds)), Checking);
    assert SourcesOf(a1.events) == [];
    hide SourcesOf, EmitEvent, SetConnectionState;
  }

  lemma StepTellsAll(a: Agent, op: Op, heard: set<(Protocol, Address)>, told: seq<(Protocol, Address)>)
    requires Inv(a) && Legal(a, op) && TellsAll(a, heard, told)
    ensures TellsAll(Step(a, op), if op.Restart? then {} else heard + HeardAt(a, op), TellingAt(a, op, told))
  {
    hide Inv, HandlePacket, HandleTimeout, IceRestart, TellsAll, AcceptsMessage;
    assert heard + {} == heard;
    match op
    case Restart(creds, keepLocal) => RestartTellsNone(a, creds, keepLocal);
    case Receive(now, packet) => PacketTellsAll(a, now, packet, heard, told);
    case Timeout(now) =>
      TimeoutSameSources(a, now);
      SameTellsAll(a, HandleTimeout(a, now), heard, told);
    case AskEvent =>
      if a.events != [] {
        PollTellsAll(a, heard, told);
      }
    case _ =>
      OtherSameSources(a, op);
      SameTellsAll(a, Step(a, op), heard, told);
  }

  lemma OtherSameSources(a: Agent, op: Op)
    requires Inv(a) && Legal(a, op)
    requires !op.Restart? && !op.Receive? && !op.Timeout? && !op.AskEvent?
    ensures SameSources(a, Step(a, op))
  {
    hide SourcesOf;
    match op
    case AddLocal(c) => AddLocalSameSources(a, c);
    case AddRemote(c) => AddRemoteSameSources(a, c);
    case Restart(_, _) =>
    case Receive(_, _) =>
    case Timeout(_) =>
    case AskEvent =>
    case Invalidate(c) => InvalidateSameSources(a, c);
    case AskTimeout => PollSameSources(a);
    case _ =>
  }

  lemma InvalidateSameSources(a: Agent, c: Candidate)
    ensures SameSources(a, InvalidateCandidate(a, c).0)
  {
    hide SourcesOf, Retain, FindExact;
  }

  lemma PollSameSources(a: Agent)
    ensures SameSources(a, PollTimeout(a).0)
  {
    hide SourcesOf, Scheduled, NextPair;
  }

  lemma AddLocalSameSources(a: Agent, c: Candidate)
    requires Inv(a) && Legal(a, AddLocal(c))
    ensures SameSources(a, AddLocalCandidate(a, c).0)
  {
    hide SourcesOf;
  }

  lemma AddRemoteSameSources(a: Agent, c: Candidate)
    requires Inv(a) && Legal(a, AddRemote(c))
    ensures SameSources(a, AddRemoteCandidate(a, c))
  {
    hide SourcesOf;
  }

  lemma {:induction false} RunTellsAll(a: Agent, ops: seq<Op>, heard: set<(Protocol, Address)>, told: seq<(Protocol, Address)>)
    requires Inv(a) && LegalRun(a, ops) && TellsAll(a, heard, told)
    ensures TellsAll(Run(a, ops), Heard(a, ops, heard), Told(a, ops, told))
    decreases |ops|
  {
    hide Inv, Step, TellsAll, TellingAt, HeardAt;
    if |ops| > 0 {
      StepKeepsInv(a, ops[0]);
      StepTellsAll(a, ops[0], heard, told);
      RunTellsAll(Step(a, ops[0]), ops[1..], if ops[0].Restart? then {} else heard + HeardAt(a, ops[0]),
                  TellingAt(a, ops[0], told));
    }
  }

  /**
   Over every run of a new agent, the user has been told, or is told by the events that wait, of each source of a packet
   that was accepted since the last restart, of each once, and of no other.
   */
  lemma ToldOfEachSourceOnce(creds: Creds, controlling: bool, ops: seq<Op>)
    requires LegalRun(NewAgent(creds).(controlling := controlling), ops)
    ensures var a0 := NewAgent(creds).(controlling := controlling);
            var sources := Told(a0, ops, []) + SourcesOf(Run(a0, ops).events);
            Distinct(sources) && forall s :: s in sources <==> s in Heard(a0, ops, {})
  {
    NewAgentInv(creds, controlling);
    RunTellsAll(NewAgent(creds).(controlling := controlling), ops, {}, []);
    hide SourcesOf, Heard, Told, Run;
  }

  // ---------- Local candidates ----------

  /** The same transport address and base, which makes one of two candidates redundant. */
  predicate SameSpot(c: Candidate, d: Candidate) {
    c.addr == d.addr && c.Base() == d.Base() && c.proto == d.proto
  }

  /** What candidates are by construction, and what places them among the others. */
  predicate Alike(c: Candidate, d: Candidate) {
    c.kind == d.kind && c.addr == d.addr && c.setPrio == d.setPrio && c.setLocalPreference == d.setLocalPreference
  }

  predicate AllAlike(cs: seq<Candidate>, ds: seq<Candidate>) {
    |cs| == |ds| && forall k | 0 <= k < |cs| :: Alike(cs[k], ds[k])
  }

  lemma {:induction false} AlikeSameKind(cs: seq<Candidate>, ds: seq<Candidate>, kind: Kind, ipv6: bool)
    requires AllAlike(cs, ds)
    ensures SameKind(cs, kind, ipv6) == SameKind(ds, kind, ipv6)
    decreases |cs|
  {
    if |cs| > 0 {
      AlikeSameKind(cs[..|cs| - 1], ds[..|ds| - 1], kind, ipv6);
    }
  }

  /** Every local candidate whose priority was not set has the preference that it was given when it was added. */
  ghost predicate AllAssigned(cs: seq<Candidate>) {
    forall k | 0 <= k < |cs| && cs[k].setPrio.None? :: Assigned(cs, k)
  }

  lemma AlikeAssigned(cs: seq<Candidate>, ds: seq<Candidate>)
    requires AllAssigned(cs) && AllAlike(cs, ds)
    ensures AllAssigned(ds)
  {
    hide SameKind;
    forall k | 0 <= k < |ds| && ds[k].setPrio.None? ensures Assigned(ds, k) {
      AlikeSameKind(cs[..k], ds[..k], ds[k].kind, ds[k].addr.ipv6);
      assert Assigned(cs, k) && Alike(cs[k], ds[k]);
    }
  }

  lemma AppendAssigned(cs: seq<Candidate>, c: Candidate)
    requires AllAssigned(cs)
    requires c.setPrio.None? ==>
               && SameKind(cs, c.kind, c.addr.ipv6) * 2 <= CounterStart(c.kind, c.addr.ipv6)
               && c.setLocalPreference == Some(NextLocalPreference(cs, c.kind, c.addr.ipv6))
    ensures AllAssigned(cs + [c])
  {
    hide SameKind;
    var ds := cs + [c];
    assert ds[..|cs|] == cs;
    forall k | 0 <= k < |cs| && cs[k].setPrio.None? ensures Assigned(ds, k) {
      assert Assigned(cs, k) && ds[..k] == cs[..k];
    }
  }

  lemma AddLocalAssigned(a: Agent, c: Candidate)
    requires Inv(a) && Legal(a, AddLocal(c)) && AllAssigned(a.local)
    ensures AllAssigned(AddLocalCandidate(a, c).0.local)
  {
    LocalAfterAdding(a, c);
    hide AllAssigned, AddLocalCandidate, SameKind, Inv, FindSame;
    var c1 := Adopted(a, c);
    var same := FindSame(a.local, c1);
    if AddLocalCandidate(a, c).1 {
      if same.Some? {
        DiscardedAlike(a.local, same.value);
        ReplacedAssigned(a.local, WithDiscarded(a.local, same.value), c1);
      } else {
        AppendAssigned(a.local, c1);
      }
    }
  }

  lemma DiscardedAlike(cs: seq<Candidate>, k: nat)
    requires k < |cs|
    ensures AllAlike(cs, WithDiscarded(cs, k))
  {
  }

  lemma ReplacedAssigned(cs: seq<Candidate>, ds: seq<Candidate>, c: Candidate)
    requires AllAssigned(cs) && AllAlike(cs, ds)
    requires SameKind(cs, c.kind, c.addr.ipv6) * 2 <= CounterStart(c.kind, c.addr.ipv6)
    requires c.setLocalPreference == Some(NextLocalPreference(cs, c.kind, c.addr.ipv6))
    ensures AllAssigned(ds + [c])
  {
    hide AllAssigned, SameKind;
    AlikeAssigned(cs, ds);
    AlikeSameKind(cs, ds, c.kind, c.addr.ipv6);
    AppendAssigned(ds, c);
  }

  /** The local candidates after adding one. */
  lemma LocalAfterAdding(a: Agent, c: Candidate)
    requires Inv(a) && Legal(a, AddLocal(c))
    ensures var (a', added), c1 := AddLocalCandidate(a, c), Adopted(a, c);
            var same := FindSame(a.local, c1);
            if added then a'.local == (if same.Some? then WithDiscarded(a.local, same.value) else a.local) + [c1]
            else a' == a
  {
    hide SameKind;
  }

  lemma RequestSameLocal(a: Agent, req: StunRequest)
    requires Inv(a) && a.remoteCreds.Some?
    ensures HandleRequest(a, req).local == a.local
  {
    hide Inv, WithSource, WithPair, EvaluateNomination, FindPair, FindDestination;
    if req.remoteUfrag == a.remoteCreds.value.ufrag && !(req.useCandidate && a.controlling) {
      var (a1, r) := WithSource(a, req);
      WithSourceKeepsInv(a, req);
      var dest := FindDestination(a1.local, req.proto, req.destination);
      if dest.Some? && !(FindPair(a1.pairs, dest.value, r).None? && a1.local[dest.value].discarded) {
        var l := dest.value;
        FoundInRange(a1.local, req);
        FoundPairIsUsable(a1, l, r);
        WithPairKeepsInv(a1, l, r);
        AnswerSameLocal(WithPair(a1, l, r), l, r, req);
      }
    }
  }

  lemma AnswerSameLocal(a: Agent, l: nat, r: nat, req: StunRequest)
    requires Inv(a) && FindPair(a.pairs, l, r).Some?
    ensures AnswerRequest(a, l, r, req).local == a.local
  {
    hide Inv, EvaluateNomination, FindPair;
    FoundPair(a, l, r);
    var a1 := Counted(a, FindPair(a.pairs, l, r).value, req);
    CountedKeepsInv(a, FindPair(a.pairs, l, r).value, req);
    InvMeans(a1);
    EvaluateNominationKeepsInv(a1);
  }

  lemma ResponseAssigned(a: Agent, now: int, transId: nat, mapped: Address)
    requires Inv(a) && AllAssigned(a.local)
    ensures AllAssigned(HandleResponse(a, now, transId, mapped).local)
  {
    hide Inv, EvaluateNomination, EvaluateState, AllAssigned;
    var k := FindAttempt(a.pairs, transId);
    if k.Some? {
      RespondedKeepsInv(a, now, transId, mapped, k.value);
      var a1 := Responded(a, now, transId, mapped, k.value);
      InvMeans(a1);
      EvaluateNominationKeepsInv(a1);
      EvaluateStateKeepsInv(if a1.controlling then EvaluateNomination(a1) else a1, now);
      MappedAssigned(a, k.value, mapped);
    }
  }

  lemma MappedAssigned(a: Agent, k: nat, mapped: Address)
    requires Inv(a) && k < |a.pairs| && AllAssigned(a.local)
    ensures AllAssigned(WithMapped(a, k, mapped).0.local)
  {
    hide AllAssigned;
    var a1 := WithMapped(a, k, mapped).0;
    if a1.local != a.local {
      AppendAssigned(a.local, a1.local[|a.local|]);
    }
  }

  lemma PacketAssigned(a: Agent, now: int, packet: Packet)
    requires Inv(a) && Parsed(packet.message) && AllAssigned(a.local)
    ensures AllAssigned(HandlePacket(a, now, packet).0.local)
  {
    hide Inv, HandleRequest, HandleResponse, AcceptsMessage, AllAssigned;
    var m := packet.message;
    if AcceptsMessage(a, m) {
      ParsedRequest(a, m);
      if m.cls == Request && a.remoteCreds.Some? {
        RequestSameLocal(a, StunRequest(now, packet.proto, packet.source, packet.destination, m.transId,
                                        m.prio.value, m.useCandidate, m.username.value.1));
      } else if m.cls == Success {
        ResponseAssigned(a, now, m.transId, m.mapped.value);
      }
    }
  }

  lemma TimeoutSameLocal(a: Agent, now: int)
    requires Inv(a)
    ensures HandleTimeout(a, now).local == a.local
  {
    hide Inv, EmitEvent, EvaluateState, DropOld, HandleRequest, Advance;
    var a0 := if a.state == New then EmitEvent(a, IceRestarted(a.localCreds)) else a;
    assert a0.local == a.local by { EmitSameLocal(a, IceRestarted(a.localCreds)); }
    EmitEventKeepsInv(a, IceRestarted(a.localCreds));
    var a1 := EvaluateState(a0, now);
    EvaluateStateKeepsInv(a0, now);
    var queue := DropOld(a1.stunServerQueue, now);
    QueueKeepsInv(a1, if queue == [] then [] else queue[1..]);
    if a1.remoteCreds.Some? && queue != [] {
      RequestSameLocal(a1.(stunServerQueue := queue[1..]), queue[0]);
    } else {
      AdvanceSameLocal(if a1.remoteCreds.Some? then a1.(stunServerQueue := []) else a1, now);
    }
  }

  lemma EmitSameLocal(a: Agent, e: Event)
    ensures EmitEvent(a, e).local == a.local
  {
  }

  lemma AdvanceSameLocal(a: Agent, now: int)
    requires Inv(a)
    ensures Advance(a, now).local == a.local
  {
    hide Inv, EvaluateNomination, EvaluateState, Retain, Scheduled, NextPair, CountFromNow;
    TimeKeepsInv(a, now);
    PruneKeepsInv(a.(lastNow := Some(now)), now);
    PruneSameLocal(a.(lastNow := Some(now)), now);
    hide Prune;
  }

  lemma PruneSameLocal(a: Agent, now: int)
    requires Inv(a)
    ensures Prune(a, now).local == a.local
  {
    hide Inv, EvaluateNomination, EvaluateState, Retain;
    InvMeans(a);
    EvaluateNominationKeepsInv(a);
    var a1 := EvaluateNomination(a);
    RetainKeepsInv(a1, Keep(a.iceLite, now));
    var a2 := a1.(pairs := Retain(a1.pairs, Keep(a.iceLite, now)));
    InvMeans(a2);
    EvaluateNominationKeepsInv(a2);
    EvaluateStateKeepsInv(EvaluateNomination(a2), now);
  }

  lemma RestartAssigned(a: Agent, creds: Creds, keepLocal: bool)
    requires AllAssigned(a.local)
    ensures AllAssigned(IceRestart(a, creds, keepLocal).local)
  {
    if keepLocal {
      AlikeAssigned(a.local, WithUfrag(a.local, creds.ufrag));
    }
  }

  lemma InvalidateAssigned(a: Agent, c: Candidate)
    requires AllAssigned(a.local)
    ensures AllAssigned(InvalidateCandidate(a, c).0.local)
  {
    hide AllAssigned, FindExact, Retain;
    AlikeAssigned(a.local, InvalidateCandidate(a, c).0.local);
  }

  lemma StepAssigned(a: Agent, op: Op)
    requires Inv(a) && Legal(a, op) && AllAssigned(a.local)
    ensures AllAssigned(Step(a, op).local)
  {
    hide Inv, AllAssigned, AddLocalCandidate, AddRemoteCandidate, InvalidateCandidate, IceRestart, HandlePacket,
      HandleTimeout, PollTimeout;
    match op
    case AddLocal(c) => AddLocalAssigned(a, c);
    case AddRemote(c) => RemoteSameLocal(a, c);
    case Invalidate(c) => InvalidateAssigned(a, c);
    case Restart(creds, keepLocal) => RestartAssigned(a, creds, keepLocal);
    case Receive(now, packet) => PacketAssigned(a, now, packet);
    case Timeout(now) => TimeoutSameLocal(a, now);
    case AskTimeout => PollSameLocal(a);
    case _ =>
  }

  lemma RemoteSameLocal(a: Agent, c: Candidate)
    requires Inv(a) && Legal(a, AddRemote(c))
    ensures AddRemoteCandidate(a, c).local == a.local
  {
  }

  lemma PollSameLocal(a: Agent)
    ensures PollTimeout(a).0.local == a.local
  {
    hide Scheduled, NextPair;
  }

  lemma {:induction false} RunAssigned(a: Agent, ops: seq<Op>)
    requires Inv(a) && LegalRun(a, ops) && AllAssigned(a.local)
    ensures AllAssigned(Run(a, ops).local)
    decreases |ops|
  {
    hide Inv, Step, AllAssigned;
    if |ops| > 0 {
      StepKeepsInv(a, ops[0]);
      StepAssigned(a, ops[0]);
      RunAssigned(Step(a, ops[0]), ops[1..]);
    }
  }

  /** The first local candidate at the spot of another one, whether or not it was discarded. */
  predicate FirstAt(cs: seq<Candidate>, k: nat, c: Candidate) {
    k < |cs| && SameSpot(cs[k], c) && forall j | 0 <= j < k :: !SameSpot(cs[j], c)
  }

  /** Of two candidates at one spot, the later one has the higher priority exactly if its kind is preferred. */
  lemma LaterIsHigherIff(cs: seq<Candidate>, k: nat, c: Candidate)
    requires k < |cs| && AllAssigned(cs) && AllValid(cs) && cs[k].setPrio.None? && SameSpot(cs[k], c)
    requires c.Valid() && c.setPrio.None? && SameKind(cs, c.kind, c.addr.ipv6) * 2 <= CounterStart(c.kind, c.addr.ipv6)
    requires c.setLocalPreference == Some(NextLocalPreference(cs, c.kind, c.addr.ipv6))
    ensures c.Prio() >= cs[k].Prio() <==> c.TypePreference(c.kind) > cs[k].TypePreference(cs[k].kind)
  {
    hide SameKind;
    assert Assigned(cs, k);
    var d := cs[k];
    var t, t' := d.TypePreference(d.kind), c.TypePreference(c.kind);
    if d.kind == c.kind {
      SameKindGrows(cs, k, |cs|, c.kind, c.addr.ipv6);
      assert cs[..|cs|] == cs;
    } else {
      assert t != t';
      assert t < t' ==> t * 0x100_0000 + 0x100_0000 <= t' * 0x100_0000;
      assert t' < t ==> t' * 0x100_0000 + 0x100_0000 <= t * 0x100_0000;
    }
  }

  /**
   After every run of a new agent: a local candidate is added if and only if it is a host candidate or the agent checks,
   and the first candidate ever added at its spot, if there is one, is of a less preferred kind, even if that one was
   discarded since. So the first candidate at a spot cannot be added twice, nor come back once it was invalidated.
   */
  lemma LocalIsAddedIff(creds: Creds, controlling: bool, ops: seq<Op>, c: Candidate)
    requires var a0 := NewAgent(creds).(controlling := controlling); LegalRun(a0, ops) && Legal(Run(a0, ops), AddLocal(c))
    requires var a := Run(NewAgent(creds).(controlling := controlling), ops);
             c.setPrio.None? && forall k | 0 <= k < |a.local| && FirstAt(a.local, k, c) :: a.local[k].setPrio.None?
    ensures var a := Run(NewAgent(creds).(controlling := controlling), ops);
            Inv(a) &&
            (AddLocalCandidate(a, c).1 <==>
             && (a.iceLite ==> c.kind == Host)
             && forall k | 0 <= k < |a.local| && FirstAt(a.local, k, c) ::
                  c.TypePreference(c.kind) > a.local[k].TypePreference(a.local[k].kind))
  {
    var a0 := NewAgent(creds).(controlling := controlling);
    NewAgentInv(creds, controlling);
    RunKeepsInv(a0, ops);
    RunAssigned(a0, ops);
    AddedIff(Run(a0, ops), c);
    hide Run, Inv, AllAssigned, AddLocalCandidate, SameKind;
  }

  lemma AddedIff(a: Agent, c: Candidate)
    requires Inv(a) && Legal(a, AddLocal(c)) && AllAssigned(a.local)
    requires c.setPrio.None? && forall k | 0 <= k < |a.local| && FirstAt(a.local, k, c) :: a.local[k].setPrio.None?
    ensures AddLocalCandidate(a, c).1 <==>
            && (a.iceLite ==> c.kind == Host)
            && forall k | 0 <= k < |a.local| && FirstAt(a.local, k, c) ::
                 c.TypePreference(c.kind) > a.local[k].TypePreference(a.local[k].kind)
  {
    hide Inv, SameKind, AllAssigned, FindSame, AddLocalCandidate, Candidate.Prio, Candidate.TypePreference;
    var c1 := Adopted(a, c);
    var same := FindSame(a.local, c1);
    AddedFlag(a, c);
    InvMeansValid(a);
    SameIsFirst(a.local, c1);
    if same.Some? {
      assert FirstAt(a.local, same.value, c);
      LaterIsHigherIff(a.local, same.value, c1);
      SamePreference(c, c1);
      OnlyFirst(a.local, same.value, c);
    }
  }

  lemma SamePreference(c: Candidate, d: Candidate)
    requires c.kind == d.kind && c.proto == d.proto
    ensures c.TypePreference(c.kind) == d.TypePreference(d.kind)
  {
  }

  lemma OnlyFirst(cs: seq<Candidate>, k: nat, c: Candidate)
    requires FirstAt(cs, k, c)
    ensures forall j | 0 <= j < |cs| && FirstAt(cs, j, c) :: j == k
  {
  }

  /** When adding a candidate is refused. */
  lemma AddedFlag(a: Agent, c: Candidate)
    requires Inv(a) && Legal(a, AddLocal(c))
    ensures Adopted(a, c).Valid() && AllValid(a.local)
    ensures var c1 := Adopted(a, c);
            var same := FindSame(a.local, c1);
            AddLocalCandidate(a, c).1 <==>
            (a.iceLite ==> c.kind == Host) && (same.Some? ==> c1.Prio() >= a.local[same.value].Prio())
  {
    InvMeansValid(a);
    hide SameKind, FormPairs, FindSame;
  }

  lemma SameIsFirst(cs: seq<Candidate>, c: Candidate)
    ensures FindSame(cs, c).Some? ==> FirstAt(cs, FindSame(cs, c).value, c)
    ensures FindSame(cs, c).None? ==> forall k | 0 <= k < |cs| :: !SameSpot(cs[k], c)
  {
    FindFirstIsFirst(cs, (v: Candidate) => v.addr == c.addr && v.Base() == c.Base() && v.proto == c.proto);
  }

  lemma {:induction false} FindFirstIsFirst(cs: seq<Candidate>, test: Candidate -> bool)
    ensures var r := FindFirst(cs, test); r.Some? ==> r.value < |cs| && forall k | 0 <= k < r.value :: !test(cs[k])
  {
    if |cs| > 0 {
      FindFirstIsFirst(cs[1..], test);
    }
  }

  /** No two usable local candidates are at one spot. */
  predicate NoneTwice(cs: seq<Candidate>) {
    forall i, j | 0 <= i < j < |cs| && !cs[i].discarded && !cs[j].discarded :: !SameSpot(cs[i], cs[j])
  }

  /**
   A candidate that is added takes the place of the first one at its spot only: no two usable ones are at one spot
   afterwards if and only if no other one there was usable.
   */
  lemma AddingKeepsNoneTwiceIff(a: Agent, c: Candidate)
    requires Inv(a) && Legal(a, AddLocal(c)) && NoneTwice(a.local) && AddLocalCandidate(a, c).1
    ensures NoneTwice(AddLocalCandidate(a, c).0.local) <==>
            forall k | 0 <= k < |a.local| && !a.local[k].discarded && SameSpot(a.local[k], c) :: FirstAt(a.local, k, c)
  {
    LocalAfterAdding(a, c);
    hide AddLocalCandidate, Inv, SameKind, FindSame, NoneTwice, FirstAt;
    AddedToNoneTwice(a.local, c, Adopted(a, c), AddLocalCandidate(a, c).0.local);
  }

  lemma AddedToNoneTwice(cs: seq<Candidate>, c: Candidate, c1: Candidate, ds: seq<Candidate>)
    requires NoneTwice(cs) && c1 == c.(ufrag := c1.ufrag, setLocalPreference := c1.setLocalPreference) && !c.discarded
    requires ds == (if FindSame(cs, c1).Some? then WithDiscarded(cs, FindSame(cs, c1).value) else cs) + [c1]
    ensures NoneTwice(ds) <==>
            forall k | 0 <= k < |cs| && !cs[k].discarded && SameSpot(cs[k], c) :: FirstAt(cs, k, c)
  {
    SameIsFirst(cs, c1);
    hide FindSame;
    forall k | 0 <= k < |cs| && !cs[k].discarded && SameSpot(cs[k], c) && !FirstAt(cs, k, c) ensures !NoneTwice(ds) {
      assert ds[k] == cs[k] && ds[|cs|] == c1 && SameSpot(ds[k], ds[|cs|]);
    }
  }

  /** A candidate with an address of its own or behind the same one. */
  function At(kind: Kind, addr: Address): (c: Candidate)
    ensures c.Valid()
  {
    Candidate(None, 1, Udp, None, addr, Some(addr), kind, None, None, None, false)
  }

  /** A server-reflexive candidate and then the host candidate at the same address twice: two usable ones are there. */
  lemma AddedTwice(creds: Creds, addr: Address)
    ensures var ops := [AddLocal(At(ServerReflexive, addr)), AddLocal(At(Host, addr)), AddLocal(At(Host, addr))];
            LegalRun(NewAgent(creds), ops) && !NoneTwice(Run(NewAgent(creds), ops).local)
  {
    var s, h := At(ServerReflexive, addr), At(Host, addr);
    var a0 := NewAgent(creds);
    NewAgentInv(creds, false);
    hide Inv, Step, AllAssigned, Legal;
    assert AllAssigned(a0.local) by { NoneAssigned(a0.local); }
    var a1 := Adds(a0, s);
    var a2 := Adds(a1, h);
    var a3 := Adds(a2, h);
    assert SameSpot(a3.local[1], a3.local[2]) && !a3.local[1].discarded && !a3.local[2].discarded;
    ThreeSteps(a0, AddLocal(s), AddLocal(h), AddLocal(h));
  }

  lemma NoneAssigned(cs: seq<Candidate>)
    requires cs == []
    ensures AllAssigned(cs)
  {
  }

  lemma ThreeSteps(a: Agent, x: Op, y: Op, z: Op)
    requires Inv(a) && Legal(a, x) && Inv(Step(a, x)) && Legal(Step(a, x), y)
    requires Inv(Step(Step(a, x), y)) && Legal(Step(Step(a, x), y), z)
    ensures LegalRun(a, [x, y, z]) && Run(a, [x, y, z]) == Step(Step(Step(a, x), y), z)
  {
    hide Inv, Step, Legal;
    assert [] + [x] == [x] && [x] + [y] == [x, y] && [x, y] + [z] == [x, y, z];
    RunOneMore(a, [], x);
    RunOneMore(a, [x], y);
    RunOneMore(a, [x, y], z);
  }

  /** One candidate of a few is added, and discards at most the first one at its spot. */
  lemma Adds(a: Agent, c: Candidate) returns (b: Agent)
    requires Inv(a) && AllAssigned(a.local) && !a.iceLite && |a.local| <= 2
    requires c.Valid() && !c.discarded && c.setPrio.None? && forall k | 0 <= k < |a.local| :: a.local[k].setPrio.None?
    requires forall k | 0 <= k < |a.local| && FirstAt(a.local, k, c) ::
               c.TypePreference(c.kind) > a.local[k].TypePreference(a.local[k].kind)
    ensures Legal(a, AddLocal(c)) && b == Step(a, AddLocal(c)) && Inv(b) && AllAssigned(b.local) && !b.iceLite
    ensures |b.local| == |a.local| + 1
    ensures var c' := b.local[|a.local|]; c' == c.(ufrag := c'.ufrag, setLocalPreference := c'.setLocalPreference)
    ensures forall k | 0 <= k < |a.local| ::
              b.local[k] == a.local[k] || (FirstAt(a.local, k, c) && b.local[k] == a.local[k].(discarded := true))
  {
    assert HasPreferenceLeft(a, c) by { hide *; }
    AddedIff(a, c);
    hide AddLocalCandidate, Inv, AllAssigned, SameKind, FindSame;
    AddLocalCandidateKeepsInv(a, c);
    LocalAfterAdding(a, c);
    AddLocalAssigned(a, c);
    AddingKeepsMode(a, c);
    b := AddLocalCandidate(a, c).0;
    AddsOne(a.local, c, Adopted(a, c), b.local);
  }

  lemma AddsOne(cs: seq<Candidate>, c: Candidate, c1: Candidate, ds: seq<Candidate>)
    requires c1 == c.(ufrag := c1.ufrag, setLocalPreference := c1.setLocalPreference)
    requires ds == (if FindSame(cs, c1).Some? then WithDiscarded(cs, FindSame(cs, c1).value) else cs) + [c1]
    ensures |ds| == |cs| + 1 && ds[|cs|] == c1
    ensures forall k | 0 <= k < |cs| :: ds[k] == cs[k] || (FirstAt(cs, k, c) && ds[k] == cs[k].(discarded := true))
  {
    SameIsFirst(cs, c1);
    hide FindSame;
  }

  lemma AddingKeepsMode(a: Agent, c: Candidate)
    requires Inv(a) && Legal(a, AddLocal(c))
    ensures AddLocalCandidate(a, c).0.iceLite == a.iceLite
  {
  }

  // ---------- Candidates that are taken back ----------

  /** What identifies a candidate to the one who takes it back. */
  predicate SameCandidate(c: Candidate, d: Candidate) {
    c.addr == d.addr && c.Base() == d.Base() && c.raddr == d.raddr && c.kind == d.kind
  }

  predicate FirstUsable(cs: seq<Candidate>, k: nat, c: Candidate) {
    k < |cs| && SameCandidate(cs[k], c) && !cs[k].discarded && forall j | 0 <= j < k :: !SameCandidate(cs[j], c)
  }

  /**
   Taking a candidate back discards the first local one that is the same, or if there is none or it is discarded already, the
   first remote one, and takes just the pairs of that one off the checklist; otherwise nothing changes.
   */
  lemma InvalidateDiscards(a: Agent, c: Candidate)
    requires Inv(a)
    ensures var (a', ok) := InvalidateCandidate(a, c);
            if exists k :: FirstUsable(a.local, k, c) then
              var k :| FirstUsable(a.local, k, c);
              && ok && a'.local == WithDiscarded(a.local, k) && a'.remote == a.remote
              && forall x :: x in a'.pairs <==> x in a.pairs && x.localIdx != k
            else if exists k :: FirstUsable(a.remote, k, c) then
              var k :| FirstUsable(a.remote, k, c);
              && ok && a'.local == a.local && a'.remote == WithDiscarded(a.remote, k)
              && forall x :: x in a'.pairs <==> x in a.pairs && x.remoteIdx != k
            else !ok && a' == a
  {
    ExactIsFirst(a.local, c);
    ExactIsFirst(a.remote, c);
    hide FindExact, Inv;
    forall k | 0 <= k < |a.local|
      ensures forall x :: x in Retain(a.pairs, NotWithLocal(k)) <==> x in a.pairs && x.localIdx != k
    {
      RetainFacts(a.pairs, NotWithLocal(k));
    }
    forall k | 0 <= k < |a.remote|
      ensures forall x :: x in Retain(a.pairs, NotWithRemote(k)) <==> x in a.pairs && x.remoteIdx != k
    {
      RetainFacts(a.pairs, NotWithRemote(k));
    }
    hide Retain;
  }

  lemma ExactIsFirst(cs: seq<Candidate>, c: Candidate)
    ensures FindExact(cs, c).Some? && !cs[FindExact(cs, c).value].discarded <==> exists k :: FirstUsable(cs, k, c)
    ensures forall k: nat | FirstUsable(cs, k, c) :: FindExact(cs, c) == Some(k)
  {
    FindFirstIsFirst(cs, (v: Candidate) => v.addr == c.addr && v.Base() == c.Base() && v.raddr == c.raddr && v.kind == c.kind);
    var r := FindExact(cs, c);
    if r.Some? && !cs[r.value].discarded {
      assert FirstUsable(cs, r.value, c);
    }
  }

  // ---------- Remote candidates ----------

  /** The first candidate that was discovered by a request from an address, and not described since. */
  predicate FirstDiscovered(cs: seq<Candidate>, k: nat, at: Address) {
    && k < |cs| && cs[k].kind == PeerReflexive && cs[k].addr == at && cs[k].foundation == Some("tmp_prflx")
    && forall j | 0 <= j < k && cs[j].kind == PeerReflexive && cs[j].addr == at :: cs[j].foundation != Some("tmp_prflx")
  }

  /** A description takes the place of what was discovered at its address, if anything was; all others stay. */
  lemma DescriptionIsPlaced(a: Agent, c: Candidate)
    requires Inv(a) && Legal(a, AddRemote(c))
    ensures var remote, described := AddRemoteCandidate(a, c).remote, c.(ufrag := None);
            if c.componentId != 1 || (a.remoteCreds.Some? && c.ufrag.Some? && c.ufrag != Some(a.remoteCreds.value.ufrag)) then
              AddRemoteCandidate(a, c) == a
            else if exists k :: FirstDiscovered(a.remote, k, c.addr) then
              exists k: nat :: k < |a.remote| && FirstDiscovered(a.remote, k, c.addr) && remote == a.remote[k := described]
            else remote == a.remote + [described]
  {
    FindFirstIsFirst(a.remote, (v: Candidate) => v.IsTempPeerReflexive(c.addr));
    var k := FindTemp(a.remote, c.addr);
    if k.Some? {
      assert FirstDiscovered(a.remote, k.value, c.addr);
    }
    PlaceRemoteKeepsInv(a, c.(ufrag := None));
    hide Inv, FindTemp;
  }

  // ---------- Agents that only answer ----------

  /** A pair that takes the place of another one in such an agent is kept for as long as that one would have been. */
  lemma ReplacementIsAsRecent(a: Agent, l: nat, r: nat, k: nat, now: int)
    requires Inv(a) && a.iceLite && l < |a.local| && !a.local[l].discarded && r < |a.remote| && !a.remote[r].discarded
    requires k < |a.pairs|
    ensures var b := FormPair(a, l, r);
            && |b.pairs| >= |a.pairs|
            && (b.pairs[k].HasRecentRemoteBindingRequest(now) <==> a.pairs[k].HasRecentRemoteBindingRequest(now))
  {
    hide FindRedundant;
    FindRedundantInRange(a, a.local[l], a.remote[r]);
  }
}
