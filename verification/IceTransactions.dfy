/**
 The transaction ids of checks over whole runs of the ICE agent: each new one was not used before, so that a reply belongs
 to one check only.
 */
module IceTransactions {
  import opened Bytes
  import opened Stun
  import opened IcePair
  import opened IceCandidate
  import opened IceAgentSpec
  import opened IceAgentOps
  import opened IceAgentRuns
  import opened IceExchange
  import opened IceTicks

  /** All checks were sent under ids that were given out. */
  predicate SentBelow(x: Pair, n: nat) {
    forall j | 0 <= j < |x.attempts| :: x.attempts[j].transId < n
  }

  ghost predicate IdsGivenOut(a: Agent) {
    forall x | x in a.pairs :: SentBelow(x, a.nextId)
  }

  /** Then the next id is a new one. */
  lemma NextIsNew(a: Agent)
    requires IdsGivenOut(a)
    ensures NextIdIsNew(a)
  {
    forall x | x in a.pairs ensures !x.HasBindingAttempt(a.nextId) {
      assert SentBelow(x, a.nextId);
    }
  }

  /** Pairs stay or go, or come without checks. */
  lemma MembersGivenOut(a: Agent, b: Agent)
    requires IdsGivenOut(a) && a.nextId <= b.nextId
    requires forall y | y in b.pairs :: y in a.pairs || y.attempts == []
    ensures IdsGivenOut(b)
  {
    forall y | y in b.pairs ensures SentBelow(y, b.nextId) {
      if y in a.pairs {
        assert SentBelow(y, a.nextId);
      }
    }
  }

  /** The same pairs with the same checks, but for answers to them. */
  lemma SameGivenOut(a: Agent, b: Agent)
    requires IdsGivenOut(a) && a.nextId <= b.nextId && |b.pairs| == |a.pairs|
    requires forall k | 0 <= k < |a.pairs| :: SentBelow(a.pairs[k], a.nextId) ==> SentBelow(b.pairs[k], b.nextId)
    ensures IdsGivenOut(b)
  {
    forall y | y in b.pairs ensures SentBelow(y, b.nextId) {
      var k :| 0 <= k < |b.pairs| && b.pairs[k] == y;
      assert a.pairs[k] in a.pairs;
    }
  }

  lemma SameAttempts(x: Pair, y: Pair, n: nat, m: nat)
    requires SentBelow(x, n) && n <= m && y.attempts == x.attempts
    ensures SentBelow(y, m)
  {
  }

  lemma RoundGivenOut(a: Agent)
    requires IdsGivenOut(a) && Inv(a) && AllWellFormed(a.pairs, a.local, a.remote)
    ensures IdsGivenOut(EvaluateNomination(a))
  {
    RoundSameChecks(a);
    EvaluateNominationKeepsInv(a);
    var b := EvaluateNomination(a);
    hide Inv, EvaluateNomination, SentBelow;
    forall k | 0 <= k < |a.pairs| ensures SentBelow(a.pairs[k], a.nextId) ==> SentBelow(b.pairs[k], b.nextId) {
      if SentBelow(a.pairs[k], a.nextId) {
        SameAttempts(a.pairs[k], b.pairs[k], a.nextId, b.nextId);
      }
    }
    SameGivenOut(a, b);
  }

  lemma AddLocalGivenOut(a: Agent, c: Candidate)
    requires Inv(a) && Legal(a, AddLocal(c)) && IdsGivenOut(a)
    ensures IdsGivenOut(AddLocalCandidate(a, c).0)
  {
    hide Inv, FormPairs, FindSame, Retain, Candidate.Prio, IdsGivenOut;
    if !(a.iceLite && c.kind != Host) {
      var c1 := Adopted(a, c);
      var same := FindSame(a.local, c1);
      SameInRange(a.local, c1);
      if same.Some? {
        DiscardLocalKeepsInv(a, same.value);
        RetainFacts(a.pairs, NotWithLocal(same.value));
      }
      var a1 := if same.Some? then DiscardLocal(a, same.value) else a;
      assert OnlyMembers(a, a1);
      PushLocalKeepsForming(a1, c1);
      var a2 := a1.(local := a1.local + [c1]);
      FormPairsMembers(a2, [|a1.local|], PairableFrom(a1.remote, c1.addr.ipv6, 0));
      MembersGivenOut(a, AddLocalCandidate(a, c).0);
    }
  }

  lemma AddRemoteGivenOut(a: Agent, c: Candidate)
    requires Inv(a) && Legal(a, AddRemote(c)) && IdsGivenOut(a)
    ensures IdsGivenOut(AddRemoteCandidate(a, c))
  {
    hide Inv, FormPairs, IdsGivenOut;
    if c.componentId == 1 && !(a.remoteCreds.Some? && c.ufrag.Some? && c.ufrag.value != a.remoteCreds.value.ufrag) {
      var (a1, idx) := PlaceRemote(a, c.(ufrag := None));
      PlaceRemoteKeepsInv(a, c.(ufrag := None));
      InvIsForming(a1);
      FormPairsMembers(a1, PairableFrom(a.local, c.addr.ipv6, 0), [idx]);
      MembersGivenOut(a, AddRemoteCandidate(a, c));
    }
  }

  lemma InvalidateGivenOut(a: Agent, c: Candidate)
    requires Inv(a) && IdsGivenOut(a)
    ensures IdsGivenOut(InvalidateCandidate(a, c).0)
  {
    hide Inv, FindExact, IdsGivenOut;
    var l, r := FindExact(a.local, c), FindExact(a.remote, c);
    if l.Some? {
      RetainFacts(a.pairs, NotWithLocal(l.value));
    }
    if r.Some? {
      RetainFacts(a.pairs, NotWithRemote(r.value));
    }
    MembersGivenOut(a, InvalidateCandidate(a, c).0);
  }

  lemma AnswerGivenOut(a: Agent, l: nat, r: nat, req: StunRequest)
    requires Inv(a) && FindPair(a.pairs, l, r).Some? && IdsGivenOut(a)
    ensures IdsGivenOut(AnswerRequest(a, l, r, req))
  {
    FoundPair(a, l, r);
    var k := FindPair(a.pairs, l, r).value;
    var a1 := Counted(a, k, req);
    assert IdsGivenOut(a1) by {
      SameGivenOut(a, a1);
    }
    hide Inv, EvaluateNomination, FindPair, IdsGivenOut;
    CountedKeepsInv(a, k, req);
    InvMeans(a1);
    RoundGivenOut(a1);
    EvaluateNominationKeepsInv(a1);
    var a2 := if a.controlling && a1.pairs[k].state == Succeeded then EvaluateNomination(a1) else a1;
    SamePairsGivenOut(a2, AnswerRequest(a, l, r, req));
  }

  lemma SamePairsGivenOut(a: Agent, b: Agent)
    requires IdsGivenOut(a) && b.pairs == a.pairs && b.nextId == a.nextId
    ensures IdsGivenOut(b)
  {
  }

  lemma PairGivenOut(a: Agent, l: nat, r: nat)
    requires Inv(a) && l < |a.local| && r < |a.remote| && !a.local[l].discarded && !a.remote[r].discarded && IdsGivenOut(a)
    ensures IdsGivenOut(WithPair(a, l, r))
  {
    hide Inv, SortPairs, IdsGivenOut;
    if FindPair(a.pairs, l, r).None? {
      SortPairsFacts(a.pairs + [WithPairNew(a, l, r)]);
      MembersGivenOut(a, WithPair(a, l, r));
    }
  }

  lemma RequestGivenOut(a: Agent, req: StunRequest)
    requires Inv(a) && a.remoteCreds.Some? && IdsGivenOut(a)
    ensures IdsGivenOut(HandleRequest(a, req))
  {
    hide Inv, WithSource, WithPair, AnswerRequest, FindPair, FindDestination, IdsGivenOut;
    if req.remoteUfrag == a.remoteCreds.value.ufrag && !(req.useCandidate && a.controlling) {
      var (a1, r) := WithSource(a, req);
      WithSourceKeepsInv(a, req);
      SamePairsGivenOut(a, a1);
      var dest := FindDestination(a1.local, req.proto, req.destination);
      if dest.Some? && !(FindPair(a1.pairs, dest.value, r).None? && a1.local[dest.value].discarded) {
        DestinationInRange(a1.local, req.proto, req.destination);
        FoundPairIsUsable(a1, dest.value, r);
        WithPairKeepsInv(a1, dest.value, r);
        PairGivenOut(a1, dest.value, r);
        AnswerGivenOut(WithPair(a1, dest.value, r), dest.value, r, req);
      }
    }
  }

  lemma RespondedGivenOut(a: Agent, now: int, transId: nat, mapped: Address, k: nat)
    requires Inv(a) && k < |a.pairs| && a.pairs[k].HasBindingAttempt(transId) && IdsGivenOut(a)
    ensures IdsGivenOut(Responded(a, now, transId, mapped, k))
  {
    WithMappedKeepsInv(a, k, mapped);
    hide Inv, WithMapped;
    SameGivenOut(a, Responded(a, now, transId, mapped, k));
  }

  lemma ResponseGivenOut(a: Agent, now: int, transId: nat, mapped: Address)
    requires Inv(a) && IdsGivenOut(a)
    ensures IdsGivenOut(HandleResponse(a, now, transId, mapped))
  {
    hide Inv, EvaluateNomination, EvaluateState, Responded, IdsGivenOut;
    var k := FindAttempt(a.pairs, transId);
    if k.Some? {
      RespondedKeepsInv(a, now, transId, mapped, k.value);
      RespondedGivenOut(a, now, transId, mapped, k.value);
      var a1 := Responded(a, now, transId, mapped, k.value);
      InvMeans(a1);
      EvaluateNominationKeepsInv(a1);
      RoundGivenOut(a1);
      var a2 := if a1.controlling then EvaluateNomination(a1) else a1;
      EvaluateStateKeepsInv(a2, now);
      SamePairsGivenOut(a2, HandleResponse(a, now, transId, mapped));
    }
  }

  lemma PacketGivenOut(a: Agent, now: int, packet: Packet)
    requires Inv(a) && Parsed(packet.message) && IdsGivenOut(a)
    ensures IdsGivenOut(HandlePacket(a, now, packet).0)
  {
    hide Inv, HandleRequest, HandleResponse, AcceptsMessage, IdsGivenOut;
    var m := packet.message;
    if AcceptsMessage(a, m) {
      ParsedRequest(a, m);
      var b := a;
      if m.cls == Request {
        b := HandleMessage(a, now, packet);
        if a.remoteCreds.Some? {
          RequestGivenOut(a, StunRequest(now, packet.proto, packet.source, packet.destination, m.transId,
                                         m.prio.value, m.useCandidate, m.username.value.1));
        } else {
          SamePairsGivenOut(a, b);
        }
      } else if m.cls == Success {
        b := HandleResponse(a, now, m.transId, m.mapped.value);
        ResponseGivenOut(a, now, m.transId, m.mapped.value);
      }
      SamePairsGivenOut(b, HandlePacket(a, now, packet).0);
    }
  }

  lemma PruneGivenOut(a: Agent, now: int)
    requires Inv(a) && IdsGivenOut(a)
    ensures IdsGivenOut(Prune(a, now))
  {
    hide Inv, EvaluateNomination, EvaluateState, Retain, IdsGivenOut;
    InvMeans(a);
    EvaluateNominationKeepsInv(a);
    RoundGivenOut(a);
    var a1 := EvaluateNomination(a);
    RetainFacts(a1.pairs, Keep(a.iceLite, now));
    RetainKeepsInv(a1, Keep(a.iceLite, now));
    var a2 := a1.(pairs := Retain(a1.pairs, Keep(a.iceLite, now)));
    MembersGivenOut(a1, a2);
    InvMeans(a2);
    EvaluateNominationKeepsInv(a2);
    RoundGivenOut(a2);
    EvaluateStateKeepsInv(EvaluateNomination(a2), now);
    SamePairsGivenOut(EvaluateNomination(a2), EvaluateState(EvaluateNomination(a2), now));
  }

  /** The pairs of an agent that a tick is about to check. */
  lemma BeforeGivenOut(a: Agent, now: int)
    requires Inv(a) && IdsGivenOut(a)
    ensures IdsGivenOut(BeforeChecks(a, now))
  {
    hide Inv, Prune, EvaluateState, IdsGivenOut;
    var a0 := if a.state == New then EmitEvent(a, IceRestarted(a.localCreds)) else a;
    EmitEventKeepsInv(a, IceRestarted(a.localCreds));
    var a1 := EvaluateState(a0, now);
    EvaluateStateKeepsInv(a0, now);
    QueueKeepsInv(a1, []);
    var a2 := if a1.remoteCreds.Some? then a1.(stunServerQueue := []) else a1;
    TimeKeepsInv(a2, now);
    SamePairsGivenOut(a, a2.(lastNow := Some(now)));
    PruneGivenOut(a2.(lastNow := Some(now)), now);
  }

  lemma CheckGivenOut(m: Agent, now: int)
    requires Inv(m) && m.remoteCreds.Some? && IdsGivenOut(m)
    ensures IdsGivenOut(CheckDue(m, now))
  {
    hide Inv, NextPair, IdsGivenOut, SendCheck, Pair.NextBindingAttempt;
    var m1 := m.(pairs := Scheduled(m.pairs, now));
    ScheduledGivenOut(m, now);
    ScheduledKeepsInv(m, now);
    hide Scheduled;
    var next := NextPair(m.pairs, now);
    if next.Some? {
      NextInRange(m.pairs, now);
      SendGivenOut(m1, now, next.value);
    }
  }

  lemma NextInRange(pairs: seq<Pair>, now: int)
    ensures NextPair(pairs, now).Some? ==> NextPair(pairs, now).value < |pairs|
  {
  }

  lemma ScheduledGivenOut(m: Agent, now: int)
    requires IdsGivenOut(m)
    ensures IdsGivenOut(m.(pairs := Scheduled(m.pairs, now)))
  {
    ScheduledKeepsPairs(m.pairs, now);
    var m1 := m.(pairs := Scheduled(m.pairs, now));
    hide Scheduled;
    SameGivenOut(m, m1);
  }

  lemma SendGivenOut(m: Agent, now: int, k: nat)
    requires Inv(m) && m.remoteCreds.Some? && k < |m.pairs| && IdsGivenOut(m)
    ensures IdsGivenOut(SendCheck(m, now, k))
  {
    PairsAreValid(m, k);
    assert m.pairs[k] in m.pairs;
    AttemptGivenOut(m.pairs[k], now, m.nextId);
    hide Inv, Pair.NewAttempt, Candidate.DoPrio;
    var b := SendCheck(m, now, k);
    forall j | 0 <= j < |m.pairs| ensures SentBelow(m.pairs[j], m.nextId) ==> SentBelow(b.pairs[j], b.nextId) {
    }
    SameGivenOut(m, b);
  }

  lemma AttemptGivenOut(x: Pair, now: int, id: nat)
    requires SentBelow(x, id)
    ensures SentBelow(x.NewAttempt(now, id), id + 1)
  {
  }

  lemma TimeoutGivenOut(a: Agent, now: int)
    requires Inv(a) && IdsGivenOut(a)
    ensures IdsGivenOut(HandleTimeout(a, now))
  {
    hide Inv, HandleTimeout, BeforeChecks, CheckDue, CountFromNow, IdsGivenOut, HandleRequest;
    if NoneQueued(a, now) {
      TimeoutIs(a, now);
      BeforeGivenOut(a, now);
      var m := BeforeChecks(a, now);
      if m.remoteCreds.Some? && m.iceLite {
        CountedGivenOut(m, now);
      } else if m.remoteCreds.Some? {
        CheckGivenOut(m, now);
      }
    } else {
      var b := TickHandles(a, now);
      var queue := DropOld(a.stunServerQueue, now);
      SamePairsGivenOut(a, b.(stunServerQueue := queue[1..]));
      RequestGivenOut(b.(stunServerQueue := queue[1..]), queue[0]);
    }
  }

  lemma CountedGivenOut(m: Agent, now: int)
    requires IdsGivenOut(m)
    ensures IdsGivenOut(m.(pairs := CountFromNow(m.pairs, now)))
  {
    SameGivenOut(m, m.(pairs := CountFromNow(m.pairs, now)));
  }

  lemma StepGivenOut(a: Agent, op: Op)
    requires Inv(a) && Legal(a, op) && IdsGivenOut(a)
    ensures IdsGivenOut(Step(a, op))
  {
    hide Inv, IdsGivenOut, AddLocalCandidate, AddRemoteCandidate, InvalidateCandidate, HandlePacket, HandleTimeout, PollTimeout;
    match op
    case AddLocal(c) => AddLocalGivenOut(a, c);
    case AddRemote(c) => AddRemoteGivenOut(a, c);
    case Invalidate(c) => InvalidateGivenOut(a, c);
    case Restart(creds, keepLocal) => MembersGivenOut(a, Step(a, op));
    case Receive(now, packet) => PacketGivenOut(a, now, packet);
    case Timeout(now) => TimeoutGivenOut(a, now);
    case AskTimeout => PollGivenOut(a);
    case _ => SamePairsGivenOut(a, Step(a, op));
  }

  lemma PollGivenOut(a: Agent)
    requires IdsGivenOut(a)
    ensures IdsGivenOut(PollTimeout(a).0)
  {
    hide Scheduled, NextPair, IdsGivenOut;
    if a.lastNow.Some? {
      ScheduledGivenOut(a, a.lastNow.value);
    }
  }

  lemma {:induction false} RunGivenOut(a: Agent, ops: seq<Op>)
    requires Inv(a) && LegalRun(a, ops) && IdsGivenOut(a)
    ensures IdsGivenOut(Run(a, ops))
    decreases |ops|
  {
    hide Inv, Step, IdsGivenOut;
    if |ops| > 0 {
      StepKeepsInv(a, ops[0]);
      StepGivenOut(a, ops[0]);
      RunGivenOut(Step(a, ops[0]), ops[1..]);
    }
  }

  /** A new agent after a run. */
  ghost function After(a: Agent, ops: seq<Op>): (b: Agent)
    requires IsNew(a) && LegalRun(a, ops)
    ensures Inv(b)
  {
    NewIsFine(a);
    RunKeepsInv(a, ops);
    Run(a, ops)
  }

  predicate IsNew(a: Agent) {
    a == NewAgent(a.localCreds).(controlling := a.controlling)
  }

  lemma NewIsFine(a: Agent)
    requires IsNew(a)
    ensures Inv(a) && IdsGivenOut(a)
  {
    NewAgentInv(a.localCreds, a.controlling);
  }

  /**
   After any runs of two new agents: if each has the other's credentials, one of them controls and the other does not, and
   one sends a check to an address at which the other one listens, then the reply makes the pair that was checked succeed.
   */
  lemma CheckSucceedsAfterRuns(a0: Agent, aOps: seq<Op>, b0: Agent, bOps: seq<Op>, now: int, seen: Address,
                               destination: Address, bNow: int, aNow: int)
    requires IsNew(a0) && IsNew(b0) && LegalRun(a0, aOps) && LegalRun(b0, bOps)
    requires var a, b := After(a0, aOps), After(b0, bOps);
             && AreEachOthers(a, b) && b.remoteCreds.Some? && a.controlling != b.controlling
             && SendsCheck(a.transmit, HandleTimeout(a, now).transmit) && Listens(b, SentBy(a, now).proto, destination)
    ensures var a, b := After(a0, aOps), After(b0, bOps);
            && SentBy(a, now).contents.CheckRequest? && SplitName(SentBy(a, now).contents.username).Some?
            && Inv(HandleTimeout(a, now))
            && var b' := HandleRequest(b, RequestFor(SentBy(a, now), seen, destination, bNow));
               MakesSucceed(SentBy(a, now), b, b', HandleTimeout(a, now), seen, aNow)
  {
    var a, b := After(a0, aOps), After(b0, bOps);
    assert Inv(a0) && IdsGivenOut(a0) by { NewIsFine(a0); }
    RunGivenOut(a0, aOps);
    assert IdsGivenOut(a);
    hide *;
    BeforeGivenOut(a, now);
    NextIsNew(BeforeChecks(a, now));
    CheckSucceeds(a, b, now, seen, destination, bNow, aNow);
  }
}
