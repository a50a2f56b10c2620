/**
 Every nomination round inside every operation: data moves from one pair to another in no other way, and while its
 pair is on the checklist, only to a pair with a strictly higher priority.
 */
module IceRounds {
  import opened Bytes
  import opened Stun
  import opened IcePair
  import opened IceCandidate
  import opened IceAgentSpec
  import opened IceAgentOps
  import opened IceAgentRuns

  // ---------- The agents that rounds start from, in order ----------

  function AnswerRounds(a: Agent, l: nat, r: nat, req: StunRequest): seq<Agent>
    requires Inv(a) && FindPair(a.pairs, l, r).Some?
  {
    var k := FindPair(a.pairs, l, r).value;
    var a1 := Counted(a, k, req);
    if a.controlling && a1.pairs[k].state == Succeeded then [a1] else []
  }

  function RequestRounds(a: Agent, req: StunRequest): seq<Agent>
    requires Inv(a) && a.remoteCreds.Some?
  {
    if req.remoteUfrag != a.remoteCreds.value.ufrag || (req.useCandidate && a.controlling) then []
    else
      var (a1, r) := WithSource(a, req);
      WithSourceKeepsInv(a, req);
      var dest := FindDestination(a1.local, req.proto, req.destination);
      if dest.None? then []
      else
        var l := dest.value;
        if FindPair(a1.pairs, l, r).None? && a1.local[l].discarded then []
        else
          FoundPairIsUsable(a1, l, r);
          WithPairKeepsInv(a1, l, r);
          AnswerRounds(WithPair(a1, l, r), l, r, req)
  }

  function ResponseRounds(a: Agent, now: int, transId: nat, mapped: Address): seq<Agent>
    requires Inv(a)
  {
    var k := FindAttempt(a.pairs, transId);
    if k.None? then []
    else
      var a1 := Responded(a, now, transId, mapped, k.value);
      if a1.controlling then [a1] else []
  }

  function PacketRounds(a: Agent, now: int, packet: Packet): seq<Agent>
    requires Inv(a) && Parsed(packet.message)
  {
    var m := packet.message;
    if !AcceptsMessage(a, m) then []
    else if m.cls == Request && a.remoteCreds.Some? then
      RequestRounds(a, StunRequest(now, packet.proto, packet.source, packet.destination, m.transId,
                                   m.prio.value, m.useCandidate, m.username.value.1))
    else if m.cls == Success then ResponseRounds(a, now, m.transId, m.mapped.value)
    else []
  }

  function PruneRounds(a: Agent, now: int): seq<Agent>
    requires Inv(a)
  {
    EvaluateNominationKeepsInv(a);
    var a1 := EvaluateNomination(a);
    var pairs := Retain(a1.pairs, Keep(a.iceLite, now));
    [a] + if |pairs| == |a1.pairs| then [] else [a1.(pairs := pairs)]
  }

  function TimeoutRounds(a: Agent, now: int): seq<Agent>
    requires Inv(a)
  {
    var a0 := if a.state == New then EmitEvent(a, IceRestarted(a.localCreds)) else a;
    EmitEventKeepsInv(a, IceRestarted(a.localCreds));
    var a1 := EvaluateState(a0, now);
    EvaluateStateKeepsInv(a0, now);
    var queue := DropOld(a1.stunServerQueue, now);
    QueueKeepsInv(a1, if queue == [] then [] else queue[1..]);
    if a1.remoteCreds.Some? && queue != [] then RequestRounds(a1.(stunServerQueue := queue[1..]), queue[0])
    else
      var a2 := if a1.remoteCreds.Some? then a1.(stunServerQueue := []) else a1;
      TimeKeepsInv(a2, now);
      PruneRounds(a2.(lastNow := Some(now)), now)
  }

  ghost function RoundsOf(a: Agent, op: Op): seq<Agent>
    requires Inv(a) && Legal(a, op)
  {
    match op
    case Receive(now, packet) => PacketRounds(a, now, packet)
    case Timeout(now) => TimeoutRounds(a, now)
    case _ => []
  }

  ghost function AllRounds(a: Agent, ops: seq<Op>): seq<Agent>
    requires LegalRun(a, ops)
    decreases |ops|
  {
    if |ops| == 0 then [] else RoundsOf(a, ops[0]) + AllRounds(Step(a, ops[0]), ops[1..])
  }

  // ---------- What rounds do to the sending pair ----------

  /** Rounds lead from one sending pair to another, and nothing else changes it. */
  ghost predicate Lead(from: Option<nat>, rounds: seq<Agent>, to: Option<nat>)
    decreases |rounds|
  {
    if |rounds| == 0 then to == from
    else
      && Inv(rounds[0]) && NominationInv(rounds[0])
      && rounds[0].nominatedSend == from
      && Lead(EvaluateNomination(rounds[0]).nominatedSend, rounds[1..], to)
  }

  /** A round moves data away from a pair on the checklist only to one with a strictly higher priority. */
  ghost predicate MovesOnlyUp(a: Agent)
    requires Inv(a)
  {
    var a' := EvaluateNomination(a);
    SendingPair(a).Some? && a'.nominatedSend != a.nominatedSend ==>
      && SendingPair(a').Some?
      && a'.pairs[SendingPair(a').value].prio > a.pairs[SendingPair(a).value].prio
  }

  lemma OneRound(a: Agent)
    requires Inv(a) && NominationInv(a)
    ensures Lead(a.nominatedSend, [a], EvaluateNomination(a).nominatedSend)
  {
    hide Inv, NominationInv;
    InvMeans(a);
    assert |[a][1..]| == 0;
  }

  lemma {:induction false} LeadsOn(from: Option<nat>, first: seq<Agent>, via: Option<nat>, second: seq<Agent>, to: Option<nat>)
    requires Lead(from, first, via) && Lead(via, second, to)
    ensures Lead(from, first + second, to)
    decreases |first|
  {
    hide Inv, NominationInv, EvaluateNomination;
    if |first| == 0 {
      assert first + second == second;
    } else {
      assert (first + second)[1..] == first[1..] + second;
      InvMeans(first[0]);
      LeadsOn(EvaluateNomination(first[0]).nominatedSend, first[1..], via, second, to);
    }
  }

  lemma {:induction false} LeadingMovesUp(from: Option<nat>, rounds: seq<Agent>, to: Option<nat>, k: nat)
    requires Lead(from, rounds, to) && k < |rounds|
    ensures Inv(rounds[k]) && NominationInv(rounds[k]) && MovesOnlyUp(rounds[k])
    decreases |rounds|
  {
    hide Inv, NominationInv, EvaluateNomination;
    InvMeans(rounds[0]);
    if k == 0 {
      if SendingPair(rounds[0]).Some? {
        ReplacedOnlyByHigher(rounds[0]);
      }
    } else {
      LeadingMovesUp(EvaluateNomination(rounds[0]).nominatedSend, rounds[1..], to, k - 1);
    }
  }

  // ---------- Every operation ----------

  lemma AnswerLeads(a: Agent, l: nat, r: nat, req: StunRequest)
    requires Inv(a) && NominationInv(a) && FindPair(a.pairs, l, r).Some?
    ensures Lead(a.nominatedSend, AnswerRounds(a, l, r, req), AnswerRequest(a, l, r, req).nominatedSend)
  {
    hide Inv, EvaluateNomination, FindPair, NominationInv, NominationStep, KeepsIds;
    FoundPair(a, l, r);
    var k := FindPair(a.pairs, l, r).value;
    var a1 := Counted(a, k, req);
    CountedKeepsInv(a, k, req);
    CountedStep(a, k, req);
    StepInv(a, a1);
    OneRound(a1);
  }

  lemma RequestLeads(a: Agent, req: StunRequest)
    requires Inv(a) && NominationInv(a) && a.remoteCreds.Some?
    ensures Lead(a.nominatedSend, RequestRounds(a, req), HandleRequest(a, req).nominatedSend)
  {
    hide Inv, WithSource, WithPair, AnswerRequest, AnswerRounds, FindPair, NominationStep, KeepsIds, NominationInv, FindDestination;
    if req.remoteUfrag == a.remoteCreds.value.ufrag && !(req.useCandidate && a.controlling) {
      var (a1, r) := WithSource(a, req);
      WithSourceKeepsInv(a, req);
      MapStep(a, a1);
      StepInv(a, a1);
      var dest := FindDestination(a1.local, req.proto, req.destination);
      DestinationInRange(a1.local, req.proto, req.destination);
      if dest.Some? && !(FindPair(a1.pairs, dest.value, r).None? && a1.local[dest.value].discarded) {
        FoundPairIsUsable(a1, dest.value, r);
        WithPairKeepsInv(a1, dest.value, r);
        WithPairStep(a1, dest.value, r);
        StepInv(a1, WithPair(a1, dest.value, r));
        AnswerLeads(WithPair(a1, dest.value, r), dest.value, r, req);
      }
    }
  }

  lemma ResponseLeads(a: Agent, now: int, transId: nat, mapped: Address)
    requires Inv(a) && NominationInv(a)
    ensures Lead(a.nominatedSend, ResponseRounds(a, now, transId, mapped), HandleResponse(a, now, transId, mapped).nominatedSend)
  {
    hide Inv, NominationInv, EvaluateNomination, EvaluateState, Responded, NominationStep, KeepsIds;
    var k := FindAttempt(a.pairs, transId);
    if k.Some? {
      RespondedKeepsInv(a, now, transId, mapped, k.value);
      RespondedStep(a, now, transId, mapped, k.value);
      var a1 := Responded(a, now, transId, mapped, k.value);
      RespondedSendsOn(a, now, transId, mapped, k.value);
      StepInv(a, a1);
      InvMeans(a1);
      OneRound(a1);
      EvaluateNominationKeepsInv(a1);
      EvaluateStateKeepsInv(if a1.controlling then EvaluateNomination(a1) else a1, now);
    }
  }

  lemma RespondedSendsOn(a: Agent, now: int, transId: nat, mapped: Address, k: nat)
    requires Inv(a) && k < |a.pairs| && a.pairs[k].HasBindingAttempt(transId)
    ensures Responded(a, now, transId, mapped, k).nominatedSend == a.nominatedSend
  {
    WithMappedKeepsInv(a, k, mapped);
    hide Inv, WithMapped;
  }

  lemma PacketLeads(a: Agent, now: int, packet: Packet)
    requires Inv(a) && NominationInv(a) && Parsed(packet.message)
    ensures Lead(a.nominatedSend, PacketRounds(a, now, packet), HandlePacket(a, now, packet).0.nominatedSend)
  {
    hide Inv, NominationInv, HandleRequest, HandleResponse, RequestRounds, ResponseRounds;
    var m := packet.message;
    if AcceptsMessage(a, m) {
      if m.cls == Request && a.remoteCreds.Some? {
        RequestLeads(a, StunRequest(now, packet.proto, packet.source, packet.destination, m.transId,
                                    m.prio.value, m.useCandidate, m.username.value.1));
      } else if m.cls == Success {
        ResponseLeads(a, now, m.transId, m.mapped.value);
      }
    }
  }

  lemma PruneLeads(a: Agent, now: int)
    requires Inv(a) && NominationInv(a)
    ensures Lead(a.nominatedSend, PruneRounds(a, now), Prune(a, now).nominatedSend)
  {
    hide Inv, NominationInv, EvaluateNomination, EvaluateState, Retain, NominationStep, KeepsIds, Lead;
    InvMeans(a);
    OneRound(a);
    EvaluateNominationStep(a);
    EvaluateNominationKeepsInv(a);
    var a1 := EvaluateNomination(a);
    StepInv(a, a1);
    var a2 := a1.(pairs := Retain(a1.pairs, Keep(a.iceLite, now)));
    if |a2.pairs| == |a1.pairs| {
      assert [a] + [] == [a];
    } else {
      RetainKeepsInv(a1, Keep(a.iceLite, now));
      RetainFacts(a1.pairs, Keep(a.iceLite, now));
      MembersStep(a1, a2);
      StepInv(a1, a2);
      InvMeans(a2);
      OneRound(a2);
      LeadsOn(a.nominatedSend, [a], a1.nominatedSend, [a2], EvaluateNomination(a2).nominatedSend);
      EvaluateNominationKeepsInv(a2);
      EvaluateStateKeepsInv(EvaluateNomination(a2), now);
    }
  }

  lemma AdvanceSendsOn(a: Agent, now: int)
    requires Inv(a) && Inv(a.(lastNow := Some(now)))
    ensures Advance(a, now).nominatedSend == Prune(a.(lastNow := Some(now)), now).nominatedSend
  {
    hide Inv, Prune, CountFromNow, NextPair, Scheduled;
  }

  lemma TimeoutLeads(a: Agent, now: int)
    requires Inv(a) && NominationInv(a)
    ensures Lead(a.nominatedSend, TimeoutRounds(a, now), HandleTimeout(a, now).nominatedSend)
  {
    hide Inv, EvaluateState, DropOld, HandleRequest, Advance, RequestRounds, PruneRounds, Lead;
    var a0 := if a.state == New then EmitEvent(a, IceRestarted(a.localCreds)) else a;
    EmitEventKeepsInv(a, IceRestarted(a.localCreds));
    var a1 := EvaluateState(a0, now);
    EvaluateStateKeepsInv(a0, now);
    var queue := DropOld(a1.stunServerQueue, now);
    QueueKeepsInv(a1, if queue == [] then [] else queue[1..]);
    if a1.remoteCreds.Some? && queue != [] {
      RequestLeads(a1.(stunServerQueue := queue[1..]), queue[0]);
    } else {
      var a2 := if a1.remoteCreds.Some? then a1.(stunServerQueue := []) else a1;
      TimeKeepsInv(a2, now);
      AdvanceSendsOn(a2, now);
      PruneLeads(a2.(lastNow := Some(now)), now);
    }
  }

  lemma StepLeads(a: Agent, op: Op)
    requires Inv(a) && NominationInv(a) && Legal(a, op)
    ensures Lead(a.nominatedSend, RoundsOf(a, op), Step(a, op).nominatedSend)
  {
    hide Inv, NominationInv, HandlePacket, HandleTimeout, PacketRounds, TimeoutRounds;
    match op
    case Receive(now, packet) => PacketLeads(a, now, packet);
    case Timeout(now) => TimeoutLeads(a, now);
    case _ =>
  }

  lemma {:induction false} RunLeads(a: Agent, ops: seq<Op>)
    requires Inv(a) && NominationInv(a) && LegalRun(a, ops) && FixedRole(ops)
    ensures Lead(a.nominatedSend, AllRounds(a, ops), Run(a, ops).nominatedSend)
    decreases |ops|
  {
    hide Inv, NominationInv, NominationStep, Step, RoundsOf;
    if |ops| > 0 {
      var b := Step(a, ops[0]);
      StepLeads(a, ops[0]);
      StepKeepsInv(a, ops[0]);
      OpStep(a, ops[0]);
      StepInv(a, b);
      RunLeads(b, ops[1..]);
      LeadsOn(a.nominatedSend, RoundsOf(a, ops[0]), b.nominatedSend, AllRounds(b, ops[1..]), Run(b, ops[1..]).nominatedSend);
    }
  }

  /**
   Over every run of a new agent with a fixed role, the sending pair changes only by nomination rounds, and each of
   them, inside whichever operation, replaces a sending pair on the checklist only by one of strictly higher priority.
   */
  lemma ReplacedOnlyByHigherOverRuns(creds: Creds, controlling: bool, ops: seq<Op>)
    requires LegalRun(NewAgent(creds).(controlling := controlling), ops) && FixedRole(ops)
    ensures var a := NewAgent(creds).(controlling := controlling);
            && Lead(None, AllRounds(a, ops), Run(a, ops).nominatedSend)
            && forall k | 0 <= k < |AllRounds(a, ops)| :: Inv(AllRounds(a, ops)[k]) && MovesOnlyUp(AllRounds(a, ops)[k])
  {
    var a := NewAgent(creds).(controlling := controlling);
    NewAgentInv(creds, controlling);
    NewAgentNominationInv(creds, controlling);
    hide Inv, NominationInv, Lead, MovesOnlyUp, AllRounds;
    RunLeads(a, ops);
    forall k | 0 <= k < |AllRounds(a, ops)| ensures Inv(AllRounds(a, ops)[k]) && MovesOnlyUp(AllRounds(a, ops)[k]) {
      LeadingMovesUp(None, AllRounds(a, ops), Run(a, ops).nominatedSend, k);
    }
  }
}
