/**
 Two ICE agents with each other's credentials: the checks that one sends are accepted by the other, the replies come back
 to where the checks came from, and make the pairs that were checked succeed.
 */
module IceExchange {
  import opened Bytes
  import opened Stun
  import opened IcePair
  import opened IceCandidate
  import opened IceAgentSpec
  import opened IceAgentOps
  import opened IceAgentRuns

  // ---------- What is sent, as the other side reads it ----------

  /** A name split at its first colon, if something comes after it. */
  function SplitName(name: string): Option<(string, string)> {
    if name == "" then None
    else if name[0] == ':' then if |name| > 1 then Some(("", name[1..])) else None
    else
      var rest := SplitName(name[1..]);
      if rest.None? then None else Some(([name[0]] + rest.value.0, rest.value.1))
  }

  lemma {:induction false} NameSplits(before: string, after: string)
    requires ':' !in before && after != ""
    ensures SplitName(before + ":" + after) == Some((before, after))
  {
    var name := before + ":" + after;
    if before == "" {
      assert name[1..] == after;
    } else {
      NameSplits(before[1..], after);
      assert name[1..] == before[1..] + ":" + after;
      assert [before[0]] + before[1..] == before;
    }
  }

  /** A message that was sent, after parsing: its hash is right under the password that it was made with. */
  function AsMessage(sent: Outgoing): Message {
    match sent
    case CheckRequest(transId, username, password, controlling, prio, useCandidate) =>
      Message(true, Request, transId, SplitName(username), Some(prio), useCandidate, None, pass => pass == password)
    case CheckReply(transId, password, mapped) =>
      Message(true, Success, transId, None, None, false, Some(mapped), pass => pass == password)
  }

  /** Agent b has the credentials that a takes to be the other side's, and does not know a's yet, or knows them rightly. */
  predicate AreEachOthers(a: Agent, b: Agent) {
    && a.remoteCreds == Some(b.localCreds)
    && (b.remoteCreds.None? || b.remoteCreds == Some(a.localCreds))
    && ':' !in b.localCreds.ufrag && a.localCreds.ufrag != ""
  }

  // ---------- What a tick sends ----------

  /** What an answer to a request may add to what is transmitted. */
  lemma AnswerTransmits(a: Agent, l: nat, r: nat, req: StunRequest)
    requires Inv(a) && FindPair(a.pairs, l, r).Some?
    ensures l < |a.local| && r < |a.remote|
    ensures AnswerRequest(a, l, r, req).transmit ==
            a.transmit + [Transmit(a.local[l].proto, a.local[l].Base(), a.remote[r].addr,
                                   CheckReply(req.transId, a.localCreds.pass, req.source))]
  {
    hide EvaluateNomination, FindPair, Counted;
    FoundPair(a, l, r);
    var k := FindPair(a.pairs, l, r).value;
    InvMeans(a);
    CountedKeepsInv(a, k, req);
    CountedSame(a, k, req);
    InvMeans(Counted(a, k, req));
    EvaluateNominationKeepsInv(Counted(a, k, req));
    PairInRange(a, l, r);
    hide Inv;
  }

  lemma PairInRange(a: Agent, l: nat, r: nat)
    requires Inv(a) && FindPair(a.pairs, l, r).Some?
    ensures l < |a.local| && r < |a.remote|
  {
  }

  lemma CountedSame(a: Agent, k: nat, req: StunRequest)
    requires k < |a.pairs|
    ensures var b := Counted(a, k, req);
            b.transmit == a.transmit && b.local == a.local && b.remote == a.remote && b.localCreds == a.localCreds
            && b.controlling == a.controlling && |b.pairs| == |a.pairs|
  {
  }

  /** A request makes the agent send a reply, or nothing. */
  lemma RequestTransmits(a: Agent, req: StunRequest)
    requires Inv(a) && a.remoteCreds.Some?
    ensures var t := HandleRequest(a, req).transmit;
            t == a.transmit || (|t| > 0 && t[|t| - 1].contents.CheckReply?)
  {
    hide Inv, WithSource, WithPair, AnswerRequest, FindPair, FindDestination;
    if req.remoteUfrag == a.remoteCreds.value.ufrag && !(req.useCandidate && a.controlling) {
      var (a1, r) := WithSource(a, req);
      WithSourceKeepsInv(a, req);
      var dest := FindDestination(a1.local, req.proto, req.destination);
      DestinationInRange(a1.local, req.proto, req.destination);
      if dest.Some? && !(FindPair(a1.pairs, dest.value, r).None? && a1.local[dest.value].discarded) {
        FoundPairIsUsable(a1, dest.value, r);
        WithPairKeepsInv(a1, dest.value, r);
        AnswerTransmits(WithPair(a1, dest.value, r), dest.value, r, req);
      }
    }
  }

  /** The checklist of an agent changes in time, but not who it is and what it has to send. */
  predicate SameSelf(a: Agent, b: Agent) {
    && b.localCreds == a.localCreds && b.remoteCreds == a.remoteCreds && b.controlling == a.controlling
    && b.iceLite == a.iceLite && b.local == a.local && b.remote == a.remote && b.transmit == a.transmit && b.nextId == a.nextId
  }

  lemma PruneSame(a: Agent, now: int)
    requires Inv(a)
    ensures SameSelf(a, Prune(a, now))
  {
    hide Inv, EvaluateNomination, EvaluateState, Retain;
    InvMeans(a);
    EvaluateNominationKeepsInv(a);
    var a1 := EvaluateNomination(a);
    RetainKeepsInv(a1, Keep(a.iceLite, now));
    var a2 := a1.(pairs := Retain(a1.pairs, Keep(a.iceLite, now)));
    InvMeans(a2);
    EvaluateNominationKeepsInv(a2);
    EvaluateStateKeepsInv(EvaluateNomination(a2), now);
  }

  /** The agent as it is when a tick comes to its checks, after pruning. */
  function BeforeChecks(a: Agent, now: int): Agent
    requires Inv(a)
  {
    var a0 := if a.state == New then EmitEvent(a, IceRestarted(a.localCreds)) else a;
    EmitEventKeepsInv(a, IceRestarted(a.localCreds));
    var a1 := EvaluateState(a0, now);
    EvaluateStateKeepsInv(a0, now);
    QueueKeepsInv(a1, []);
    var a2 := if a1.remoteCreds.Some? then a1.(stunServerQueue := []) else a1;
    TimeKeepsInv(a2, now);
    Prune(a2.(lastNow := Some(now)), now)
  }

  lemma BeforeChecksSame(a: Agent, now: int)
    requires Inv(a)
    ensures Inv(BeforeChecks(a, now)) && SameSelf(a, BeforeChecks(a, now))
  {
    hide Inv, Prune, EvaluateState;
    var a0 := if a.state == New then EmitEvent(a, IceRestarted(a.localCreds)) else a;
    EmitEventKeepsInv(a, IceRestarted(a.localCreds));
    var a1 := EvaluateState(a0, now);
    EvaluateStateKeepsInv(a0, now);
    QueueKeepsInv(a1, []);
    var a2 := if a1.remoteCreds.Some? then a1.(stunServerQueue := []) else a1;
    TimeKeepsInv(a2, now);
    PruneSame(a2.(lastNow := Some(now)), now);
    PruneKeepsInv(a2.(lastNow := Some(now)), now);
  }

  /** No request waits to be answered first. */
  predicate NoneQueued(a: Agent, now: int) {
    a.remoteCreds.None? || DropOld(a.stunServerQueue, now) == []
  }

  lemma TimeoutIs(a: Agent, now: int)
    requires Inv(a)
    ensures NoneQueued(a, now) ==>
              var m := BeforeChecks(a, now);
              Inv(m) && HandleTimeout(a, now) ==
                        if m.remoteCreds.None? then m
                        else if m.iceLite then m.(pairs := CountFromNow(m.pairs, now))
                        else CheckDue(m, now)
    ensures !NoneQueued(a, now) ==>
              var t := HandleTimeout(a, now).transmit; t == a.transmit || (|t| > 0 && t[|t| - 1].contents.CheckReply?)
  {
    hide Inv, Prune, EvaluateState, HandleRequest, CheckDue, CountFromNow, DropOld;
    var a0 := if a.state == New then EmitEvent(a, IceRestarted(a.localCreds)) else a;
    EmitEventKeepsInv(a, IceRestarted(a.localCreds));
    var a1 := EvaluateState(a0, now);
    EvaluateStateKeepsInv(a0, now);
    var queue := DropOld(a1.stunServerQueue, now);
    QueueKeepsInv(a1, if queue == [] then [] else queue[1..]);
    if NoneQueued(a, now) {
      BeforeChecksSame(a, now);
    } else {
      RequestTransmits(a1.(stunServerQueue := queue[1..]), queue[0]);
    }
  }

  /** A pair of the agent is due to be checked. */
  predicate AnyDue(m: Agent, now: int) {
    exists k :: 0 <= k < |m.pairs| && m.pairs[k].NextBindingAttempt(now).1 <= now
  }

  /** A tick sends at most one check, and does if and only if the agent checks at all, and some pair is due. */
  lemma CheckIsSentIff(a: Agent, now: int)
    requires Inv(a) && NoneQueued(a, now)
    ensures var t, m := HandleTimeout(a, now).transmit, BeforeChecks(a, now);
            if a.remoteCreds.Some? && !a.iceLite && AnyDue(m, now) then
              |t| == |a.transmit| + 1 && t[..|a.transmit|] == a.transmit && t[|a.transmit|].contents.CheckRequest?
            else t == a.transmit
  {
    TimeoutIs(a, now);
    BeforeChecksSame(a, now);
    var m := BeforeChecks(a, now);
    hide Inv, Scheduled, HandleTimeout, BeforeChecks, Pair.NextBindingAttempt, Pair.NewAttempt;
    if m.remoteCreds.Some? && !m.iceLite {
      MapKeepsInv(m, Scheduled(m.pairs, now)) by {
        ScheduledKeepsPairs(m.pairs, now);
      }
      DueIsNext(m, now);
      CheckDueTransmits(m, now);
    }
  }

  lemma ScheduledKeepsPairs(pairs: seq<Pair>, now: int)
    ensures var r := Scheduled(pairs, now);
            forall k | 0 <= k < |pairs| :: r[k] == pairs[k].(cachedNext := r[k].cachedNext)
  {
  }

  lemma DueIsNext(m: Agent, now: int)
    ensures var next := NextPair(m.pairs, now);
            AnyDue(m, now) <==> next.Some? && m.pairs[next.value].NextBindingAttempt(now).1 <= now
  {
    hide NextPair, Pair.NextBindingAttempt;
  }

  lemma CheckDueTransmits(m: Agent, now: int)
    requires Inv(m) && m.remoteCreds.Some?
    ensures var next, t := NextPair(m.pairs, now), CheckDue(m, now).transmit;
            if next.Some? && m.pairs[next.value].NextBindingAttempt(now).1 <= now then
              |t| == |m.transmit| + 1 && t[..|m.transmit|] == m.transmit && t[|m.transmit|].contents.CheckRequest?
            else t == m.transmit
  {
    hide NextPair, Pair.NextBindingAttempt, Pair.NewAttempt, Scheduled, Inv;
    var a1 := m.(pairs := Scheduled(m.pairs, now));
    ScheduledKeepsInv(m, now);
  }

  /** What was sent last is new, and a check. */
  predicate SendsCheck(before: seq<Transmit>, after: seq<Transmit>) {
    |after| > |before| && after[|after| - 1].contents.CheckRequest?
  }

  lemma CheckDueIs(m: Agent, now: int)
    requires Inv(m) && m.remoteCreds.Some? && AnyDue(m, now)
    ensures var next, m1 := NextPair(m.pairs, now), m.(pairs := Scheduled(m.pairs, now));
            next.Some? && next.value < |m1.pairs| && Inv(m1) && CheckDue(m, now) == SendCheck(m1, now, next.value)
  {
    hide Inv, Scheduled, SendCheck, Pair.NextBindingAttempt;
    DueIsNext(m, now);
    ScheduledKeepsInv(m, now);
  }

  lemma CheckingAgent(a: Agent, now: int)
    requires Inv(a) && SendsCheck(a.transmit, HandleTimeout(a, now).transmit)
    ensures NoneQueued(a, now) && a.remoteCreds.Some? && !a.iceLite && AnyDue(BeforeChecks(a, now), now)
  {
    hide Inv, HandleTimeout, BeforeChecks, AnyDue, NoneQueued, CheckDue, CountFromNow;
    if NoneQueued(a, now) {
      CheckIsSentIff(a, now);
    } else {
      TimeoutIs(a, now);
    }
  }

  /** A check that a tick has sent is the work of one pair of the agent as it is then. */
  lemma CheckSays(a: Agent, now: int) returns (m: Agent, k: nat)
    requires Inv(a) && SendsCheck(a.transmit, HandleTimeout(a, now).transmit)
    ensures Inv(m) && SameSelf(a, m) && m.remoteCreds.Some? && k < |m.pairs| && HandleTimeout(a, now) == SendCheck(m, now, k)
    ensures m == BeforeChecks(a, now).(pairs := Scheduled(BeforeChecks(a, now).pairs, now))
  {
    hide Inv, Scheduled, HandleTimeout, BeforeChecks, SendCheck, NoneQueued, AnyDue, SendsCheck, CheckDue, NextPair;
    CheckingAgent(a, now);
    TimeoutIs(a, now);
    BeforeChecksSame(a, now);
    var b := BeforeChecks(a, now);
    CheckDueIs(b, now);
    m := b.(pairs := Scheduled(b.pairs, now));
    k := NextPair(b.pairs, now).value;
  }

  // ---------- The other side accepts it ----------

  /** The check that a tick has sent. */
  function SentBy(a: Agent, now: int): Transmit
    requires Inv(a) && SendsCheck(a.transmit, HandleTimeout(a, now).transmit)
  {
    var t := HandleTimeout(a, now).transmit;
    t[|t| - 1]
  }

  /** What a check for a pair carries, besides its names and password. */
  lemma SentIs(a: Agent, now: int) returns (m: Agent, k: nat)
    requires Inv(a) && SendsCheck(a.transmit, HandleTimeout(a, now).transmit)
    ensures Inv(m) && SameSelf(a, m) && m.remoteCreds.Some? && k < |m.pairs| && HandleTimeout(a, now) == SendCheck(m, now, k)
    ensures m == BeforeChecks(a, now).(pairs := Scheduled(BeforeChecks(a, now).pairs, now))
    ensures m.pairs[k].localIdx < |m.local| && m.pairs[k].remoteIdx < |m.remote| && m.local[m.pairs[k].localIdx].Valid()
    ensures var p := m.pairs[k];
            var l, r := m.local[p.localIdx], m.remote[p.remoteIdx];
            SentBy(a, now) == Transmit(l.proto, l.Base(), r.addr,
                                       CheckRequest(a.nextId, a.remoteCreds.value.ufrag + ":" + a.localCreds.ufrag,
                                                    a.remoteCreds.value.pass, a.controlling, l.DoPrio(true),
                                                    a.controlling && p.IsNominated()))
  {
    m, k := CheckSays(a, now);
    PairsAreValid(m, k);
    hide Inv, HandleTimeout, BeforeChecks, Scheduled, Pair.NewAttempt, Candidate.DoPrio;
  }

  /** A check that an agent sends is accepted by the agent that it is for. */
  lemma CheckIsAccepted(a: Agent, b: Agent, now: int)
    requires Inv(a) && Inv(b) && AreEachOthers(a, b) && SendsCheck(a.transmit, HandleTimeout(a, now).transmit)
    ensures var message := AsMessage(SentBy(a, now).contents);
            Parsed(message) && AcceptsMessage(b, message)
  {
    hide Inv, HandleTimeout, SplitName, SentBy, SendCheck, BeforeChecks;
    var m, k := SentIs(a, now);
    NameSplits(b.localCreds.ufrag, a.localCreds.ufrag);
  }

  /**
   A check is accepted by those agents only that have the credentials it is meant for, and do not know another name for the
   agent that sent it.
   */
  lemma CheckIsAcceptedIff(a: Agent, b: Agent, now: int)
    requires Inv(a) && Inv(b) && SendsCheck(a.transmit, HandleTimeout(a, now).transmit)
    requires a.remoteCreds.Some? ==> ':' !in a.remoteCreds.value.ufrag && a.localCreds.ufrag != ""
    ensures a.remoteCreds.Some?
    ensures var message := AsMessage(SentBy(a, now).contents);
            Parsed(message) &&
            (AcceptsMessage(b, message) <==>
             && a.remoteCreds.value == b.localCreds
             && (b.remoteCreds.Some? ==> b.remoteCreds.value.ufrag == a.localCreds.ufrag))
  {
    hide Inv, HandleTimeout, SplitName, SentBy, SendCheck, BeforeChecks;
    var m, k := SentIs(a, now);
    NameSplits(a.remoteCreds.value.ufrag, a.localCreds.ufrag);
  }

  lemma PairsAreValid(m: Agent, k: nat)
    requires Inv(m) && k < |m.pairs|
    ensures AllValid(m.local) && m.pairs[k].localIdx < |m.local| && m.pairs[k].remoteIdx < |m.remote|
    ensures m.local[m.pairs[k].localIdx].Valid()
  {
  }

  // ---------- The reply ----------

  /** Whoever listens at an address does so for requests to a host or relayed candidate that was not discarded. */
  predicate Listens(b: Agent, proto: Protocol, destination: Address) {
    && (exists k :: 0 <= k < |b.local| && IsAt(b.local[k], proto, destination))
    && (forall k | 0 <= k < |b.local| && IsAt(b.local[k], proto, destination) :: !b.local[k].discarded)
  }

  predicate IsAt(c: Candidate, proto: Protocol, destination: Address) {
    (c.kind == Host || c.kind == Relayed) && c.addr == destination && c.proto == proto
  }

  lemma ListensMeans(b: Agent, proto: Protocol, destination: Address)
    requires Listens(b, proto, destination)
    ensures var dest := FindDestination(b.local, proto, destination);
            dest.Some? && dest.value < |b.local| && IsAt(b.local[dest.value], proto, destination)
            && !b.local[dest.value].discarded
  {
  }

  lemma SourceIsKnown(b: Agent, req: StunRequest)
    requires Inv(b)
    ensures var (b1, r) := WithSource(b, req);
            && r < |b1.remote| && b1.remote[r].addr == req.source && b1.remote[r].proto == req.proto
            && b1 == b.(remote := b1.remote)
  {
    hide Inv;
  }

  /** A pair with the source of a request. */
  predicate IsPairWith(b: Agent, x: Pair, source: Address) {
    x.remoteIdx < |b.remote| && b.remote[x.remoteIdx].addr == source
  }

  /** A request of the pair was counted, and it is nominated if that was asked for. */
  predicate WasAsked(x: Pair, req: StunRequest) {
    && (req.useCandidate ==> x.IsNominated())
    && x.remoteBindingRequests > 0 && x.remoteBindingRequestTime == Some(req.now)
  }

  /**
   A request from the other side is answered at once with one reply, to where it came from; the reply tells that address,
   and is made with the password that the other side knows. The pair is on the checklist
   then, with the request counted, and nominated if asked for.
   */
  lemma RequestIsAnswered(b: Agent, req: StunRequest)
    requires Inv(b) && b.remoteCreds.Some? && req.remoteUfrag == b.remoteCreds.value.ufrag
    requires !(req.useCandidate && b.controlling) && Listens(b, req.proto, req.destination)
    ensures var b', t := HandleRequest(b, req), HandleRequest(b, req).transmit;
            && |t| == |b.transmit| + 1 && t[..|b.transmit|] == b.transmit
            && (exists l :: l in b.local && IsAt(l, req.proto, req.destination) && t[|b.transmit|] ==
                  Transmit(req.proto, l.Base(), req.source, CheckReply(req.transId, b.localCreds.pass, req.source)))
            && exists x :: x in b'.pairs && IsPairWith(b', x, req.source) && WasAsked(x, req)
  {
    hide Inv, WithSource, WithPair, FindPair, FindDestination, Listens, AnswerRequest, IsPairWith;
    ListensMeans(b, req.proto, req.destination);
    SourceIsKnown(b, req);
    var (b1, r) := WithSource(b, req);
    WithSourceKeepsInv(b, req);
    var l := FindDestination(b1.local, req.proto, req.destination).value;
    assert b.local[l] in b.local;
    FoundPairIsUsable(b1, l, r);
    WithPairKeepsInv(b1, l, r);
    var b2 := WithPair(b1, l, r);
    AnswerTransmits(b2, l, r, req);
    AnswerNominates(b2, l, r, req);
  }

  lemma AnswerNominates(a: Agent, l: nat, r: nat, req: StunRequest)
    requires Inv(a) && FindPair(a.pairs, l, r).Some? && r < |a.remote| && a.remote[r].addr == req.source
    requires !(req.useCandidate && a.controlling)
    ensures var b := AnswerRequest(a, l, r, req);
            exists x :: x in b.pairs && IsPairWith(b, x, req.source) && WasAsked(x, req)
  {
    hide Inv, EvaluateNomination, FindPair;
    FoundPair(a, l, r);
    var k := FindPair(a.pairs, l, r).value;
    PairFound(a, l, r);
    var a1 := Counted(a, k, req);
    CountedKeepsInv(a, k, req);
    InvMeans(a1);
    EvaluateNominationKeepsInv(a1);
    RoundKeepsPair(a1, k);
    var b := AnswerRequest(a, l, r, req);
    var x := b.pairs[k];
    assert x in b.pairs;
    assert IsPairWith(b, x, req.source);
  }

  lemma PairFound(a: Agent, l: nat, r: nat)
    requires FindPair(a.pairs, l, r).Some?
    ensures a.pairs[FindPair(a.pairs, l, r).value].remoteIdx == r
  {
  }

  /** A round leaves a pair in its place, with its candidates; and neither nomination nor success is taken back. */
  lemma RoundKeepsPair(a: Agent, k: nat)
    requires Inv(a) && AllWellFormed(a.pairs, a.local, a.remote) && k < |a.pairs|
    ensures var b := EvaluateNomination(a);
            && |b.pairs| == |a.pairs| && b.remote == a.remote && b.local == a.local
            && b.pairs[k].remoteIdx == a.pairs[k].remoteIdx && b.pairs[k].localIdx == a.pairs[k].localIdx
            && b.pairs[k] == a.pairs[k].(nomination := b.pairs[k].nomination) && Evolves(a.pairs[k], b.pairs[k])
  {
    hide Inv;
  }

  /** What a packet with a check means to an agent that accepts it: the request is handled now, or waits. */
  lemma RequestOfPacket(b: Agent, now: int, packet: Packet)
    requires Inv(b) && Parsed(packet.message) && AcceptsMessage(b, packet.message) && packet.message.cls == Request
    ensures packet.message.username.Some? && packet.message.prio.Some?
    ensures var m, b' := packet.message, HandlePacket(b, now, packet).0;
            var req := StunRequest(now, packet.proto, packet.source, packet.destination, m.transId, m.prio.value, m.useCandidate,
                                   m.username.value.1);
            if b.remoteCreds.Some? then b' == EmitEvent(HandleRequest(b, req), DiscoveredRecv(packet.proto, packet.source))
            else |b'.stunServerQueue| > 0 && b'.stunServerQueue[|b'.stunServerQueue| - 1] == req
  {
    hide Inv, HandleRequest;
  }

  // ---------- The reply comes back ----------

  /** No check was sent before under the id that the next one gets: ids are random numbers of 96 bits. */
  predicate NextIdIsNew(a: Agent) {
    forall x | x in a.pairs :: !x.HasBindingAttempt(a.nextId)
  }

  /** A reply to a check that is remembered is accepted, if its hash was made with the other side's password. */
  lemma ReplyIsAccepted(a: Agent, transId: nat, mapped: Address, k: nat)
    requires Inv(a) && a.remoteCreds.Some? && k < |a.pairs| && a.pairs[k].HasBindingAttempt(transId)
    ensures var message := AsMessage(CheckReply(transId, a.remoteCreds.value.pass, mapped));
            Parsed(message) && AcceptsMessage(a, message)
  {
    hide Inv;
    InvIsWellUsed(a, k, transId);
  }

  /** And no other reply is accepted. */
  lemma ReplyIsAcceptedIff(a: Agent, transId: nat, password: string, mapped: Address)
    requires Inv(a)
    ensures var message := AsMessage(CheckReply(transId, password, mapped));
            Parsed(message) &&
            (AcceptsMessage(a, message) <==>
             && (exists x :: x in a.pairs && x.HasBindingAttempt(transId))
             && a.remoteCreds.Some? && a.remoteCreds.value.pass == password)
  {
    hide Inv;
    var k := FindAttempt(a.pairs, transId);
    if k.Some? {
      assert a.pairs[k.value] in a.pairs;
      AttemptMeansCreds(a, k.value, transId);
    }
  }

  lemma InvIsWellUsed(a: Agent, k: nat, transId: nat)
    requires Inv(a) && k < |a.pairs| && a.pairs[k].HasBindingAttempt(transId)
    ensures FindAttempt(a.pairs, transId).Some?
  {
  }

  /** The pair whose check is answered has succeeded, on a local candidate with the address that the reply tells. */
  predicate HasSucceeded(a: Agent, id: nat, mapped: Address) {
    exists x :: x in a.pairs && x.id == id && x.state == Succeeded
                && x.validIdx.Some? && x.validIdx.value < |a.local| && a.local[x.validIdx.value].addr == mapped
  }

  lemma ResponseSucceeds(a: Agent, now: int, transId: nat, mapped: Address, k: nat)
    requires Inv(a) && k < |a.pairs| && FindAttempt(a.pairs, transId) == Some(k) && a.pairs[k].state != Waiting
    ensures HasSucceeded(HandleResponse(a, now, transId, mapped), a.pairs[k].id, mapped)
  {
    hide Inv, EvaluateNomination, EvaluateState, FindAttempt, Responded;
    AttemptFound(a, transId);
    var a1 := Responded(a, now, transId, mapped, k);
    RespondedKeepsInv(a, now, transId, mapped, k);
    RespondedSays(a, now, transId, mapped, k);
    InvMeans(a1);
    RoundKeepsPair(a1, k);
    EvaluateNominationKeepsInv(a1);
    var a2 := if a1.controlling then EvaluateNomination(a1) else a1;
    EvaluateStateKeepsInv(a2, now);
    var b := HandleResponse(a, now, transId, mapped);
    assert b.pairs[k] in b.pairs;
  }

  lemma AttemptFound(a: Agent, transId: nat)
    ensures var k := FindAttempt(a.pairs, transId);
            k.Some? ==> k.value < |a.pairs| && a.pairs[k.value].HasBindingAttempt(transId)
  {
  }

  lemma RespondedSays(a: Agent, now: int, transId: nat, mapped: Address, k: nat)
    requires Inv(a) && k < |a.pairs| && a.pairs[k].HasBindingAttempt(transId) && a.pairs[k].state != Waiting
    ensures var b := Responded(a, now, transId, mapped, k);
            && |b.pairs| == |a.pairs| && b.pairs[k].id == a.pairs[k].id && b.pairs[k].state == Succeeded
            && b.pairs[k].validIdx.Some? && b.pairs[k].validIdx.value < |b.local|
            && b.local[b.pairs[k].validIdx.value].addr == mapped
  {
    MappedIsThere(a, k, mapped);
    WithMappedKeepsInv(a, k, mapped);
    hide Inv, WithMapped;
  }

  lemma MappedIsThere(a: Agent, k: nat, mapped: Address)
    requires Inv(a) && k < |a.pairs|
    ensures var (a1, valid) := WithMapped(a, k, mapped);
            valid < |a1.local| && a1.local[valid].addr == mapped
  {
  }

  // ---------- There and back ----------

  /** A check that was just sent is remembered by its pair, and if its id is new, by no other one. */
  lemma CheckIsRemembered(m: Agent, now: int, k: nat)
    requires Inv(m) && m.remoteCreds.Some? && k < |m.pairs|
    ensures var c := SendCheck(m, now, k);
            && Inv(c) && |c.pairs| == |m.pairs| && c.pairs[k].id == m.pairs[k].id
            && c.pairs[k].HasBindingAttempt(m.nextId) && c.pairs[k].state != Waiting
            && (NextIdIsNew(m) ==> FindAttempt(c.pairs, m.nextId) == Some(k))
  {
    SendCheckKeepsInv(m, now, k);
    AttemptIsThere(m.pairs[k], now, m.nextId);
    PairsAreValid(m, k);
    hide Inv, Pair.NewAttempt, Candidate.DoPrio;
    var c := SendCheck(m, now, k);
    forall j | 0 <= j < |m.pairs| && j != k ensures c.pairs[j] == m.pairs[j] && m.pairs[j] in m.pairs {
    }
  }

  lemma AttemptIsThere(p: Pair, now: int, id: nat)
    ensures var q := p.NewAttempt(now, id); q.HasBindingAttempt(id) && q.state != Waiting && q.id == p.id
  {
    var all := p.attempts + [BindingAttempt(id, now, None, p.IsNominated())];
    var q := p.NewAttempt(now, id);
    assert q.attempts[|q.attempts| - 1].transId == id;
  }

  /** What agent b makes of a check: a request from the address where it was seen. */
  function RequestFor(t: Transmit, seen: Address, destination: Address, now: int): StunRequest
    requires t.contents.CheckRequest? && SplitName(t.contents.username).Some?
  {
    var c := t.contents;
    StunRequest(now, t.proto, seen, destination, c.transId, c.prio, c.useCandidate, SplitName(c.username).value.1)
  }

  /** A reply to the check that was just sent makes the pair that was checked succeed. */
  lemma ReplySucceeds(a: Agent, now: int, seen: Address, packet: Packet, aNow: int)
    requires Inv(a) && SendsCheck(a.transmit, HandleTimeout(a, now).transmit) && NextIdIsNew(BeforeChecks(a, now))
    requires a.remoteCreds.Some? && packet.message == AsMessage(CheckReply(a.nextId, a.remoteCreds.value.pass, seen))
    ensures Inv(HandleTimeout(a, now)) && Parsed(packet.message) && AcceptsMessage(HandleTimeout(a, now), packet.message)
    ensures var c := HandleTimeout(a, now);
            exists x :: x in c.pairs && x.HasBindingAttempt(a.nextId)
                        && HasSucceeded(HandlePacket(c, aNow, packet).0, x.id, seen)
  {
    hide Inv, HandleTimeout, SplitName, SentBy, SendCheck, BeforeChecks, HandleRequest, HandleResponse, HasSucceeded, Scheduled,
      FindAttempt, NextIdIsNew, SendsCheck;
    var m, k := SentIs(a, now);
    var c := HandleTimeout(a, now);
    SchedulingKeepsNew(BeforeChecks(a, now), now);
    CheckIsRemembered(m, now, k);
    SendCheckKeeps(m, now, k);
    ReplyIsAccepted(c, a.nextId, seen, k);
    ResponseSucceeds(c, aNow, a.nextId, seen, k);
    DiscoveryKeeps(HandleResponse(c, aNow, a.nextId, seen), DiscoveredRecv(packet.proto, packet.source), c.pairs[k].id, seen);
    assert c.pairs[k] in c.pairs;
    hide AcceptsMessage;
  }

  /** A check is answered with one reply to the address that it was seen to come from. */
  lemma CheckIsAnswered(a: Agent, b: Agent, now: int, seen: Address, destination: Address, bNow: int)
    requires Inv(a) && Inv(b) && AreEachOthers(a, b) && b.remoteCreds.Some? && a.controlling != b.controlling
    requires SendsCheck(a.transmit, HandleTimeout(a, now).transmit)
    requires Listens(b, SentBy(a, now).proto, destination)
    ensures SentBy(a, now).contents.CheckRequest? && SplitName(SentBy(a, now).contents.username).Some?
    ensures SentBy(a, now).contents.transId == a.nextId && a.remoteCreds.Some?
    ensures var sent := SentBy(a, now);
            var b' := HandleRequest(b, RequestFor(sent, seen, destination, bNow));
            && |b'.transmit| == |b.transmit| + 1
            && var reply := b'.transmit[|b.transmit|];
               && reply.proto == sent.proto && reply.destination == seen
               && reply.contents == CheckReply(a.nextId, a.remoteCreds.value.pass, seen)
               && exists x :: x in b'.pairs && IsPairWith(b', x, seen) && (sent.contents.useCandidate ==> x.IsNominated())
  {
    hide Inv, HandleTimeout, SplitName, SentBy, SendCheck, BeforeChecks, HandleRequest, Listens, IsPairWith,
      Scheduled, SendsCheck;
    var m, k := SentIs(a, now);
    NameSplits(b.localCreds.ufrag, a.localCreds.ufrag);
    RequestIsAnswered(b, RequestFor(SentBy(a, now), seen, destination, bNow));
  }

  /**
   What a check leads to, when b becomes b' by it and c has sent it: one reply to the address it was seen to come from,
   which c accepts, and with which a pair that was checked has succeeded; and b' has the pair that it was for.
   */
  ghost predicate MakesSucceed(sent: Transmit, b: Agent, b': Agent, c: Agent, seen: Address, aNow: int)
    requires sent.contents.CheckRequest? && Inv(c)
  {
    && |b'.transmit| == |b.transmit| + 1
    && var reply := b'.transmit[|b.transmit|];
       var message := AsMessage(reply.contents);
       && reply.proto == sent.proto && reply.destination == seen
       && Parsed(message) && AcceptsMessage(c, message)
       && (exists x :: x in b'.pairs && IsPairWith(b', x, seen) && (sent.contents.useCandidate ==> x.IsNominated()))
       && exists x :: x in c.pairs && x.HasBindingAttempt(sent.contents.transId)
                      && HasSucceeded(HandlePacket(c, aNow, Packet(reply.proto, reply.source, reply.destination, message)).0,
                                      x.id, seen)
  }

  /**
   A check and its reply: agent a sends a check; b, which knows a's credentials when it handles the request, sees it come
   from some address, and answers with one reply to that address. When a gets the reply, the pair that was checked has
   succeeded, on a local candidate with the address that b saw. And if the check asked for it, b has nominated a pair with
   that address.
   */
  lemma CheckSucceeds(a: Agent, b: Agent, now: int, seen: Address, destination: Address, bNow: int, aNow: int)
    requires Inv(a) && Inv(b) && AreEachOthers(a, b) && b.remoteCreds.Some? && a.controlling != b.controlling
    requires SendsCheck(a.transmit, HandleTimeout(a, now).transmit) && NextIdIsNew(BeforeChecks(a, now))
    requires Listens(b, SentBy(a, now).proto, destination)
    ensures SentBy(a, now).contents.CheckRequest? && SplitName(SentBy(a, now).contents.username).Some?
    ensures Inv(HandleTimeout(a, now))
    ensures var b' := HandleRequest(b, RequestFor(SentBy(a, now), seen, destination, bNow));
            MakesSucceed(SentBy(a, now), b, b', HandleTimeout(a, now), seen, aNow)
  {
    hide Inv, HandleTimeout, SplitName, SentBy, SendCheck, BeforeChecks, HandleRequest, HandlePacket, Listens, HasSucceeded,
      IsPairWith, NextIdIsNew, SendsCheck, AcceptsMessage;
    CheckIsAnswered(a, b, now, seen, destination, bNow);
    var reply := HandleRequest(b, RequestFor(SentBy(a, now), seen, destination, bNow)).transmit[|b.transmit|];
    ReplySucceeds(a, now, seen, Packet(reply.proto, reply.source, reply.destination, AsMessage(reply.contents)), aNow);
  }

  lemma SchedulingKeepsNew(m: Agent, now: int)
    requires NextIdIsNew(m)
    ensures NextIdIsNew(m.(pairs := Scheduled(m.pairs, now)))
  {
    ScheduledKeepsPairs(m.pairs, now);
    var m1 := m.(pairs := Scheduled(m.pairs, now));
    hide Scheduled;
    forall x | x in m1.pairs ensures !x.HasBindingAttempt(m.nextId) {
      var k :| 0 <= k < |m1.pairs| && m1.pairs[k] == x;
      assert m.pairs[k] in m.pairs && x.attempts == m.pairs[k].attempts;
    }
  }

  lemma SendCheckKeeps(m: Agent, now: int, k: nat)
    requires Inv(m) && m.remoteCreds.Some? && k < |m.pairs|
    ensures SendCheck(m, now, k).remoteCreds == m.remoteCreds
  {
    hide Inv;
    PairsAreValid(m, k);
  }

  lemma DiscoveryKeeps(a: Agent, e: Event, id: nat, mapped: Address)
    requires HasSucceeded(a, id, mapped)
    ensures HasSucceeded(EmitEvent(a, e), id, mapped)
  {
  }

  // ---------- New addresses ----------

  /** A candidate that was discovered at an address, with a priority that was told or computed then. */
  predicate IsDiscovered(c: Candidate, at: Address, prio: nat) {
    c.kind == PeerReflexive && c.addr == at && c.setPrio == Some(prio) && !c.discarded
  }

  lemma RequestDiscovers(b: Agent, req: StunRequest)
    requires Inv(b) && b.remoteCreds.Some? && req.remoteUfrag == b.remoteCreds.value.ufrag
    requires !(req.useCandidate && b.controlling) && FindSource(b.remote, req.proto, req.source).None?
    ensures exists c :: c in HandleRequest(b, req).remote && IsDiscovered(c, req.source, req.prio)
  {
    hide Inv, WithPair, FindPair, FindDestination, AnswerRequest, FindSource;
    var (b1, r) := WithSource(b, req);
    WithSourceKeepsInv(b, req);
    assert b1.remote[r] in b1.remote && IsDiscovered(b1.remote[r], req.source, req.prio);
    var dest := FindDestination(b1.local, req.proto, req.destination);
    if dest.Some? && !(FindPair(b1.pairs, dest.value, r).None? && b1.local[dest.value].discarded) {
      DestinationInRange(b1.local, req.proto, req.destination);
      FoundPairIsUsable(b1, dest.value, r);
      WithPairKeepsInv(b1, dest.value, r);
      AnswerKeepsRemote(WithPair(b1, dest.value, r), dest.value, r, req);
    }
    assert HandleRequest(b, req).remote == b1.remote;
  }

  lemma AnswerKeepsRemote(a: Agent, l: nat, r: nat, req: StunRequest)
    requires Inv(a) && FindPair(a.pairs, l, r).Some?
    ensures AnswerRequest(a, l, r, req).remote == a.remote
  {
    hide Inv, EvaluateNomination, FindPair;
    FoundPair(a, l, r);
    var a1 := Counted(a, FindPair(a.pairs, l, r).value, req);
    CountedKeepsInv(a, FindPair(a.pairs, l, r).value, req);
    InvMeans(a1);
    EvaluateNominationKeepsInv(a1);
  }

  lemma ReplyDiscovers(a: Agent, now: int, transId: nat, mapped: Address, k: nat)
    requires Inv(a) && k < |a.pairs| && FindAttempt(a.pairs, transId) == Some(k)
    requires FindFirst(a.local, (c: Candidate) => c.addr == mapped).None?
    ensures AllValid(a.local) && a.pairs[k].localIdx < |a.local| && a.local[a.pairs[k].localIdx].Valid()
    ensures exists c :: c in HandleResponse(a, now, transId, mapped).local
                        && IsDiscovered(c, mapped, a.local[a.pairs[k].localIdx].DoPrio(true))
  {
    PairsAreValid(a, k);
    AttemptFound(a, transId);
    var a1 := Responded(a, now, transId, mapped, k);
    RespondedKeepsInv(a, now, transId, mapped, k);
    var c := a1.local[|a.local|];
    assert c in a1.local && IsDiscovered(c, mapped, a.local[a.pairs[k].localIdx].DoPrio(true));
    hide Inv, EvaluateNomination, EvaluateState, FindAttempt, Responded;
    InvMeans(a1);
    EvaluateNominationKeepsInv(a1);
    EvaluateStateKeepsInv(if a1.controlling then EvaluateNomination(a1) else a1, now);
  }

  /**
   When a check comes from an address that neither side knew, behind a translation of addresses say, b discovers a remote
   candidate by the check and a discovers a local one by the reply, and both give it the same priority.
   */
  lemma DiscoveredAlike(a: Agent, b: Agent, now: int, seen: Address, destination: Address, bNow: int, aNow: int)
    requires Inv(a) && Inv(b) && AreEachOthers(a, b) && b.remoteCreds.Some? && a.controlling != b.controlling
    requires SendsCheck(a.transmit, HandleTimeout(a, now).transmit) && NextIdIsNew(BeforeChecks(a, now))
    requires forall c | c in a.local :: c.addr != seen
    requires forall c | c in b.remote :: c.addr != seen
    ensures SentBy(a, now).contents.CheckRequest? && SplitName(SentBy(a, now).contents.username).Some?
    ensures Inv(HandleTimeout(a, now))
    ensures var b' := HandleRequest(b, RequestFor(SentBy(a, now), seen, destination, bNow));
            var a' := HandleResponse(HandleTimeout(a, now), aNow, a.nextId, seen);
            exists prio, c, d :: c in b'.remote && d in a'.local && IsDiscovered(c, seen, prio) && IsDiscovered(d, seen, prio)
  {
    hide Inv, HandleTimeout, SplitName, SentBy, SendCheck, BeforeChecks, HandleRequest, HandleResponse, Scheduled, SendsCheck,
      NextIdIsNew, IsDiscovered, Candidate.DoPrio;
    var m, k := SentIs(a, now);
    NameSplits(b.localCreds.ufrag, a.localCreds.ufrag);
    RequestDiscovers(b, RequestFor(SentBy(a, now), seen, destination, bNow));
    SchedulingKeepsNew(BeforeChecks(a, now), now);
    CheckIsRemembered(m, now, k);
    SentPairStays(m, now, k);
    ReplyDiscovers(HandleTimeout(a, now), aNow, a.nextId, seen, k);
  }

  lemma SentPairStays(m: Agent, now: int, k: nat)
    requires Inv(m) && m.remoteCreds.Some? && k < |m.pairs|
    ensures var c := SendCheck(m, now, k);
            c.local == m.local && |c.pairs| == |m.pairs| && c.pairs[k].localIdx == m.pairs[k].localIdx
  {
    PairsAreValid(m, k);
    hide Inv, Candidate.DoPrio;
  }
}
