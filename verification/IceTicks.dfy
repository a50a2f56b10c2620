/**
 What a tick of the ICE agent does besides sending a check: which requests it answers, which pairs it gives up, and when
 the next one is to come.
 */
module IceTicks {
  import opened Bytes
  import opened Stun
  import opened IcePair
  import opened IceCandidate
  import opened IceAgentSpec
  import opened IceAgentOps
  import opened IceAgentRuns
  import opened IceExchange

  // ---------- Requests that wait ----------

  predicate InTime(queue: seq<StunRequest>) {
    forall i, j | 0 <= i < j < |queue| :: queue[i].now <= queue[j].now
  }

  predicate IsSuffix(part: seq<StunRequest>, all: seq<StunRequest>) {
    |part| <= |all| && part == all[|all| - |part|..]
  }

  /** Of requests that came in one after the other, exactly those go that are 18.75 s old or more. */
  lemma {:induction false} OldOnesGo(queue: seq<StunRequest>, now: int)
    requires InTime(queue)
    ensures IsSuffix(DropOld(queue, now), queue)
    ensures forall x :: x in DropOld(queue, now) <==> x in queue && now < x.now + 18_750
    decreases |queue|
  {
    if |queue| > 0 {
      var rest := queue[1..];
      OldOnesGo(rest, now);
      SplitQueue(queue);
      if now >= queue[0].now + 18_750 {
        assert DropOld(queue, now) == DropOld(rest, now);
      } else {
        assert DropOld(queue, now) == queue;
      }
      hide DropOld;
    }
  }

  lemma SplitQueue(queue: seq<StunRequest>)
    requires |queue| > 0 && InTime(queue)
    ensures forall x :: x in queue <==> x == queue[0] || x in queue[1..]
    ensures forall x | x in queue :: x.now >= queue[0].now
    ensures forall part :: IsSuffix(part, queue[1..]) ==> IsSuffix(part, queue)
  {
    assert queue == [queue[0]] + queue[1..];
  }

  /** While the credentials of the other side are not known, the last 100 requests that were accepted wait. */
  lemma RequestsWait(a: Agent, now: int, packet: Packet)
    requires Inv(a) && Parsed(packet.message) && AcceptsMessage(a, packet.message) && packet.message.cls == Request
    requires a.remoteCreds.None? && |a.stunServerQueue| <= 100
    ensures packet.message.username.Some? && packet.message.prio.Some?
    ensures var m, queue := packet.message, HandlePacket(a, now, packet).0.stunServerQueue;
            var req := StunRequest(now, packet.proto, packet.source, packet.destination, m.transId, m.prio.value, m.useCandidate,
                                   m.username.value.1);
            && IsSuffix(queue, a.stunServerQueue + [req])
            && |queue| == if |a.stunServerQueue| < 100 then |a.stunServerQueue| + 1 else 100
  {
    hide Inv;
  }

  /** The agent as it is when a tick comes to the requests that wait. */
  lemma TickHandles(a: Agent, now: int) returns (b: Agent)
    requires Inv(a) && a.remoteCreds.Some?
    ensures Inv(b) && SameSelf(a, b) && b.stunServerQueue == a.stunServerQueue && b.pairs == a.pairs
    ensures var queue := DropOld(a.stunServerQueue, now);
            queue != [] ==> Inv(b.(stunServerQueue := queue[1..])) && b.remoteCreds.Some? &&
                            HandleTimeout(a, now) == HandleRequest(b.(stunServerQueue := queue[1..]), queue[0])
  {
    hide Inv, EvaluateState, DropOld, HandleRequest, Advance;
    var a0 := if a.state == New then EmitEvent(a, IceRestarted(a.localCreds)) else a;
    EmitEventKeepsInv(a, IceRestarted(a.localCreds));
    b := EvaluateState(a0, now);
    EvaluateStateKeepsInv(a0, now);
    var queue := DropOld(a.stunServerQueue, now);
    QueueKeepsInv(b, if queue == [] then [] else queue[1..]);
  }

  lemma RequestKeepsQueue(a: Agent, req: StunRequest)
    requires Inv(a) && a.remoteCreds.Some?
    ensures HandleRequest(a, req).stunServerQueue == a.stunServerQueue
  {
    hide Inv, WithSource, WithPair, EvaluateNomination, FindPair, FindDestination;
    if req.remoteUfrag == a.remoteCreds.value.ufrag && !(req.useCandidate && a.controlling) {
      var (a1, r) := WithSource(a, req);
      WithSourceKeepsInv(a, req);
      var dest := FindDestination(a1.local, req.proto, req.destination);
      if dest.Some? && !(FindPair(a1.pairs, dest.value, r).None? && a1.local[dest.value].discarded) {
        DestinationInRange(a1.local, req.proto, req.destination);
        FoundPairIsUsable(a1, dest.value, r);
        WithPairKeepsInv(a1, dest.value, r);
        AnswerKeepsQueue(WithPair(a1, dest.value, r), dest.value, r, req);
      }
    }
  }

  lemma AnswerKeepsQueue(a: Agent, l: nat, r: nat, req: StunRequest)
    requires Inv(a) && FindPair(a.pairs, l, r).Some?
    ensures AnswerRequest(a, l, r, req).stunServerQueue == a.stunServerQueue
  {
    hide Inv, EvaluateNomination, FindPair;
    FoundPair(a, l, r);
    var a1 := Counted(a, FindPair(a.pairs, l, r).value, req);
    CountedKeepsInv(a, FindPair(a.pairs, l, r).value, req);
    InvMeans(a1);
    EvaluateNominationKeepsInv(a1);
  }

  /** A reply to a request is the only thing that was put out. */
  predicate IsReplyTo(before: seq<Transmit>, after: seq<Transmit>, req: StunRequest, password: string) {
    && |after| == |before| + 1 && after[..|before|] == before
    && after[|before|].destination == req.source && after[|before|].proto == req.proto
    && after[|before|].contents == CheckReply(req.transId, password, req.source)
  }

  /** The request has the other side's name, does not ask a controlling agent to be nominated, and came to a usable address. */
  predicate IsFor(a: Agent, req: StunRequest)
    requires a.remoteCreds.Some?
  {
    && req.remoteUfrag == a.remoteCreds.value.ufrag && !(req.useCandidate && a.controlling)
    && Listens(a, req.proto, req.destination)
  }

  /**
   A tick of an agent that knows the other side's credentials takes the oldest request that waits and is not too old, and
   answers it if it is for this agent; the later ones go on waiting, and those that are too old are dropped.
   */
  lemma OldestIsAnswered(a: Agent, now: int, k: nat)
    requires Inv(a) && a.remoteCreds.Some? && InTime(a.stunServerQueue) && k < |a.stunServerQueue|
    requires now < a.stunServerQueue[k].now + 18_750 && forall j | 0 <= j < k :: now >= a.stunServerQueue[j].now + 18_750
    ensures var a', req := HandleTimeout(a, now), a.stunServerQueue[k];
            && a'.stunServerQueue == a.stunServerQueue[k + 1..]
            && (IsFor(a, req) ==> IsReplyTo(a.transmit, a'.transmit, req, a.localCreds.pass))
  {
    hide Inv, HandleTimeout, HandleRequest, Listens;
    var b := TickHandles(a, now);
    OldestYoung(a.stunServerQueue, now, k);
    var queue, req := DropOld(a.stunServerQueue, now), a.stunServerQueue[k];
    assert queue[1..] == a.stunServerQueue[k + 1..];
    var c := b.(stunServerQueue := queue[1..]);
    RequestKeepsQueue(c, req);
    if IsFor(a, req) {
      SameListens(a, c, req.proto, req.destination);
      RequestIsAnswered(c, req);
    }
  }

  lemma SameListens(a: Agent, b: Agent, proto: Protocol, destination: Address)
    requires b.local == a.local && Listens(a, proto, destination)
    ensures Listens(b, proto, destination)
  {
  }

  lemma {:induction false} OldestYoung(queue: seq<StunRequest>, now: int, k: nat)
    requires k < |queue| && now < queue[k].now + 18_750 && forall j | 0 <= j < k :: now >= queue[j].now + 18_750
    ensures DropOld(queue, now) == queue[k..]
    decreases k
  {
    if k > 0 {
      OldestYoung(queue[1..], now, k - 1);
    }
  }

  // ---------- Pairs that are given up ----------

  predicate HasId(pairs: seq<Pair>, id: nat) {
    exists k :: 0 <= k < |pairs| && pairs[k].id == id
  }

  /** The same pairs in the same places, in what counts for giving them up. */
  predicate SameChecks(s: seq<Pair>, t: seq<Pair>) {
    |t| == |s| && forall k | 0 <= k < |s| ::
                    t[k].id == s[k].id && t[k].attempts == s[k].attempts
                    && t[k].remoteBindingRequestTime == s[k].remoteBindingRequestTime
  }

  lemma RoundSameChecks(a: Agent)
    requires AllWellFormed(a.pairs, a.local, a.remote)
    ensures SameChecks(a.pairs, EvaluateNomination(a).pairs)
  {
  }

  /** The pair is kept: it was asked for in the last 15 s, or it has not failed. */
  predicate Stays(iceLite: bool, x: Pair, now: int) {
    if iceLite then x.remoteBindingRequestTime.Some? && now < x.remoteBindingRequestTime.value + 15_000
    else
      var n := |x.attempts|;
      n < 9 || (exists k :: n - 9 <= k < n && x.attempts[k].responseRecv.Some?) || now < x.attempts[n - 1].requestSent + 3000
  }

  lemma KeptIff(iceLite: bool, x: Pair, now: int)
    ensures Keep(iceLite, now)(x) <==> Stays(iceLite, x, now)
  {
    GivenUpIff(x, now);
    hide Pair.IsStillPossible;
  }

  lemma SameIds(s: seq<Pair>, t: seq<Pair>, id: nat)
    requires |t| == |s| && forall k | 0 <= k < |s| :: t[k].id == s[k].id
    ensures HasId(s, id) <==> HasId(t, id)
  {
    if HasId(s, id) {
      var k :| 0 <= k < |s| && s[k].id == id;
      assert t[k].id == id;
    }
  }

  lemma RetainedIff(s: seq<Pair>, keep: Pair -> bool, k: nat)
    requires k < |s| && DistinctIds(s)
    ensures HasId(Retain(s, keep), s[k].id) <==> keep(s[k])
  {
    RetainFacts(s, keep);
    var r := Retain(s, keep);
    hide Retain;
    assert s[k] in s;
    if keep(s[k]) {
      var j :| 0 <= j < |r| && r[j] == s[k];
      assert r[j].id == s[k].id;
    }
    if HasId(r, s[k].id) {
      var j :| 0 <= j < |r| && r[j].id == s[k].id;
      assert r[j] in r;
      var i :| 0 <= i < |s| && s[i] == r[j];
      assert i == k;
    }
  }

  lemma PrunedIff(a: Agent, now: int, k: nat)
    requires Inv(a) && k < |a.pairs|
    ensures HasId(Prune(a, now).pairs, a.pairs[k].id) <==> Stays(a.iceLite, a.pairs[k], now)
  {
    hide Inv, EvaluateNomination, EvaluateState, HasId, Stays;
    InvMeans(a);
    EvaluateNominationKeepsInv(a);
    RoundSameChecks(a);
    var a1 := EvaluateNomination(a);
    StaysIsOfChecks(a.iceLite, a.pairs[k], a1.pairs[k], now);
    KeptIff(a.iceLite, a1.pairs[k], now);
    InvMeansDistinct(a1);
    RetainedIff(a1.pairs, Keep(a.iceLite, now), k);
    RetainKeepsInv(a1, Keep(a.iceLite, now));
    RetainAll(a1.pairs, Keep(a.iceLite, now));
    var a2 := a1.(pairs := Retain(a1.pairs, Keep(a.iceLite, now)));
    InvMeans(a2);
    EvaluateNominationKeepsInv(a2);
    RoundSameChecks(a2);
    var a3 := EvaluateNomination(a2);
    EvaluateStateKeepsInv(a3, now);
    SameIds(a2.pairs, a3.pairs, a.pairs[k].id);
    hide Keep, Retain;
  }

  lemma StaysIsOfChecks(iceLite: bool, x: Pair, y: Pair, now: int)
    requires x.attempts == y.attempts && x.remoteBindingRequestTime == y.remoteBindingRequestTime
    ensures Stays(iceLite, x, now) <==> Stays(iceLite, y, now)
  {
  }

  lemma InvMeansDistinct(a: Agent)
    requires Inv(a)
    ensures DistinctIds(a.pairs)
  {
  }

  /**
   A tick that has no request to answer takes exactly those pairs off the checklist that have failed: for an agent that
   checks, those whose last nine checks are unanswered, 3 s after the last one; for one that only answers, those that were
   not asked for in the last 15 s.
   */
  lemma FailedPairsGo(a: Agent, now: int, k: nat)
    requires Inv(a) && NoneQueued(a, now) && k < |a.pairs|
    ensures HasId(HandleTimeout(a, now).pairs, a.pairs[k].id) <==> Stays(a.iceLite, a.pairs[k], now)
  {
    hide Inv, HandleTimeout, Prune, HasId, Stays, BeforeChecks, CheckDue, CountFromNow;
    TimeoutIs(a, now);
    BeforeChecksIs(a, now, k);
    BeforeChecksSame(a, now);
    var m := BeforeChecks(a, now);
    SameIds(m.pairs, CountFromNow(m.pairs, now), a.pairs[k].id) by {
      CountingSameIds(m.pairs, now);
    }
    if m.remoteCreds.Some? {
      CheckSameIds(m, now, a.pairs[k].id);
    }
  }

  lemma CountingSameIds(pairs: seq<Pair>, now: int)
    ensures var r := CountFromNow(pairs, now); |r| == |pairs| && forall k | 0 <= k < |pairs| :: r[k].id == pairs[k].id
  {
  }

  lemma CheckSameIds(m: Agent, now: int, id: nat)
    requires Inv(m) && m.remoteCreds.Some?
    ensures HasId(m.pairs, id) <==> HasId(CheckDue(m, now).pairs, id)
  {
    hide Inv, NextPair, HasId;
    MapKeepsInv(m, Scheduled(m.pairs, now)) by {
      ScheduledKeepsPairs(m.pairs, now);
    }
    ScheduledKeepsPairs(m.pairs, now);
    SameIds(m.pairs, CheckDue(m, now).pairs, id) by {
      hide Pair.NextBindingAttempt, Scheduled;
    }
  }

  lemma BeforeChecksIs(a: Agent, now: int, k: nat)
    requires Inv(a) && k < |a.pairs|
    ensures HasId(BeforeChecks(a, now).pairs, a.pairs[k].id) <==> Stays(a.iceLite, a.pairs[k], now)
  {
    hide Inv, Prune, EvaluateState, HasId, Stays;
    var a0 := if a.state == New then EmitEvent(a, IceRestarted(a.localCreds)) else a;
    EmitEventKeepsInv(a, IceRestarted(a.localCreds));
    var a1 := EvaluateState(a0, now);
    EvaluateStateKeepsInv(a0, now);
    QueueKeepsInv(a1, []);
    var a2 := if a1.remoteCreds.Some? then a1.(stunServerQueue := []) else a1;
    TimeKeepsInv(a2, now);
    PrunedIff(a2.(lastNow := Some(now)), now, k);
  }

  /** In an agent that only answers, every pair that a tick keeps was asked for, so that counting from now counts none. */
  lemma CountingIsIdle(a: Agent, now: int)
    requires Inv(a) && a.iceLite && NoneQueued(a, now)
    ensures HandleTimeout(a, now).pairs == BeforeChecks(a, now).pairs
    ensures forall x | x in BeforeChecks(a, now).pairs :: x.remoteBindingRequestTime.Some?
  {
    hide Inv, HandleTimeout, BeforeChecks, CheckDue;
    TimeoutIs(a, now);
    BeforeChecksSame(a, now);
    var m := BeforeChecks(a, now);
    KeptWereAskedFor(a, now);
    var r := CountFromNow(m.pairs, now);
    forall k | 0 <= k < |m.pairs| ensures r[k] == m.pairs[k] {
      assert m.pairs[k] in m.pairs;
    }
  }

  lemma KeptWereAskedFor(a: Agent, now: int)
    requires Inv(a) && a.iceLite
    ensures forall x | x in BeforeChecks(a, now).pairs :: x.remoteBindingRequestTime.Some?
  {
    hide Inv, Prune, EvaluateState;
    var a0 := if a.state == New then EmitEvent(a, IceRestarted(a.localCreds)) else a;
    EmitEventKeepsInv(a, IceRestarted(a.localCreds));
    var a1 := EvaluateState(a0, now);
    EvaluateStateKeepsInv(a0, now);
    QueueKeepsInv(a1, []);
    var a2 := if a1.remoteCreds.Some? then a1.(stunServerQueue := []) else a1;
    TimeKeepsInv(a2, now);
    LitePruned(a2.(lastNow := Some(now)), now);
  }

  lemma LitePruned(a: Agent, now: int)
    requires Inv(a) && a.iceLite
    ensures forall x | x in Prune(a, now).pairs :: x.remoteBindingRequestTime.Some?
  {
    hide Inv, EvaluateNomination, EvaluateState;
    InvMeans(a);
    EvaluateNominationKeepsInv(a);
    var a1 := EvaluateNomination(a);
    RetainFacts(a1.pairs, Keep(true, now));
    RetainAll(a1.pairs, Keep(true, now));
    RetainKeepsInv(a1, Keep(true, now));
    var a2 := a1.(pairs := Retain(a1.pairs, Keep(true, now)));
    hide Retain;
    InvMeans(a2);
    EvaluateNominationKeepsInv(a2);
    RoundSameChecks(a2);
    var a3 := EvaluateNomination(a2);
    EvaluateStateKeepsInv(a3, now);
    forall x | x in a3.pairs ensures x.remoteBindingRequestTime.Some? {
      var k :| 0 <= k < |a3.pairs| && a3.pairs[k] == x;
      assert a2.pairs[k] in a2.pairs;
    }
  }

  /** When a pair was taken off, the connection state is the right one for the pairs that are left. */
  lemma StateAfterPruning(a: Agent, now: int)
    requires Inv(a) && a.state != New && exists k :: 0 <= k < |a.pairs| && !Stays(a.iceLite, a.pairs[k], now)
    ensures var b := Prune(a, now);
            b.state != New && EvaluateState(b, now) == b && (b.state.IsConnected() <==> AnyNominated(b.pairs))
  {
    hide Inv, EvaluateNomination, EvaluateState, Stays;
    var k :| 0 <= k < |a.pairs| && !Stays(a.iceLite, a.pairs[k], now);
    InvMeans(a);
    EvaluateNominationKeepsInv(a);
    RoundSameChecks(a);
    var a1 := EvaluateNomination(a);
    StaysIsOfChecks(a.iceLite, a.pairs[k], a1.pairs[k], now);
    KeptIff(a.iceLite, a1.pairs[k], now);
    assert a1.pairs[k] in a1.pairs;
    RetainAll(a1.pairs, Keep(a.iceLite, now));
    RetainKeepsInv(a1, Keep(a.iceLite, now));
    var a2 := a1.(pairs := Retain(a1.pairs, Keep(a.iceLite, now)));
    hide Retain, Keep;
    InvMeans(a2);
    EvaluateNominationKeepsInv(a2);
    LookingSettles(EvaluateNomination(a2), now);
  }

  lemma LookingSettles(a: Agent, now: int)
    requires Inv(a) && a.state != New
    ensures var b := EvaluateState(a, now);
            b.state != New && EvaluateState(b, now) == b && (b.state.IsConnected() <==> AnyNominated(b.pairs))
  {
    EvaluateStateIsIdempotent(a, now);
    ConnectedIffNominated(a, now);
    EvaluateStateKeepsInv(a, now);
    hide Inv, AnyNominated, AnyStillPossible;
  }

  /** After the reply to a check as well. */
  lemma StateAfterReply(a: Agent, now: int, transId: nat, mapped: Address)
    requires Inv(a) && a.state != New && exists x :: x in a.pairs && x.HasBindingAttempt(transId)
    ensures var b := HandleResponse(a, now, transId, mapped);
            b.state != New && EvaluateState(b, now) == b && (b.state.IsConnected() <==> AnyNominated(b.pairs))
  {
    hide Inv, EvaluateNomination, EvaluateState, WithMapped;
    var k := FindAttempt(a.pairs, transId);
    RespondedKeepsInv(a, now, transId, mapped, k.value);
    WithMappedKeepsInv(a, k.value, mapped);
    var a1 := Responded(a, now, transId, mapped, k.value);
    InvMeans(a1);
    EvaluateNominationKeepsInv(a1);
    LookingSettles(if a1.controlling then EvaluateNomination(a1) else a1, now);
  }

  // ---------- When the next tick is to come ----------

  /**
   The next tick is to come 50 ms after the last one if something waits to be answered or sent, 3 s after it if there is
   nothing to do, and else when the first pair is due, but no sooner than 50 ms after the last one: then a pair is due, and
   if that is later, none was before.
   */
  lemma NextTickIs(a: Agent)
    requires a.lastNow.Some?
    ensures PollTimeout(a).1.Some?
    ensures var last, t, b := a.lastNow.value, PollTimeout(a).1.value, PollTimeout(a).0;
            if a.stunServerQueue != [] || a.transmit != [] then t == last + 50
            else if a.iceLite || a.pairs == [] then t == last + 3000
            else last + 50 <= t && AnyDue(b, t) && forall earlier | AnyDue(b, earlier) :: t == last + 50 || t <= earlier
  {
    if a.stunServerQueue == [] && a.transmit == [] && !a.iceLite && a.pairs != [] {
      var last, t, b := a.lastNow.value, PollTimeout(a).1.value, PollTimeout(a).0;
      forall k, now | 0 <= k < |a.pairs| ensures b.pairs[k].NextBindingAttempt(now).1 == a.pairs[k].NextBindingAttempt(last).1 {
        PolledIsRemembered(a.pairs[k], last, now);
      }
      var k := NextPair(a.pairs, last).value;
      hide Pair.NextBindingAttempt, Scheduled, NextPair;
      assert b.pairs[k].NextBindingAttempt(t).1 <= t;
    }
  }

  lemma PolledIsRemembered(x: Pair, last: int, now: int)
    ensures x.NextBindingAttempt(last).0.NextBindingAttempt(now).1 == x.NextBindingAttempt(last).1
  {
  }
}
