/**
 What holds of the ICE agent over every run of public calls: the checklist invariant, the nomination policy while the
 role is fixed, and the announcements of the connection state.
 */
module IceAgentRuns {
  import opened Bytes
  import opened Stun
  import opened IcePair
  import opened IceCandidate
  import opened IceAgentSpec
  import opened IceAgentOps

  datatype Op =
    | AddLocal(c: Candidate) | AddRemote(c: Candidate) | Invalidate(c: Candidate)
    | Restart(creds: Creds, keepLocal: bool)
    | SetLocalCreds(creds: Creds) | SetRemoteCreds(creds: Creds)
    | SetControlling(controlling: bool) | SetIceLite(iceLite: bool) | SetMaxPairs(max: nat)
    | Receive(now: int, packet: Packet) | Timeout(now: int)
    | AskTimeout | AskTransmit | AskEvent

  /** What the caller of an operation has to see to: candidates as constructed, messages as parsed. */
  ghost predicate Legal(a: Agent, op: Op) {
    match op
    case AddLocal(c) => c.Valid() && !c.discarded && HasPreferenceLeft(a, c)
    case AddRemote(c) => c.Valid() && !c.discarded
    case Receive(now, packet) => Parsed(packet.message)
    case _ => true
  }

  ghost function Step(a: Agent, op: Op): Agent
    requires Inv(a) && Legal(a, op)
  {
    match op
    case AddLocal(c) => AddLocalCandidate(a, c).0
    case AddRemote(c) => AddRemoteCandidate(a, c)
    case Invalidate(c) => InvalidateCandidate(a, c).0
    case Restart(creds, keepLocal) => IceRestart(a, creds, keepLocal)
    case SetLocalCreds(creds) => a.(localCreds := creds)
    case SetRemoteCreds(creds) => a.(remoteCreds := Some(creds))
    case SetControlling(controlling) => a.(controlling := controlling)
    case SetIceLite(iceLite) => a.(iceLite := iceLite)
    case SetMaxPairs(max) => a.(maxCandidatePairs := Some(max))
    case Receive(now, packet) => HandlePacket(a, now, packet).0
    case Timeout(now) => HandleTimeout(a, now)
    case AskTimeout => PollTimeout(a).0
    case AskTransmit => if a.transmit == [] then a else a.(transmit := a.transmit[1..])
    case AskEvent => if a.events == [] then a else a.(events := a.events[1..])
  }

  lemma StepKeepsInv(a: Agent, op: Op)
    requires Inv(a) && Legal(a, op)
    ensures Inv(Step(a, op))
  {
    match op
    case AddLocal(c) => AddLocalCandidateKeepsInv(a, c);
    case AddRemote(c) => AddRemoteCandidateKeepsInv(a, c);
    case Invalidate(c) => InvalidateCandidateKeepsInv(a, c);
    case Restart(creds, keepLocal) => IceRestartKeepsInv(a, creds, keepLocal);
    case Receive(now, packet) => HandlePacketKeepsInv(a, now, packet);
    case Timeout(now) => HandleTimeoutKeepsInv(a, now);
    case AskTimeout => PollTimeoutKeepsInv(a);
    case AskTransmit =>
    case AskEvent =>
    case _ =>
  }

  ghost predicate LegalRun(a: Agent, ops: seq<Op>)
    decreases |ops|
  {
    |ops| == 0 || (Inv(a) && Legal(a, ops[0]) && LegalRun(Step(a, ops[0]), ops[1..]))
  }

  ghost function Run(a: Agent, ops: seq<Op>): Agent
    requires LegalRun(a, ops)
    decreases |ops|
  {
    if |ops| == 0 then a else Run(Step(a, ops[0]), ops[1..])
  }

  lemma {:induction false} RunKeepsInv(a: Agent, ops: seq<Op>)
    requires Inv(a) && LegalRun(a, ops)
    ensures Inv(Run(a, ops))
    decreases |ops|
  {
    hide Inv, Step;
    if |ops| > 0 {
      StepKeepsInv(a, ops[0]);
      RunKeepsInv(Step(a, ops[0]), ops[1..]);
    }
  }

  /** A run that is legal so far can always go on: every operation leaves the invariant in place. */
  lemma {:induction false} LegalRunExtends(a: Agent, ops: seq<Op>, op: Op)
    requires Inv(a) && LegalRun(a, ops) && Legal(Run(a, ops), op)
    ensures LegalRun(a, ops + [op])
    decreases |ops|
  {
    hide Inv, Step;
    if |ops| == 0 {
      assert ops + [op] == [op] && |[op][1..]| == 0;
    } else {
      assert (ops + [op])[1..] == ops[1..] + [op];
      StepKeepsInv(a, ops[0]);
      LegalRunExtends(Step(a, ops[0]), ops[1..], op);
    }
  }

  lemma {:induction false} RunOneMore(a: Agent, ops: seq<Op>, op: Op)
    requires Inv(a) && LegalRun(a, ops) && Legal(Run(a, ops), op)
    ensures Inv(Run(a, ops)) && LegalRun(a, ops + [op])
    ensures Run(a, ops + [op]) == Step(Run(a, ops), op)
    decreases |ops|
  {
    hide Inv, Step;
    RunKeepsInv(a, ops);
    LegalRunExtends(a, ops, op);
    if |ops| == 0 {
      assert ops + [op] == [op] && |[op][1..]| == 0;
    } else {
      StepKeepsInv(a, ops[0]);
      assert (ops + [op])[1..] == ops[1..] + [op];
      RunOneMore(Step(a, ops[0]), ops[1..], op);
    }
  }

  lemma NewAgentInv(creds: Creds, controlling: bool)
    ensures Inv(NewAgent(creds).(controlling := controlling))
  {
  }

  /**
   Over every sequence of public calls on a new agent, the checklist stays sorted by priority with all indices in
   range and no discarded candidate on it, and no connection state is announced twice in a row.
   */
  lemma ChecklistOverRuns(creds: Creds, controlling: bool, ops: seq<Op>)
    requires LegalRun(NewAgent(creds).(controlling := controlling), ops)
    ensures var a := Run(NewAgent(creds).(controlling := controlling), ops);
            && SortedByPrio(a.pairs) && AllWellFormed(a.pairs, a.local, a.remote) && DistinctIds(a.pairs)
            && (a.remoteCreds.None? ==> NoAttempts(a.pairs))
            && NoRepeats(a.stateLog)
            && a.state == if a.stateLog == [] then New else a.stateLog[|a.stateLog| - 1]
  {
    hide Step;
    NewAgentInv(creds, controlling);
    RunKeepsInv(NewAgent(creds).(controlling := controlling), ops);
  }

  // ---------- Connection state ----------

  /** From any state but New, the agent ends up connected exactly when some pair is nominated. */
  lemma ConnectedIffNominated(a: Agent, now: int)
    requires a.state != New
    ensures EvaluateState(a, now).state.IsConnected() <==> AnyNominated(a.pairs)
  {
  }

  lemma ChangeIsAnnounced(a: Agent, now: int)
    requires a.state != New
    ensures var a' := EvaluateState(a, now);
            a'.events == if a'.state == a.state then a.events else a.events + [StateChange(a'.state)]
  {
    hide AnyNominated, AnyStillPossible;
  }

  /** Looking again changes nothing, and nothing is announced unless the state changes. */
  lemma EvaluateStateIsIdempotent(a: Agent, now: int)
    requires a.state != New
    ensures EvaluateState(EvaluateState(a, now), now) == EvaluateState(a, now)
    ensures var a' := EvaluateState(a, now);
            a'.events == if a'.state == a.state then a.events else a.events + [StateChange(a'.state)]
  {
    ChangeIsAnnounced(a, now);
    hide AnyNominated, AnyStillPossible, EmitEvent;
  }

  /** Disconnected is left only by a nomination. */
  lemma DisconnectedMeans(a: Agent, now: int)
    requires a.state != New
    ensures EvaluateState(a, now).state == Disconnected ==>
              !AnyNominated(a.pairs) &&
              (a.state.IsConnected() || a.state == Disconnected || (a.remote != [] && !AnyStillPossible(a.pairs, now)))
  {
  }

  // ---------- Nomination ----------

  /** The pair that data is sent on, while it is on the checklist, is nominated and eligible. */
  ghost predicate NominationInv(a: Agent) {
    forall x | x in a.pairs && a.nominatedSend == Some(x.id) :: x.IsNominated() && Eligible(a.controlling, x)
  }

  /** Data is sent on a pair with at least this priority. */
  ghost predicate SendsOn(a: Agent, prio: nat) {
    exists z :: z in a.pairs && a.nominatedSend == Some(z.id) && z.IsNominated() && Eligible(a.controlling, z) && z.prio >= prio
  }

  lemma SendingPairFacts(a: Agent)
    requires Inv(a)
    ensures SendingPair(a).Some? ==>
              && SendingPair(a).value < |a.pairs|
              && a.pairs[SendingPair(a).value] in a.pairs
              && a.nominatedSend == Some(a.pairs[SendingPair(a).value].id)
    ensures forall x | x in a.pairs && a.nominatedSend == Some(x.id) ::
              SendingPair(a).Some? && a.pairs[SendingPair(a).value] == x
  {
    forall x | x in a.pairs && a.nominatedSend == Some(x.id)
      ensures SendingPair(a).Some? && a.pairs[SendingPair(a).value] == x
    {
      var k :| 0 <= k < |a.pairs| && a.pairs[k] == x;
      var j := SendingPair(a).value;
      assert j < k || k < j || j == k;
    }
  }

  /**
   Right after a nomination round, if any pair is eligible, data is sent on a nominated, eligible pair whose priority
   is the greatest among the eligible ones.
   */
  lemma NominatesBest(a: Agent)
    requires Inv(a) && NominationInv(a)
    ensures var a' := EvaluateNomination(a);
            && NominationInv(a')
            && forall x | x in a'.pairs && Eligible(a.controlling, x) :: SendsOn(a', x.prio)
  {
    hide Inv;
    var best := BestPair(a.controlling, a.pairs);
    EvaluateNominationKeepsInv(a);
    SendingPairFacts(a);
    if best.Some? {
      var current := SendingPair(a);
      if current.Some? && a.pairs[current.value].prio == a.pairs[best.value].prio {
        assert a.pairs[current.value] in a.pairs;
      } else {
        NewlyNominated(a);
      }
    } else {
      forall x | x in a.pairs ensures !Eligible(a.controlling, x) {
        var k :| 0 <= k < |a.pairs| && a.pairs[k] == x;
      }
    }
  }

  /** When a nomination round changes the pair, the new one is the best one. */
  lemma NewlyNominated(a: Agent)
    requires Inv(a) && BestPair(a.controlling, a.pairs).Some?
    requires SendingPair(a).Some? ==>
               a.pairs[SendingPair(a).value].prio != a.pairs[BestPair(a.controlling, a.pairs).value].prio
    ensures var a' := EvaluateNomination(a);
            var b := BestPair(a.controlling, a.pairs).value;
            && a'.nominatedSend == Some(a.pairs[b].id)
            && NominationInv(a')
            && forall x | x in a'.pairs && Eligible(a.controlling, x) :: SendsOn(a', x.prio)
  {
    var a' := EvaluateNomination(a);
    var b := BestPair(a.controlling, a.pairs).value;
    var z := a'.pairs[b];
    assert z in a'.pairs && z.IsNominated() && Eligible(a.controlling, z) && a'.nominatedSend == Some(z.id);
    forall x | x in a'.pairs ensures (x.id == z.id ==> x == z) && (Eligible(a.controlling, x) ==> x.prio <= z.prio) {
      var k :| 0 <= k < |a'.pairs| && a'.pairs[k] == x;
      assert k != b ==> a'.pairs[k] == a.pairs[k] && a.pairs[k].id != a.pairs[b].id;
    }
  }

  /** While the pair that data is sent on stays on the checklist, a round replaces it only by a higher one. */
  lemma ReplacedOnlyByHigher(a: Agent)
    requires Inv(a) && NominationInv(a) && SendingPair(a).Some?
    ensures var a' := EvaluateNomination(a);
            a'.nominatedSend != a.nominatedSend ==>
              && SendingPair(a').Some?
              && a'.pairs[SendingPair(a').value].prio > a.pairs[SendingPair(a).value].prio
  {
    hide Inv;
    InvMeans(a);
    var a' := EvaluateNomination(a);
    EvaluateNominationKeepsInv(a);
    SendingPairFacts(a);
    SendingPairFacts(a');
    var best := BestPair(a.controlling, a.pairs);
    assert Eligible(a.controlling, a.pairs[SendingPair(a).value]);
    if a'.nominatedSend != a.nominatedSend {
      assert a'.pairs[best.value] in a'.pairs;
    }
  }

  // ---------- Nomination over whole runs ----------

  /** A pair goes on: it keeps its identity, and neither its nomination nor its success is taken back. */
  predicate Evolves(p: Pair, q: Pair) {
    && q.id == p.id && q.prio == p.prio
    && (p.IsNominated() ==> q.IsNominated())
    && (p.state == Succeeded ==> q.state == Succeeded)
  }

  /** Every pair afterwards is one that went on, or is new. */
  ghost predicate Progress(a: Agent, b: Agent) {
    && b.controlling == a.controlling && a.nextId <= b.nextId
    && forall y | y in b.pairs :: y.id >= a.nextId || exists x :: x in a.pairs && Evolves(x, y)
  }

  /** No pair leaves the checklist. */
  ghost predicate KeepsIds(a: Agent, b: Agent) {
    forall x | x in a.pairs :: exists y :: y in b.pairs && y.id == x.id
  }

  /**
   A step in which pairs go on and the nomination policy holds: if the pair that data was sent on is still on the
   checklist, data is sent on a nominated, eligible pair that is no worse.
   */
  ghost predicate NominationStep(a: Agent, b: Agent) {
    && Progress(a, b)
    && NominationInv(b)
    && forall x, y | x in a.pairs && a.nominatedSend == Some(x.id) && y in b.pairs && y.id == x.id :: SendsOn(b, x.prio)
  }

  lemma SameId(a: Agent, x: Pair, y: Pair)
    requires Inv(a) && x in a.pairs && y in a.pairs && x.id == y.id
    ensures x == y
  {
    var i :| 0 <= i < |a.pairs| && a.pairs[i] == x;
    var j :| 0 <= j < |a.pairs| && a.pairs[j] == y;
    assert i < j || j < i || i == j;
  }

  lemma UnchangedNomination(a: Agent, b: Agent)
    requires Inv(a) && NominationInv(a) && Progress(a, b) && b.nominatedSend == a.nominatedSend
    ensures NominationStep(a, b)
  {
    forall y | y in b.pairs && b.nominatedSend == Some(y.id)
      ensures y.IsNominated() && Eligible(b.controlling, y) && SendsOn(b, y.prio)
    {
      var x :| x in a.pairs && Evolves(x, y);
    }
    forall x, y | x in a.pairs && a.nominatedSend == Some(x.id) && y in b.pairs && y.id == x.id
      ensures SendsOn(b, x.prio)
    {
      var x' :| x' in a.pairs && Evolves(x', y);
      SameId(a, x, x');
    }
  }

  lemma ProgressChain(a: Agent, b: Agent, c: Agent)
    requires Progress(a, b) && Progress(b, c)
    ensures Progress(a, c)
  {
    forall y | y in c.pairs ensures y.id >= a.nextId || exists x :: x in a.pairs && Evolves(x, y) {
      if y.id < a.nextId {
        var w :| w in b.pairs && Evolves(w, y);
        var x :| x in a.pairs && Evolves(x, w);
        assert Evolves(x, y);
      }
    }
  }

  lemma StepsChain(a: Agent, b: Agent, c: Agent)
    requires Inv(a) && NominationStep(a, b) && NominationStep(b, c) && KeepsIds(b, c)
    ensures NominationStep(a, c)
  {
    ProgressChain(a, b, c);
    hide Inv, NominationInv;
    forall x, y | x in a.pairs && a.nominatedSend == Some(x.id) && y in c.pairs && y.id == x.id
      ensures SendsOn(c, x.prio)
    {
      IdBelow(a, x);
      var w :| w in b.pairs && Evolves(w, y);
      var z :| z in b.pairs && b.nominatedSend == Some(z.id) && z.prio >= x.prio;
      var z' :| z' in c.pairs && z'.id == z.id;
      assert SendsOn(c, z.prio);
      SendsOnLess(c, z.prio, x.prio);
    }
  }

  lemma SendsOnLess(a: Agent, p: nat, q: nat)
    requires SendsOn(a, p) && q <= p
    ensures SendsOn(a, q)
  {
    var z :| z in a.pairs && a.nominatedSend == Some(z.id) && z.IsNominated() && Eligible(a.controlling, z) && z.prio >= p;
    assert z.prio >= q;
  }

  lemma IdBelow(a: Agent, x: Pair)
    requires Inv(a) && x in a.pairs
    ensures x.id < a.nextId
  {
  }

  lemma KeepsIdsChain(a: Agent, b: Agent, c: Agent)
    requires KeepsIds(a, b) && KeepsIds(b, c)
    ensures KeepsIds(a, c)
  {
    forall x | x in a.pairs ensures exists y :: y in c.pairs && y.id == x.id {
      var y :| y in b.pairs && y.id == x.id;
    }
  }

  /** Pair by pair, the checklist goes on. */
  lemma MapStep(a: Agent, b: Agent)
    requires Inv(a) && NominationInv(a)
    requires b.controlling == a.controlling && a.nextId <= b.nextId && b.nominatedSend == a.nominatedSend
    requires |b.pairs| == |a.pairs| && forall k | 0 <= k < |a.pairs| :: Evolves(a.pairs[k], b.pairs[k])
    ensures NominationStep(a, b) && KeepsIds(a, b)
  {
    PairsProgress(a, b);
    PairsKept(a, b);
    UnchangedNomination(a, b);
  }

  /** Pairs only leave, or new ones come. */
  lemma MembersStep(a: Agent, b: Agent)
    requires Inv(a) && NominationInv(a)
    requires b.controlling == a.controlling && a.nextId <= b.nextId && b.nominatedSend == a.nominatedSend
    requires forall y | y in b.pairs :: y in a.pairs || y.id >= a.nextId
    ensures NominationStep(a, b)
  {
    assert forall y | y in b.pairs && y in a.pairs :: Evolves(y, y);
    UnchangedNomination(a, b);
  }

  lemma EvaluateNominationStep(a: Agent)
    requires Inv(a) && NominationInv(a)
    ensures NominationStep(a, EvaluateNomination(a)) && KeepsIds(a, EvaluateNomination(a))
  {
    var b := EvaluateNomination(a);
    EvaluateNominationKeepsInv(a);
    NominatesBest(a);
    RoundEvolves(a);
    hide Inv, EvaluateNomination, NominationInv, SendsOn;
    PairsProgress(a, b);
    PairsKept(a, b);
    forall x, y | x in a.pairs && a.nominatedSend == Some(x.id) && y in b.pairs && y.id == x.id
      ensures SendsOn(b, x.prio)
    {
      StaysEligible(a, b, x, y);
    }
  }

  lemma RoundEvolves(a: Agent)
    requires Inv(a)
    ensures var b := EvaluateNomination(a);
            |b.pairs| == |a.pairs| && forall k | 0 <= k < |a.pairs| :: Evolves(a.pairs[k], b.pairs[k])
  {
    hide Inv;
    InvMeans(a);
  }

  /** After pairs were dropped, another round makes up for it. */
  lemma PruneStep(a: Agent, now: int)
    requires Inv(a) && NominationInv(a)
    ensures NominationStep(a, Prune(a, now))
  {
    hide Inv, EvaluateNomination, EvaluateState, Retain;
    InvMeans(a);
    EvaluateNominationStep(a);
    EvaluateNominationKeepsInv(a);
    var a1 := EvaluateNomination(a);
    var a2 := a1.(pairs := Retain(a1.pairs, Keep(a.iceLite, now)));
    if |a2.pairs| != |a1.pairs| {
      RetainKeepsInv(a1, Keep(a.iceLite, now));
      RetainFacts(a1.pairs, Keep(a.iceLite, now));
      MembersStep(a1, a2);
      InvMeans(a2);
      NominatesBest(a2);
      EvaluateNominationKeepsInv(a2);
      RoundEvolves(a2);
      var a3 := EvaluateNomination(a2);
      EvaluateStateKeepsInv(a3, now);
      BestAfterAll(a, a1, a2, a3);
      SamePairs(a, a3, EvaluateState(a3, now));
    }
  }

  lemma SamePairs(a: Agent, b: Agent, c: Agent)
    requires NominationStep(a, b)
    requires c.pairs == b.pairs && c.nominatedSend == b.nominatedSend && c.controlling == b.controlling && c.nextId == b.nextId
    ensures NominationStep(a, c)
    ensures KeepsIds(a, b) ==> KeepsIds(a, c)
  {
    forall p | SendsOn(b, p) ensures SendsOn(c, p) {
    }
  }

  lemma PairsProgress(a: Agent, b: Agent)
    requires b.controlling == a.controlling && a.nextId <= b.nextId
    requires |b.pairs| == |a.pairs| && forall k | 0 <= k < |a.pairs| :: Evolves(a.pairs[k], b.pairs[k])
    ensures Progress(a, b)
  {
    forall y | y in b.pairs ensures exists x :: x in a.pairs && Evolves(x, y) {
      var k :| 0 <= k < |b.pairs| && b.pairs[k] == y;
      assert a.pairs[k] in a.pairs;
    }
  }

  lemma PairsKept(a: Agent, b: Agent)
    requires |b.pairs| == |a.pairs| && forall k | 0 <= k < |a.pairs| :: Evolves(a.pairs[k], b.pairs[k])
    ensures KeepsIds(a, b)
  {
    forall x | x in a.pairs ensures exists y :: y in b.pairs && y.id == x.id {
      var k :| 0 <= k < |a.pairs| && a.pairs[k] == x;
      assert b.pairs[k] in b.pairs;
    }
  }

  lemma BestAfterAll(a: Agent, a1: Agent, a2: Agent, a3: Agent)
    requires Inv(a) && NominationInv(a)
    requires NominationStep(a, a1) && NominationStep(a1, a2)
    requires NominationInv(a3) && a3.controlling == a2.controlling && a3.nextId == a2.nextId
    requires |a3.pairs| == |a2.pairs| && forall k | 0 <= k < |a2.pairs| :: Evolves(a2.pairs[k], a3.pairs[k])
    requires forall x | x in a3.pairs && Eligible(a2.controlling, x) :: SendsOn(a3, x.prio)
    ensures NominationStep(a, a3)
  {
    hide Inv, NominationInv, SendsOn;
    ProgressChain(a, a1, a2);
    PairsProgress(a2, a3);
    ProgressChain(a, a2, a3);
    forall x, y | x in a.pairs && a.nominatedSend == Some(x.id) && y in a3.pairs && y.id == x.id
      ensures SendsOn(a3, x.prio)
    {
      StaysEligible(a, a3, x, y);
    }
  }

  lemma StaysEligible(a: Agent, b: Agent, x: Pair, y: Pair)
    requires Inv(a) && NominationInv(a) && Progress(a, b)
    requires x in a.pairs && a.nominatedSend == Some(x.id) && y in b.pairs && y.id == x.id
    ensures Eligible(b.controlling, y) && y.prio == x.prio
  {
    IdBelow(a, x);
    var x' :| x' in a.pairs && Evolves(x', y);
    SameId(a, x, x');
  }

  // ---------- Every operation ----------

  /** Nothing but the checklist has changed, where pairs left or new ones came, which were never checked. */
  ghost predicate OnlyMembers(a: Agent, b: Agent) {
    && b.controlling == a.controlling && a.nextId <= b.nextId && b.nominatedSend == a.nominatedSend
    && forall y | y in b.pairs :: y in a.pairs || (y.id >= a.nextId && y.attempts == [])
  }

  lemma OnlyMembersChain(a: Agent, b: Agent, c: Agent)
    requires OnlyMembers(a, b) && OnlyMembers(b, c)
    ensures OnlyMembers(a, c)
  {
  }

  lemma FormPairMembers(a: Agent, l: nat, r: nat)
    requires Forming(a) && l < |a.local| && !a.local[l].discarded && r < |a.remote| && !a.remote[r].discarded
    ensures OnlyMembers(a, FormPair(a, l, r))
  {
    FormingMeans(a);
    hide Forming, FindRedundant;
    FindRedundantInRange(a, a.local[l], a.remote[r]);
    var b := FormPair(a, l, r);
    forall y | y in b.pairs ensures y in a.pairs || (y.id >= a.nextId && y.attempts == []) {
      var k :| 0 <= k < |b.pairs| && b.pairs[k] == y;
      assert k < |a.pairs| ==> b.pairs[k] == a.pairs[k] || (b.pairs[k].id == a.nextId && b.pairs[k].attempts == []);
    }
  }

  lemma {:induction false} FormRowMembers(a: Agent, l: nat, rs: seq<nat>)
    requires Forming(a) && l < |a.local| && !a.local[l].discarded && Usable(a.remote, rs)
    ensures OnlyMembers(a, FormRow(a, l, rs))
    decreases |rs|
  {
    FormingMeans(a);
    if rs != [] {
      hide Forming, FormPair, OnlyMembers;
      FormPairMembers(a, l, rs[0]);
      FormPairKeepsForming(a, l, rs[0]);
      FormRowMembers(FormPair(a, l, rs[0]), l, rs[1..]);
      OnlyMembersChain(a, FormPair(a, l, rs[0]), FormRow(a, l, rs));
    }
  }

  lemma {:induction false} FormRowsMembers(a: Agent, ls: seq<nat>, rs: seq<nat>)
    requires Forming(a) && Usable(a.local, ls) && Usable(a.remote, rs)
    ensures OnlyMembers(a, FormRows(a, ls, rs))
    decreases |ls|
  {
    FormingMeans(a);
    if ls != [] {
      hide Forming, FormRow, OnlyMembers;
      FormRowMembers(a, ls[0], rs);
      FormRowKeepsForming(a, ls[0], rs);
      FormRowsMembers(FormRow(a, ls[0], rs), ls[1..], rs);
      OnlyMembersChain(a, FormRow(a, ls[0], rs), FormRows(a, ls, rs));
    }
  }

  lemma FormPairsMembers(a: Agent, ls: seq<nat>, rs: seq<nat>)
    requires Forming(a) && Usable(a.local, ls) && Usable(a.remote, rs)
    ensures OnlyMembers(a, FormPairs(a, ls, rs))
  {
    FormingMeans(a);
    hide Forming, FormRows;
    FormRowsMembers(a, ls, rs);
    SortPairsFacts(FormRows(a, ls, rs).pairs);
  }

  lemma AddLocalStep(a: Agent, c: Candidate)
    requires Inv(a) && NominationInv(a) && c.Valid() && !c.discarded && HasPreferenceLeft(a, c)
    ensures NominationStep(a, AddLocalCandidate(a, c).0)
  {
    hide Inv, FormPairs, FindSame, NominationStep, Retain, Candidate.Prio;
    if a.iceLite && c.kind != Host {
      MembersStep(a, a);
    } else {
      var c1 := Adopted(a, c);
      var same := FindSame(a.local, c1);
      SameInRange(a.local, c1);
      if same.Some? {
        DiscardLocalKeepsInv(a, same.value);
        RetainFacts(a.pairs, NotWithLocal(same.value));
      }
      var a1 := if same.Some? then DiscardLocal(a, same.value) else a;
      assert OnlyMembers(a, a1);
      PushLocalKeepsForming(a1, c1);
      var a2 := a1.(local := a1.local + [c1]);
      FormPairsMembers(a2, [|a1.local|], PairableFrom(a1.remote, c1.addr.ipv6, 0));
      MembersStep(a, AddLocalCandidate(a, c).0);
    }
  }

  lemma AddRemoteStep(a: Agent, c: Candidate)
    requires Inv(a) && NominationInv(a) && c.Valid() && !c.discarded
    ensures NominationStep(a, AddRemoteCandidate(a, c))
  {
    hide Inv, FormPairs, NominationStep;
    if c.componentId == 1 && !(a.remoteCreds.Some? && c.ufrag.Some? && c.ufrag.value != a.remoteCreds.value.ufrag) {
      var (a1, idx) := PlaceRemote(a, c.(ufrag := None));
      PlaceRemoteKeepsInv(a, c.(ufrag := None));
      InvIsForming(a1);
      FormPairsMembers(a1, PairableFrom(a.local, c.addr.ipv6, 0), [idx]);
    }
    MembersStep(a, AddRemoteCandidate(a, c));
  }

  lemma InvalidateStep(a: Agent, c: Candidate)
    requires Inv(a) && NominationInv(a)
    ensures NominationStep(a, InvalidateCandidate(a, c).0)
  {
    hide Inv, FindExact, NominationStep;
    var l, r := FindExact(a.local, c), FindExact(a.remote, c);
    if l.Some? {
      RetainFacts(a.pairs, NotWithLocal(l.value));
    }
    if r.Some? {
      RetainFacts(a.pairs, NotWithRemote(r.value));
    }
    MembersStep(a, InvalidateCandidate(a, c).0);
  }

  lemma NewAttemptEvolves(p: Pair, now: int, id: nat)
    ensures Evolves(p, p.NewAttempt(now, id))
  {
  }

  lemma CountedStep(a: Agent, k: nat, req: StunRequest)
    requires Inv(a) && NominationInv(a) && k < |a.pairs|
    ensures NominationStep(a, Counted(a, k, req)) && KeepsIds(a, Counted(a, k, req))
  {
    hide Inv, NominationStep, KeepsIds, NominationInv;
    MapStep(a, Counted(a, k, req));
  }

  lemma AnswerRequestStep(a: Agent, l: nat, r: nat, req: StunRequest)
    requires Inv(a) && NominationInv(a) && FindPair(a.pairs, l, r).Some?
    ensures NominationStep(a, AnswerRequest(a, l, r, req)) && KeepsIds(a, AnswerRequest(a, l, r, req))
  {
    hide Inv, EvaluateNomination, FindPair, NominationStep, KeepsIds, NominationInv;
    FoundPair(a, l, r);
    var k := FindPair(a.pairs, l, r).value;
    var a1 := Counted(a, k, req);
    CountedKeepsInv(a, k, req);
    CountedStep(a, k, req);
    hide Counted;
    StepInv(a, a1);
    var b := AnswerRequest(a, l, r, req);
    if a.controlling && a1.pairs[k].state == Succeeded {
      InvMeans(a1);
      EvaluateNominationStep(a1);
      EvaluateNominationKeepsInv(a1);
      StepsChain(a, a1, EvaluateNomination(a1));
      KeepsIdsChain(a, a1, EvaluateNomination(a1));
      SamePairs(a, EvaluateNomination(a1), b);
    } else {
      SamePairs(a, a1, b);
    }
  }

  lemma WithPairStep(a: Agent, l: nat, r: nat)
    requires Inv(a) && NominationInv(a) && l < |a.local| && r < |a.remote|
    requires !a.local[l].discarded && !a.remote[r].discarded
    ensures NominationStep(a, WithPair(a, l, r)) && KeepsIds(a, WithPair(a, l, r))
  {
    hide Inv, WithPair;
    WithPairKeepsInv(a, l, r);
    WithPairAddsOne(a, l, r);
    WithPairCounts(a, l, r);
    MembersStep(a, WithPair(a, l, r));
  }

  lemma PairAndAnswerStep(a: Agent, l: nat, r: nat, req: StunRequest)
    requires Inv(a) && NominationInv(a) && l < |a.local| && r < |a.remote|
    requires !a.local[l].discarded && !a.remote[r].discarded
    requires Inv(WithPair(a, l, r)) && FindPair(WithPair(a, l, r).pairs, l, r).Some?
    ensures var b := AnswerRequest(WithPair(a, l, r), l, r, req);
            NominationStep(a, b) && KeepsIds(a, b)
  {
    hide Inv, WithPair, AnswerRequest, FindPair, NominationStep, KeepsIds, NominationInv;
    WithPairStep(a, l, r);
    var a1 := WithPair(a, l, r);
    StepInv(a, a1);
    AnswerRequestStep(a1, l, r, req);
    StepsChain(a, a1, AnswerRequest(a1, l, r, req));
    KeepsIdsChain(a, a1, AnswerRequest(a1, l, r, req));
  }

  lemma HandleRequestStep(a: Agent, req: StunRequest)
    requires Inv(a) && NominationInv(a) && a.remoteCreds.Some?
    ensures NominationStep(a, HandleRequest(a, req)) && KeepsIds(a, HandleRequest(a, req))
  {
    hide Inv, WithSource, WithPair, AnswerRequest, FindPair, NominationStep, KeepsIds, NominationInv, FindDestination;
    MapStep(a, a);
    if req.remoteUfrag == a.remoteCreds.value.ufrag && !(req.useCandidate && a.controlling) {
      var (a1, r) := WithSource(a, req);
      WithSourceKeepsInv(a, req);
      MapStep(a, a1);
      StepInv(a, a1);
      var dest := FindDestination(a1.local, req.proto, req.destination);
      DestinationInRange(a1.local, req.proto, req.destination);
      if dest.Some? && !(FindPair(a1.pairs, dest.value, r).None? && a1.local[dest.value].discarded) {
        FoundPairIsUsable(a1, dest.value, r);
        WithPairKeepsInv(a1, dest.value, r);
        PairAndAnswerStep(a1, dest.value, r, req);
        StepsChain(a, a1, AnswerRequest(WithPair(a1, dest.value, r), dest.value, r, req));
        KeepsIdsChain(a, a1, AnswerRequest(WithPair(a1, dest.value, r), dest.value, r, req));
      }
    }
  }

  lemma DestinationInRange(cs: seq<Candidate>, proto: Protocol, destination: Address)
    ensures FindDestination(cs, proto, destination).Some? ==> FindDestination(cs, proto, destination).value < |cs|
  {
  }

  lemma WithPairCounts(a: Agent, l: nat, r: nat)
    requires Inv(a) && l < |a.local| && r < |a.remote|
    ensures WithPair(a, l, r).nextId >= a.nextId
  {
  }

  lemma RespondedStep(a: Agent, now: int, transId: nat, mapped: Address, k: nat)
    requires Inv(a) && NominationInv(a) && k < |a.pairs| && a.pairs[k].HasBindingAttempt(transId)
    ensures NominationStep(a, Responded(a, now, transId, mapped, k)) && KeepsIds(a, Responded(a, now, transId, mapped, k))
  {
    WithMappedKeepsInv(a, k, mapped);
    hide Inv, WithMapped;
    MapStep(a, Responded(a, now, transId, mapped, k));
  }

  lemma HandleResponseStep(a: Agent, now: int, transId: nat, mapped: Address)
    requires Inv(a) && NominationInv(a)
    ensures NominationStep(a, HandleResponse(a, now, transId, mapped))
  {
    hide Inv, EvaluateNomination, EvaluateState, Responded;
    var k := FindAttempt(a.pairs, transId);
    if k.None? {
      MapStep(a, a);
    } else {
      RespondedKeepsInv(a, now, transId, mapped, k.value);
      RespondedStep(a, now, transId, mapped, k.value);
      var a1 := Responded(a, now, transId, mapped, k.value);
      InvMeans(a1);
      EvaluateNominationKeepsInv(a1);
      EvaluateNominationStep(a1);
      var a2 := if a1.controlling then EvaluateNomination(a1) else a1;
      if a1.controlling {
        StepsChain(a, a1, a2);
      }
      EvaluateStateKeepsInv(a2, now);
      SamePairs(a, a2, EvaluateState(a2, now));
    }
  }

  lemma HandlePacketStep(a: Agent, now: int, packet: Packet)
    requires Inv(a) && NominationInv(a) && Parsed(packet.message)
    ensures NominationStep(a, HandlePacket(a, now, packet).0)
  {
    hide Inv, HandleRequest, HandleResponse, NominationStep;
    var m := packet.message;
    MapStep(a, a);
    if AcceptsMessage(a, m) {
      var b := if m.cls == Request then HandleMessage(a, now, packet)
               else if m.cls == Success then HandleResponse(a, now, m.transId, m.mapped.value)
               else a;
      if m.cls == Request {
        if a.remoteCreds.Some? {
          HandleRequestStep(a, StunRequest(now, packet.proto, packet.source, packet.destination, m.transId,
                                           m.prio.value, m.useCandidate, m.username.value.1));
        } else {
          MapStep(a, b);
        }
      } else if m.cls == Success {
        HandleResponseStep(a, now, m.transId, m.mapped.value);
      }
      SamePairs(a, b, HandlePacket(a, now, packet).0);
    }
  }

  lemma CheckDueStep(a: Agent, now: int)
    requires Inv(a) && NominationInv(a) && a.remoteCreds.Some?
    ensures NominationStep(a, CheckDue(a, now)) && KeepsIds(a, CheckDue(a, now))
  {
    hide Inv, NextPair, Pair.NewAttempt;
    var a1 := a.(pairs := Scheduled(a.pairs, now));
    MapKeepsInv(a, a1.pairs);
    var b := CheckDue(a, now);
    var next := NextPair(a.pairs, now);
    forall k | 0 <= k < |a.pairs| ensures |b.pairs| == |a.pairs| && Evolves(a.pairs[k], b.pairs[k]) {
      NewAttemptEvolves(a1.pairs[k], now, a1.nextId);
    }
    MapStep(a, b);
  }

  lemma HandleTimeoutStep(a: Agent, now: int)
    requires Inv(a) && NominationInv(a)
    ensures NominationStep(a, HandleTimeout(a, now))
  {
    hide Inv, EvaluateState, DropOld, HandleRequest, Prune, CheckDue, NominationStep, KeepsIds;
    var a0 := if a.state == New then EmitEvent(a, IceRestarted(a.localCreds)) else a;
    EmitEventKeepsInv(a, IceRestarted(a.localCreds));
    var a1 := EvaluateState(a0, now);
    EvaluateStateKeepsInv(a0, now);
    var queue := DropOld(a1.stunServerQueue, now);
    QueueKeepsInv(a1, if queue == [] then [] else queue[1..]);
    if a1.remoteCreds.Some? && queue != [] {
      var b := a1.(stunServerQueue := queue[1..]);
      MapStep(a, b);
      HandleRequestStep(b, queue[0]);
      StepsChain(a, b, HandleRequest(b, queue[0]));
    } else {
      var a2 := (if a1.remoteCreds.Some? then a1.(stunServerQueue := []) else a1).(lastNow := Some(now));
      TimeKeepsInv(if a1.remoteCreds.Some? then a1.(stunServerQueue := []) else a1, now);
      PruneKeepsInv(a2, now);
      PruneStep(a2, now);
      var a3 := Prune(a2, now);
      SameStart(a, a2, a3);
      if a3.remoteCreds.Some? {
        StepInv(a, a3);
        if a3.iceLite {
          var b := a3.(pairs := CountFromNow(a3.pairs, now));
          MapStep(a3, b);
          StepsChain(a, a3, b);
        } else {
          CheckDueStep(a3, now);
          StepsChain(a, a3, CheckDue(a3, now));
        }
      }
    }
  }

  lemma SameStart(a: Agent, b: Agent, c: Agent)
    requires NominationStep(b, c)
    requires b.pairs == a.pairs && b.nominatedSend == a.nominatedSend && b.controlling == a.controlling && b.nextId == a.nextId
    ensures NominationStep(a, c)
  {
  }

  lemma StepInv(a: Agent, b: Agent)
    requires NominationStep(a, b)
    ensures NominationInv(b)
  {
  }

  lemma PollTimeoutStep(a: Agent)
    requires Inv(a) && NominationInv(a)
    ensures NominationStep(a, PollTimeout(a).0)
  {
    hide Inv, NextPair;
    MapStep(a, PollTimeout(a).0);
  }

  /** Every operation but a change of role keeps to the nomination policy. */
  lemma OpStep(a: Agent, op: Op)
    requires Inv(a) && NominationInv(a) && Legal(a, op) && !op.SetControlling?
    ensures NominationStep(a, Step(a, op))
  {
    hide Inv, NominationStep, AddLocalCandidate, AddRemoteCandidate, InvalidateCandidate, HandlePacket, HandleTimeout, PollTimeout;
    match op
    case AddLocal(c) => AddLocalStep(a, c);
    case AddRemote(c) => AddRemoteStep(a, c);
    case Invalidate(c) => InvalidateStep(a, c);
    case Restart(creds, keepLocal) => MembersStep(a, Step(a, op));
    case Receive(now, packet) => HandlePacketStep(a, now, packet);
    case Timeout(now) => HandleTimeoutStep(a, now);
    case AskTimeout => PollTimeoutStep(a);
    case AskTransmit => MapStep(a, Step(a, op));
    case AskEvent => MapStep(a, Step(a, op));
    case SetLocalCreds(creds) => MapStep(a, Step(a, op));
    case SetRemoteCreds(creds) => MapStep(a, Step(a, op));
    case SetIceLite(iceLite) => MapStep(a, Step(a, op));
    case SetMaxPairs(max) => MapStep(a, Step(a, op));
  }

  ghost predicate FixedRole(ops: seq<Op>) {
    forall k | 0 <= k < |ops| :: !ops[k].SetControlling?
  }

  /**
   Over every run with a fixed role: a nomination round leaves data going over the best eligible pair, and any one
   more operation leaves it, if the pair that data was sent on is still there, on a pair that is no worse.
   */
  lemma {:induction false} NominationOverRuns(a: Agent, ops: seq<Op>)
    requires Inv(a) && NominationInv(a) && LegalRun(a, ops) && FixedRole(ops)
    ensures var b := Run(a, ops);
            && Inv(b) && NominationInv(b)
            && (forall x | x in EvaluateNomination(b).pairs && Eligible(b.controlling, x) ::
                  SendsOn(EvaluateNomination(b), x.prio))
            && forall op | Legal(b, op) && !op.SetControlling? :: NominationStep(b, Step(b, op))
    decreases |ops|
  {
    hide Inv, Step, Legal;
    if |ops| > 0 {
      OpStep(a, ops[0]);
      StepInv(a, Step(a, ops[0]));
      StepKeepsInv(a, ops[0]);
      NominationOverRuns(Step(a, ops[0]), ops[1..]);
    } else {
      NominatesBest(a);
      forall op | Legal(a, op) && !op.SetControlling? ensures NominationStep(a, Step(a, op)) {
        OpStep(a, op);
      }
    }
  }

  lemma NewAgentNominationInv(creds: Creds, controlling: bool)
    ensures NominationInv(NewAgent(creds).(controlling := controlling))
  {
  }
}
