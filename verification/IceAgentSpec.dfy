/**
 The ICE agent of ice/agent.rs as functions on its state, one for each operation.
 */
module IceAgentSpec {
  import opened Bytes
  import opened Stun
  import opened IcePair
  import opened IceCandidate

  datatype Creds = Creds(ufrag: string, pass: string)

  datatype ConnState = New | Checking | Connected | Completed | Disconnected {
    predicate IsConnected() {
      Connected? || Completed?
    }
  }

  datatype Event =
    | IceRestarted(creds: Creds)
    | StateChange(state: ConnState)
    | DiscoveredRecv(proto: Protocol, source: Address)
    | NominatedSend(proto: Protocol, source: Address, destination: Address)

  /** The STUN messages sent; their bytes are the business of the STUN printer. */
  datatype Outgoing =
    | CheckRequest(transId: nat, username: string, password: string, controlling: bool, prio: nat, useCandidate: bool)
    | CheckReply(transId: nat, password: string, mappedAddress: Address)

  datatype Transmit = Transmit(proto: Protocol, source: Address, destination: Address, contents: Outgoing)

  datatype StunRequest = StunRequest(
    now: int, proto: Protocol, source: Address, destination: Address, transId: nat, prio: nat, useCandidate: bool,
    remoteUfrag: string)

  /**
   The agent. Random pair and transaction ids are fresh numbers from nextId. stateLog lists all connection states
   ever announced, for stating what holds over whole runs.
   */
  datatype Agent = Agent(
    lastNow: Option<int>, iceLite: bool, maxCandidatePairs: Option<nat>, localCreds: Creds, remoteCreds: Option<Creds>,
    controlling: bool, state: ConnState, local: seq<Candidate>, remote: seq<Candidate>, pairs: seq<Pair>,
    transmit: seq<Transmit>, events: seq<Event>, stunServerQueue: seq<StunRequest>,
    discoveredRecv: set<(Protocol, Address)>, nominatedSend: Option<nat>, nextId: nat, stateLog: seq<ConnState>)

  function NewAgent(creds: Creds): Agent {
    Agent(None, false, None, creds, None, false, New, [], [], [], [], [], [], {}, None, 0, [])
  }

  function NewPair(id: nat, localIdx: nat, remoteIdx: nat, prio: nat): Pair {
    Pair(id, localIdx, remoteIdx, None, prio, Waiting, [], None, 0, None, NotNominated)
  }

  // ---------- The invariant that makes the operations well defined ----------

  /** The pair's candidates exist and neither was discarded. */
  predicate WellFormed(p: Pair, local: seq<Candidate>, remote: seq<Candidate>) {
    && p.localIdx < |local| && p.remoteIdx < |remote|
    && !local[p.localIdx].discarded && !remote[p.remoteIdx].discarded
    && (p.validIdx.Some? ==> p.validIdx.value < |local|)
  }

  predicate AllWellFormed(pairs: seq<Pair>, local: seq<Candidate>, remote: seq<Candidate>) {
    forall k | 0 <= k < |pairs| :: WellFormed(pairs[k], local, remote)
  }

  predicate AllValid(cs: seq<Candidate>) {
    forall k | 0 <= k < |cs| :: cs[k].Valid()
  }

  /** Highest priority first. */
  predicate SortedByPrio(pairs: seq<Pair>) {
    forall i, j | 0 <= i < j < |pairs| :: pairs[i].prio >= pairs[j].prio
  }

  predicate DistinctIds(pairs: seq<Pair>) {
    forall i, j | 0 <= i < j < |pairs| :: pairs[i].id != pairs[j].id
  }

  predicate IdsBelow(pairs: seq<Pair>, n: nat) {
    forall k | 0 <= k < |pairs| :: pairs[k].id < n
  }

  /** Checks are only ever sent with remote credentials at hand. */
  predicate NoAttempts(pairs: seq<Pair>) {
    forall k | 0 <= k < |pairs| :: pairs[k].attempts == []
  }

  // ---------- Events and state ----------

  function EmitEvent(a: Agent, e: Event): Agent {
    if e.DiscoveredRecv? then
      if (e.proto, e.source) in a.discoveredRecv then a
      else a.(discoveredRecv := a.discoveredRecv + {(e.proto, e.source)}, events := a.events + [e])
    else a.(events := a.events + [e])
  }

  function SetConnectionState(a: Agent, s: ConnState): Agent {
    if a.state == s then a
    else EmitEvent(a.(state := s, stateLog := a.stateLog + [s]), StateChange(s))
  }

  predicate AnyNominated(pairs: seq<Pair>) {
    exists k :: 0 <= k < |pairs| && pairs[k].IsNominated()
  }

  predicate AnyStillPossible(pairs: seq<Pair>, now: int) {
    exists k :: 0 <= k < |pairs| && !pairs[k].IsNominated() && pairs[k].IsStillPossible(now)
  }

  function EvaluateState(a: Agent, now: int): Agent {
    var nominated := AnyNominated(a.pairs);
    var possible := AnyStillPossible(a.pairs, now) || a.remote == [];
    match a.state
    case New => SetConnectionState(a, Checking)
    case Connected =>
      if !nominated then SetConnectionState(a, Disconnected)
      else if !possible then SetConnectionState(a, Completed)
      else a
    case Completed =>
      if !nominated then SetConnectionState(a, Disconnected)
      else if possible && !a.iceLite then SetConnectionState(a, Connected)
      else a
    case _ =>
      if nominated then
        if a.iceLite then SetConnectionState(a, Completed)
        else SetConnectionState(a, if possible then Connected else Completed)
      else if !possible then SetConnectionState(a, Disconnected)
      else a
  }

  // ---------- Nomination ----------

  predicate Eligible(controlling: bool, p: Pair) {
    if controlling then p.state == Succeeded else p.IsNominated()
  }

  /** The place of the eligible pair with the highest priority, the last one of several. */
  function BestPair(controlling: bool, pairs: seq<Pair>): (r: Option<nat>)
    ensures r.None? ==> forall k | 0 <= k < |pairs| :: !Eligible(controlling, pairs[k])
    ensures r.Some? ==>
              && r.value < |pairs| && Eligible(controlling, pairs[r.value])
              && (forall k | 0 <= k < |pairs| && Eligible(controlling, pairs[k]) :: pairs[k].prio <= pairs[r.value].prio)
              && (forall k | r.value < k < |pairs| && Eligible(controlling, pairs[k]) :: pairs[k].prio < pairs[r.value].prio)
  {
    if pairs == [] then None
    else
      var n := |pairs| - 1;
      var best := BestPair(controlling, pairs[..n]);
      if !Eligible(controlling, pairs[n]) then best
      else if best.Some? && pairs[best.value].prio > pairs[n].prio then best
      else Some(n)
  }

  /** The place of the first pair with an id. */
  function FindId(pairs: seq<Pair>, id: nat): (r: Option<nat>)
    ensures r.None? ==> forall k | 0 <= k < |pairs| :: pairs[k].id != id
    ensures r.Some? ==> r.value < |pairs| && pairs[r.value].id == id && forall k | 0 <= k < r.value :: pairs[k].id != id
  {
    if pairs == [] then None
    else if pairs[0].id == id then Some(0)
    else
      var r := FindId(pairs[1..], id);
      if r.None? then None else Some(r.value + 1)
  }

  /** The place of the pair that data is sent on, if it is still there. */
  function SendingPair(a: Agent): Option<nat> {
    if a.nominatedSend.None? then None else FindId(a.pairs, a.nominatedSend.value)
  }

  function EvaluateNomination(a: Agent): Agent
    requires AllWellFormed(a.pairs, a.local, a.remote)
  {
    var best := BestPair(a.controlling, a.pairs);
    var current := SendingPair(a);
    if best.None? then a
    else if current.Some? && a.pairs[current.value].prio == a.pairs[best.value].prio then a
    else
      var p := a.pairs[best.value];
      var p' := if !p.IsNominated() && (a.controlling || a.iceLite) then p.Nominate(a.iceLite) else p;
      EmitEvent(a.(pairs := a.pairs[best.value := p'], nominatedSend := Some(p.id)),
                NominatedSend(a.local[p.localIdx].proto, a.local[p.localIdx].Base(), a.remote[p.remoteIdx].addr))
  }

  // ---------- The checklist ----------

  /** Insertion before the first pair that is not higher: with it, sorting is stable. */
  function InsertPair(p: Pair, s: seq<Pair>): seq<Pair> {
    if s == [] || s[0].prio <= p.prio then [p] + s else [s[0]] + InsertPair(p, s[1..])
  }

  /** The standard library's stable sort, highest priority first. */
  function SortPairs(s: seq<Pair>): seq<Pair> {
    if s == [] then [] else InsertPair(s[0], SortPairs(s[1..]))
  }

  /** The pairs that satisfy keep, in order (the standard library's retain). */
  function Retain(s: seq<Pair>, keep: Pair -> bool): seq<Pair> {
    if s == [] then []
    else (if keep(s[0]) then [s[0]] else []) + Retain(s[1..], keep)
  }

  predicate Redundant(l: Candidate, r: Candidate, checkL: Candidate, checkR: Candidate) {
    l.Base() == checkL.Base() && r.addr == checkR.addr && l.proto == checkL.proto && r.proto == checkR.proto
  }

  /** The place of the first pair that is redundant with a new pair of the candidates l and r. */
  function FindRedundant(a: Agent, l: Candidate, r: Candidate, from: nat): (k: Option<nat>)
    requires AllWellFormed(a.pairs, a.local, a.remote) && from <= |a.pairs|
    ensures k.Some? ==> from <= k.value < |a.pairs|
    decreases |a.pairs| - from
  {
    if from == |a.pairs| then None
    else if Redundant(l, r, a.local[a.pairs[from].localIdx], a.remote[a.pairs[from].remoteIdx]) then Some(from)
    else FindRedundant(a, l, r, from + 1)
  }

  /** The indices name candidates that were not discarded. */
  predicate Usable(cs: seq<Candidate>, idxs: seq<nat>) {
    forall k | 0 <= k < |idxs| :: idxs[k] < |cs| && !cs[idxs[k]].discarded
  }

  /** Forms one pair; a redundant one is skipped, or takes the place of one with a lower priority. */
  function FormPair(a: Agent, l: nat, r: nat): (a': Agent)
    requires AllWellFormed(a.pairs, a.local, a.remote) && AllValid(a.local) && AllValid(a.remote)
    requires l < |a.local| && !a.local[l].discarded && r < |a.remote| && !a.remote[r].discarded
    ensures AllWellFormed(a'.pairs, a.local, a.remote)
    ensures a' == a.(pairs := a'.pairs, nextId := a'.nextId)
  {
    var local, remote := a.local[l], a.remote[r];
    if local.proto != remote.proto then a
    else
      var p := NewPair(a.nextId, l, r, CalculatePrio(a.controlling, remote.Prio(), local.Prio()));
      var a1 := a.(nextId := a.nextId + 1);
      var k := FindRedundant(a, local, remote, 0);
      if k.None? then a1.(pairs := a.pairs + [p])
      else
        var check := a.pairs[k.value];
        if check.prio >= p.prio then a1
        else
          var p1 := p.Nominate(check.IsNominated());
          var p2 := if a.iceLite then p1.(remoteBindingRequests := check.remoteBindingRequests,
                                          remoteBindingRequestTime := check.remoteBindingRequestTime)
                    else p1;
          a1.(pairs := a.pairs[k.value := p2])
  }

  function FormRow(a: Agent, l: nat, rs: seq<nat>): (a': Agent)
    requires AllWellFormed(a.pairs, a.local, a.remote) && AllValid(a.local) && AllValid(a.remote)
    requires l < |a.local| && !a.local[l].discarded && Usable(a.remote, rs)
    ensures AllWellFormed(a'.pairs, a.local, a.remote)
    ensures a' == a.(pairs := a'.pairs, nextId := a'.nextId)
    decreases |rs|
  {
    if rs == [] then a else FormRow(FormPair(a, l, rs[0]), l, rs[1..])
  }

  function FormRows(a: Agent, ls: seq<nat>, rs: seq<nat>): (a': Agent)
    requires AllWellFormed(a.pairs, a.local, a.remote) && AllValid(a.local) && AllValid(a.remote)
    requires Usable(a.local, ls) && Usable(a.remote, rs)
    ensures AllWellFormed(a'.pairs, a.local, a.remote)
    ensures a' == a.(pairs := a'.pairs, nextId := a'.nextId)
    decreases |ls|
  {
    if ls == [] then a else FormRows(FormRow(a, ls[0], rs), ls[1..], rs)
  }

  /** Pairs up candidates, sorts the checklist, and cuts it off at the limit. */
  function FormPairs(a: Agent, ls: seq<nat>, rs: seq<nat>): Agent
    requires AllWellFormed(a.pairs, a.local, a.remote) && AllValid(a.local) && AllValid(a.remote)
    requires Usable(a.local, ls) && Usable(a.remote, rs)
  {
    var a1 := FormRows(a, ls, rs);
    var sorted := SortPairs(a1.pairs);
    var max := if a.maxCandidatePairs.Some? then a.maxCandidatePairs.value else 100;
    a1.(pairs := if |sorted| > max then sorted[..max] else sorted)
  }

  /** The indices of the candidates that a new one of the given address family is paired with. */
  function PairableFrom(cs: seq<Candidate>, ipv6: bool, from: nat): (r: seq<nat>)
    requires from <= |cs|
    ensures Usable(cs, r)
    decreases |cs| - from
  {
    if from == |cs| then []
    else (if !cs[from].discarded && cs[from].addr.ipv6 == ipv6 then [from] else []) + PairableFrom(cs, ipv6, from + 1)
  }

  /** The first candidate that satisfies a test. */
  function FindFirst(cs: seq<Candidate>, test: Candidate -> bool): (r: Option<nat>)
    ensures r.Some? ==> r.value < |cs| && test(cs[r.value])
    ensures r.None? ==> forall k | 0 <= k < |cs| :: !test(cs[k])
  {
    if cs == [] then None
    else if test(cs[0]) then Some(0)
    else
      var r := FindFirst(cs[1..], test);
      if r.None? then None else Some(r.value + 1)
  }

  function WithDiscarded(cs: seq<Candidate>, k: nat): seq<Candidate>
    requires k < |cs|
  {
    cs[k := cs[k].(discarded := true)]
  }

  // ---------- What every operation keeps ----------

  predicate NoRepeats(log: seq<ConnState>) {
    forall k | 0 < k < |log| :: log[k] != log[k - 1]
  }

  /** The state is the last one announced; before the first announcement it is New. */
  predicate LogMatches(a: Agent) {
    NoRepeats(a.stateLog) && a.state == if a.stateLog == [] then New else a.stateLog[|a.stateLog| - 1]
  }

  /**
   The checklist invariant: pairs in order of priority, candidates in range and not discarded, distinct ids, and no
   checks sent without remote credentials.
   */
  predicate Inv(a: Agent) {
    && AllValid(a.local) && AllValid(a.remote)
    && AllWellFormed(a.pairs, a.local, a.remote)
    && SortedByPrio(a.pairs)
    && DistinctIds(a.pairs) && IdsBelow(a.pairs, a.nextId)
    && (a.nominatedSend.Some? ==> a.nominatedSend.value < a.nextId)
    && (a.remoteCreds.None? ==> NoAttempts(a.pairs))
    && LogMatches(a)
  }

  // ---------- Lists of pairs ----------

  lemma ConsFacts(x: Pair, r: seq<Pair>)
    ensures forall y :: y in [x] + r <==> y == x || y in r
    ensures SortedByPrio(r) && (forall y | y in r :: y.prio <= x.prio) ==> SortedByPrio([x] + r)
    ensures DistinctIds(r) && (forall y | y in r :: y.id != x.id) ==> DistinctIds([x] + r)
  {
    assert forall k | 0 <= k < |r| :: r[k] in r;
  }

  lemma TailFacts(s: seq<Pair>)
    requires s != []
    ensures s == [s[0]] + s[1..]
    ensures forall y :: y in s <==> y == s[0] || y in s[1..]
    ensures SortedByPrio(s) ==> SortedByPrio(s[1..]) && forall y | y in s[1..] :: y.prio <= s[0].prio
    ensures DistinctIds(s) ==> DistinctIds(s[1..]) && forall y | y in s[1..] :: y.id != s[0].id
  {
  }

  lemma {:induction false} InsertPairFacts(p: Pair, s: seq<Pair>)
    ensures |InsertPair(p, s)| == |s| + 1
    ensures forall x :: x in InsertPair(p, s) <==> x == p || x in s
    ensures SortedByPrio(s) ==> SortedByPrio(InsertPair(p, s))
    ensures DistinctIds(s) && (forall x | x in s :: x.id != p.id) ==> DistinctIds(InsertPair(p, s))
  {
    hide SortedByPrio, DistinctIds;
    if s == [] || s[0].prio <= p.prio {
      if s == [] {
        ShortLists(p);
      } else {
        TailFacts(s);
      }
      ConsFacts(p, s);
    } else {
      TailFacts(s);
      InsertPairFacts(p, s[1..]);
      ConsFacts(s[0], InsertPair(p, s[1..]));
    }
  }

  lemma ShortLists(p: Pair)
    ensures SortedByPrio([]) && DistinctIds([]) && SortedByPrio([p]) && DistinctIds([p])
  {
  }

  lemma {:induction false} SortPairsFacts(s: seq<Pair>)
    ensures |SortPairs(s)| == |s|
    ensures forall x :: x in SortPairs(s) <==> x in s
    ensures SortedByPrio(SortPairs(s))
    ensures DistinctIds(s) ==> DistinctIds(SortPairs(s))
  {
    hide SortedByPrio, DistinctIds, InsertPair;
    if s == [] {
      ShortLists(NewPair(0, 0, 0, 0));
    } else {
      SortPairsFacts(s[1..]);
      InsertPairFacts(s[0], SortPairs(s[1..]));
      TailFacts(s);
    }
  }

  lemma {:induction false} RetainFacts(s: seq<Pair>, keep: Pair -> bool)
    ensures forall x :: x in Retain(s, keep) <==> x in s && keep(x)
    ensures SortedByPrio(s) ==> SortedByPrio(Retain(s, keep))
    ensures DistinctIds(s) ==> DistinctIds(Retain(s, keep))
  {
    hide SortedByPrio, DistinctIds;
    if s == [] {
      ShortLists(NewPair(0, 0, 0, 0));
    } else {
      TailFacts(s);
      RetainFacts(s[1..], keep);
      ConsFacts(s[0], Retain(s[1..], keep));
      assert [] + Retain(s[1..], keep) == Retain(s[1..], keep);
    }
  }

  lemma RetainedAt(s: seq<Pair>, keep: Pair -> bool, k: nat)
    requires k < |Retain(s, keep)|
    ensures Retain(s, keep)[k] in s && keep(Retain(s, keep)[k])
  {
    RetainFacts(s, keep);
    assert Retain(s, keep)[k] in Retain(s, keep);
  }

  /** Changing one pair to one with the same id and priority leaves order and ids alone. */
  lemma UpdateFacts(s: seq<Pair>, k: nat, p: Pair)
    requires k < |s| && p.id == s[k].id && p.prio == s[k].prio
    ensures SortedByPrio(s) ==> SortedByPrio(s[k := p])
    ensures DistinctIds(s) ==> DistinctIds(s[k := p])
  {
  }
}
