/**
 The public operations of the ICE agent as functions on its state, and that each of them keeps the checklist
 invariant, so that none of the indexings and assertions in them fails.
 */
module IceAgentOps {
  import opened Bytes
  import opened Stun
  import opened IcePair
  import opened IceCandidate
  import opened IceAgentSpec

  // ---------- Steps inside operations ----------

  lemma EvaluateStateKeepsInv(a: Agent, now: int)
    requires Inv(a)
    ensures Inv(EvaluateState(a, now))
    ensures var a' := EvaluateState(a, now);
            a' == a.(state := a'.state, events := a'.events, stateLog := a'.stateLog)
  {
    hide AnyNominated, AnyStillPossible, SetConnectionState, Inv;
    SetStateKeepsInv(a, Checking);
    SetStateKeepsInv(a, Connected);
    SetStateKeepsInv(a, Completed);
    SetStateKeepsInv(a, Disconnected);
  }

  lemma SetStateKeepsInv(a: Agent, s: ConnState)
    requires Inv(a)
    ensures Inv(SetConnectionState(a, s))
    ensures var a' := SetConnectionState(a, s);
            a' == a.(state := a'.state, events := a'.events, stateLog := a'.stateLog)
  {
  }

  /** Changing one pair, without touching what identifies it, keeps the invariant. */
  lemma UpdateKeepsInv(a: Agent, k: nat, p: Pair)
    requires Inv(a) && k < |a.pairs|
    requires p.id == a.pairs[k].id && p.prio == a.pairs[k].prio && WellFormed(p, a.local, a.remote)
    requires p.attempts != [] ==> a.remoteCreds.Some? || a.pairs[k].attempts != []
    ensures Inv(a.(pairs := a.pairs[k := p]))
  {
    hide SortedByPrio, DistinctIds;
    UpdateFacts(a.pairs, k, p);
  }

  lemma EvaluateNominationKeepsInv(a: Agent)
    requires Inv(a)
    ensures Inv(EvaluateNomination(a))
    ensures var a' := EvaluateNomination(a);
            a' == a.(pairs := a'.pairs, nominatedSend := a'.nominatedSend, events := a'.events)
  {
    hide SortedByPrio, DistinctIds, BestPair, FindId;
    var best := BestPair(a.controlling, a.pairs);
    if best.Some? {
      BestPairInRange(a.controlling, a.pairs);
      var p := a.pairs[best.value];
      var p' := if !p.IsNominated() && (a.controlling || a.iceLite) then p.Nominate(a.iceLite) else p;
      UpdateKeepsInv(a, best.value, p');
    }
  }

  lemma InvMeans(a: Agent)
    requires Inv(a)
    ensures AllWellFormed(a.pairs, a.local, a.remote)
  {
  }

  lemma InvMeansValid(a: Agent)
    requires Inv(a)
    ensures AllValid(a.local) && AllValid(a.remote)
  {
  }

  lemma BestPairInRange(controlling: bool, pairs: seq<Pair>)
    ensures BestPair(controlling, pairs).Some? ==> BestPair(controlling, pairs).value < |pairs|
  {
  }

  lemma RetainKeepsInv(a: Agent, keep: Pair -> bool)
    requires Inv(a)
    ensures Inv(a.(pairs := Retain(a.pairs, keep)))
  {
    var r := Retain(a.pairs, keep);
    RetainFacts(a.pairs, keep);
    assert forall k | 0 <= k < |r| :: r[k] in a.pairs;
  }

  lemma SortKeepsInv(a: Agent)
    requires Inv(a.(pairs := [])) && AllWellFormed(a.pairs, a.local, a.remote)
    requires DistinctIds(a.pairs) && IdsBelow(a.pairs, a.nextId) && (a.remoteCreds.None? ==> NoAttempts(a.pairs))
    ensures Inv(a.(pairs := SortPairs(a.pairs)))
  {
    var r := SortPairs(a.pairs);
    SortPairsFacts(a.pairs);
    assert forall k | 0 <= k < |r| :: r[k] in a.pairs;
  }

  /** What holds of the checklist while pairs are being formed, before it is sorted again. */
  predicate Forming(a: Agent) {
    && Inv(a.(pairs := [])) && AllWellFormed(a.pairs, a.local, a.remote)
    && DistinctIds(a.pairs) && IdsBelow(a.pairs, a.nextId) && (a.remoteCreds.None? ==> NoAttempts(a.pairs))
  }

  /** A new pair has a fresh id, no checks, and usable candidates. */
  predicate Fresh(a: Agent, p: Pair) {
    WellFormed(p, a.local, a.remote) && p.id == a.nextId && p.attempts == []
  }

  lemma AppendKeepsForming(a: Agent, p: Pair)
    requires Forming(a) && Fresh(a, p)
    ensures Forming(a.(pairs := a.pairs + [p], nextId := a.nextId + 1))
  {
    hide SortedByPrio;
  }

  lemma ReplaceKeepsForming(a: Agent, k: nat, p: Pair)
    requires Forming(a) && Fresh(a, p) && k < |a.pairs|
    ensures Forming(a.(pairs := a.pairs[k := p], nextId := a.nextId + 1))
  {
    hide SortedByPrio;
  }

  lemma CountKeepsForming(a: Agent)
    requires Forming(a)
    ensures Forming(a.(nextId := a.nextId + 1))
  {
    hide SortedByPrio;
  }

  lemma FormPairKeepsForming(a: Agent, l: nat, r: nat)
    requires Forming(a) && l < |a.local| && !a.local[l].discarded && r < |a.remote| && !a.remote[r].discarded
    ensures Forming(FormPair(a, l, r))
  {
    FormingMeans(a);
    hide FindRedundant, Forming;
    var local, remote := a.local[l], a.remote[r];
    if local.proto == remote.proto {
      var p := NewPair(a.nextId, l, r, CalculatePrio(a.controlling, remote.Prio(), local.Prio()));
      var k := FindRedundant(a, local, remote, 0);
      FindRedundantInRange(a, local, remote);
      CountKeepsForming(a);
      if k.None? {
        AppendKeepsForming(a, p);
      } else {
        var a' := FormPair(a, l, r);
        if a.pairs[k.value].prio < p.prio {
          ReplaceKeepsForming(a, k.value, a'.pairs[k.value]);
        }
      }
    }
  }

  lemma FindRedundantInRange(a: Agent, l: Candidate, r: Candidate)
    requires AllWellFormed(a.pairs, a.local, a.remote)
    ensures FindRedundant(a, l, r, 0).Some? ==> FindRedundant(a, l, r, 0).value < |a.pairs|
  {
  }

  lemma {:induction false} FormRowKeepsForming(a: Agent, l: nat, rs: seq<nat>)
    requires Forming(a) && l < |a.local| && !a.local[l].discarded && Usable(a.remote, rs)
    ensures Forming(FormRow(a, l, rs))
    decreases |rs|
  {
    hide FormPair, Forming;
    assert AllWellFormed(a.pairs, a.local, a.remote) && AllValid(a.local) && AllValid(a.remote) by {
      FormingMeans(a);
    }
    if rs != [] {
      FormPairKeepsForming(a, l, rs[0]);
      FormRowKeepsForming(FormPair(a, l, rs[0]), l, rs[1..]);
    }
  }

  lemma FormingMeans(a: Agent)
    requires Forming(a)
    ensures AllWellFormed(a.pairs, a.local, a.remote) && AllValid(a.local) && AllValid(a.remote)
  {
  }

  lemma {:induction false} FormRowsKeepsForming(a: Agent, ls: seq<nat>, rs: seq<nat>)
    requires Forming(a) && Usable(a.local, ls) && Usable(a.remote, rs)
    ensures Forming(FormRows(a, ls, rs))
    decreases |ls|
  {
    hide FormRow, Forming;
    FormingMeans(a);
    if ls != [] {
      FormRowKeepsForming(a, ls[0], rs);
      FormRowsKeepsForming(FormRow(a, ls[0], rs), ls[1..], rs);
    }
  }

  lemma FormPairsKeepsInv(a: Agent, ls: seq<nat>, rs: seq<nat>)
    requires Forming(a) && Usable(a.local, ls) && Usable(a.remote, rs)
    ensures Inv(FormPairs(a, ls, rs))
  {
    hide FormRows, SortPairs;
    FormRowsKeepsForming(a, ls, rs);
    var a1 := FormRows(a, ls, rs);
    SortKeepsInv(a1);
    var sorted := a1.(pairs := SortPairs(a1.pairs));
    var max := if a.maxCandidatePairs.Some? then a.maxCandidatePairs.value else 100;
    if |sorted.pairs| > max {
      PrefixKeepsInv(sorted, max);
    }
  }

  lemma PrefixKeepsInv(a: Agent, n: nat)
    requires Inv(a) && n <= |a.pairs|
    ensures Inv(a.(pairs := a.pairs[..n]))
  {
  }

  lemma InvIsForming(a: Agent)
    requires Inv(a)
    ensures Forming(a)
  {
  }

  // ---------- Candidates ----------

  /** The candidate as the agent keeps it: with the agent's user fragment and its own local preference. */
  function Adopted(a: Agent, c: Candidate): Candidate
    requires SameKind(a.local, c.kind, c.addr.ipv6) * 2 <= CounterStart(c.kind, c.addr.ipv6)
  {
    c.(ufrag := Some(a.localCreds.ufrag),
       setLocalPreference := Some(NextLocalPreference(a.local, c.kind, c.addr.ipv6)))
  }

  /** The first local candidate with the same address, base and protocol. */
  function FindSame(cs: seq<Candidate>, c: Candidate): (r: Option<nat>)
    ensures r.Some? ==> r.value < |cs|
  {
    FindFirst(cs, (v: Candidate) => v.addr == c.addr && v.Base() == c.Base() && v.proto == c.proto)
  }

  function NotWithLocal(idx: nat): Pair -> bool {
    (p: Pair) => p.localIdx != idx
  }

  function NotWithRemote(idx: nat): Pair -> bool {
    (p: Pair) => p.remoteIdx != idx
  }

  function DiscardLocal(a: Agent, idx: nat): Agent
    requires idx < |a.local|
  {
    a.(local := WithDiscarded(a.local, idx), pairs := Retain(a.pairs, NotWithLocal(idx)))
  }

  function DiscardRemote(a: Agent, idx: nat): Agent
    requires idx < |a.remote|
  {
    a.(remote := WithDiscarded(a.remote, idx), pairs := Retain(a.pairs, NotWithRemote(idx)))
  }

  lemma DiscardLocalKeepsInv(a: Agent, idx: nat)
    requires Inv(a)
    ensures idx < |a.local| ==> Inv(DiscardLocal(a, idx))
  {
    if idx < |a.local| {
      var r := Retain(a.pairs, NotWithLocal(idx));
      RetainKeepsInv(a, NotWithLocal(idx));
      forall k | 0 <= k < |r| ensures r[k].localIdx != idx {
        RetainedAt(a.pairs, NotWithLocal(idx), k);
      }
      hide Retain, SortedByPrio, DistinctIds, LogMatches;
    }
  }

  lemma DiscardRemoteKeepsInv(a: Agent, idx: nat)
    requires Inv(a)
    ensures idx < |a.remote| ==> Inv(DiscardRemote(a, idx))
  {
    if idx < |a.remote| {
      var r := Retain(a.pairs, NotWithRemote(idx));
      RetainKeepsInv(a, NotWithRemote(idx));
      forall k | 0 <= k < |r| ensures r[k].remoteIdx != idx {
        RetainedAt(a.pairs, NotWithRemote(idx), k);
      }
      hide Retain, SortedByPrio, DistinctIds, LogMatches;
    }
  }

  lemma PushLocalKeepsForming(a: Agent, c: Candidate)
    requires Inv(a) && c.Valid()
    ensures Forming(a.(local := a.local + [c]))
    ensures Inv(a.(local := a.local + [c]))
  {
  }

  lemma PushRemoteKeepsForming(a: Agent, c: Candidate)
    requires Inv(a) && c.Valid()
    ensures Forming(a.(remote := a.remote + [c]))
    ensures Inv(a.(remote := a.remote + [c]))
  {
  }

  lemma ReplaceRemoteKeepsInv(a: Agent, idx: nat, c: Candidate)
    requires Inv(a) && c.Valid() && idx < |a.remote| && !c.discarded
    ensures Inv(a.(remote := a.remote[idx := c]))
  {
  }

  /** The room for one more local preference, which the Rust code takes for granted. */
  predicate HasPreferenceLeft(a: Agent, c: Candidate) {
    SameKind(a.local, c.kind, c.addr.ipv6) * 2 <= CounterStart(c.kind, c.addr.ipv6)
  }

  /** Adds a local candidate; the flag is false when it is refused. */
  function AddLocalCandidate(a: Agent, c: Candidate): (Agent, bool)
    requires Inv(a) && c.Valid() && !c.discarded && HasPreferenceLeft(a, c)
  {
    if a.iceLite && c.kind != Host then (a, false)
    else
      var c1 := Adopted(a, c);
      var same := FindSame(a.local, c1);
      if same.Some? && c1.Prio() < a.local[same.value].Prio() then (a, false)
      else
        var a1 := if same.Some? then DiscardLocal(a, same.value) else a;
        DiscardLocalKeepsInv(a, if same.Some? then same.value else 0);
        var a2 := a1.(local := a1.local + [c1]);
        var rs := PairableFrom(a1.remote, c1.addr.ipv6, 0);
        PushLocalKeepsForming(a1, c1);
        FormingMeans(a2);
        (FormPairs(a2, [|a1.local|], rs), true)
  }

  lemma AddLocalCandidateKeepsInv(a: Agent, c: Candidate)
    requires Inv(a) && c.Valid() && !c.discarded && HasPreferenceLeft(a, c)
    ensures Inv(AddLocalCandidate(a, c).0)
  {
    hide Inv, FormPairs, FindSame;
    if !(a.iceLite && c.kind != Host) {
      var c1 := Adopted(a, c);
      var same := FindSame(a.local, c1);
      SameInRange(a.local, c1);
      var a1 := if same.Some? then DiscardLocal(a, same.value) else a;
      if same.Some? {
        DiscardLocalKeepsInv(a, same.value);
      }
      PushLocalKeepsForming(a1, c1);
      var a2 := a1.(local := a1.local + [c1]);
      FormPairsKeepsInv(a2, [|a1.local|], PairableFrom(a1.remote, c1.addr.ipv6, 0));
    }
  }

  lemma SameInRange(cs: seq<Candidate>, c: Candidate)
    ensures FindSame(cs, c).Some? ==> FindSame(cs, c).value < |cs|
  {
  }

  /** Adds a remote candidate, or gives a peer-reflexive one discovered earlier its real description. */
  function AddRemoteCandidate(a: Agent, c: Candidate): Agent
    requires Inv(a) && c.Valid() && !c.discarded
  {
    if c.componentId != 1 then a
    else if a.remoteCreds.Some? && c.ufrag.Some? && c.ufrag.value != a.remoteCreds.value.ufrag then a
    else
      var (a1, idx) := PlaceRemote(a, c.(ufrag := None));
      PlaceRemoteKeepsInv(a, c.(ufrag := None));
      FormPairs(a1, PairableFrom(a.local, c.addr.ipv6, 0), [idx])
  }

  /** The first peer-reflexive remote candidate that was discovered at an address and not described since. */
  function FindTemp(cs: seq<Candidate>, addr: Address): (r: Option<nat>)
    ensures r.Some? ==> r.value < |cs|
  {
    FindFirst(cs, (v: Candidate) => v.IsTempPeerReflexive(addr))
  }

  function PlaceRemote(a: Agent, c: Candidate): (Agent, nat) {
    var existing := FindTemp(a.remote, c.addr);
    if existing.Some? then (a.(remote := a.remote[existing.value := c]), existing.value)
    else (a.(remote := a.remote + [c]), |a.remote|)
  }

  lemma PlaceRemoteKeepsInv(a: Agent, c: Candidate)
    requires Inv(a) && c.Valid() && !c.discarded
    ensures var (a1, idx) := PlaceRemote(a, c);
            && Inv(a1) && a1.local == a.local && a1.pairs == a.pairs
            && idx < |a1.remote| && !a1.remote[idx].discarded
  {
    hide Inv;
    var existing := FindTemp(a.remote, c.addr);
    if existing.Some? {
      ReplaceRemoteKeepsInv(a, existing.value, c);
    } else {
      PushRemoteKeepsForming(a, c);
    }
  }

  lemma AddRemoteCandidateKeepsInv(a: Agent, c: Candidate)
    requires Inv(a) && c.Valid() && !c.discarded
    ensures Inv(AddRemoteCandidate(a, c))
  {
    hide Inv, FormPairs, PlaceRemote;
    if c.componentId == 1 && !(a.remoteCreds.Some? && c.ufrag.Some? && c.ufrag.value != a.remoteCreds.value.ufrag) {
      var (a1, idx) := PlaceRemote(a, c.(ufrag := None));
      PlaceRemoteKeepsInv(a, c.(ufrag := None));
      InvIsForming(a1);
      FormPairsKeepsInv(a1, PairableFrom(a.local, c.addr.ipv6, 0), [idx]);
    }
  }

  /** The first candidate with the same address, base, related address and kind. */
  function FindExact(cs: seq<Candidate>, c: Candidate): (r: Option<nat>)
    ensures r.Some? ==> r.value < |cs|
  {
    FindFirst(cs, (v: Candidate) => v.addr == c.addr && v.Base() == c.Base() && v.raddr == c.raddr && v.kind == c.kind)
  }

  /** Discards a candidate and its pairs; the flag tells whether there was one to discard. */
  function InvalidateCandidate(a: Agent, c: Candidate): (Agent, bool) {
    var l := FindExact(a.local, c);
    if l.Some? && !a.local[l.value].discarded then (DiscardLocal(a, l.value), true)
    else
      var r := FindExact(a.remote, c);
      if r.Some? && !a.remote[r.value].discarded then (DiscardRemote(a, r.value), true)
      else (a, false)
  }

  lemma InvalidateCandidateKeepsInv(a: Agent, c: Candidate)
    requires Inv(a)
    ensures Inv(InvalidateCandidate(a, c).0)
  {
    hide Inv, FindExact, DiscardLocal, DiscardRemote;
    var l, r := FindExact(a.local, c), FindExact(a.remote, c);
    if l.Some? {
      DiscardLocalKeepsInv(a, l.value);
    }
    if r.Some? {
      DiscardRemoteKeepsInv(a, r.value);
    }
  }

  function WithUfrag(cs: seq<Candidate>, ufrag: string): (r: seq<Candidate>)
    ensures |r| == |cs| && forall k | 0 <= k < |cs| :: r[k] == cs[k].(ufrag := Some(ufrag))
  {
    seq(|cs|, k requires 0 <= k < |cs| => cs[k].(ufrag := Some(ufrag)))
  }

  function IceRestart(a: Agent, creds: Creds, keepLocal: bool): Agent {
    var a1 := a.(remoteCreds := None, remote := [], pairs := [], transmit := [], events := [], discoveredRecv := {},
                 local := if keepLocal then WithUfrag(a.local, creds.ufrag) else [], localCreds := creds);
    SetConnectionState(EmitEvent(a1, IceRestarted(creds)), Checking)
  }

  lemma IceRestartKeepsInv(a: Agent, creds: Creds, keepLocal: bool)
    requires Inv(a)
    ensures Inv(IceRestart(a, creds, keepLocal))
  {
    hide LogMatches, SetConnectionState;
    var a1 := a.(remoteCreds := None, remote := [], pairs := [], transmit := [], events := [], discoveredRecv := {},
                 local := if keepLocal then WithUfrag(a.local, creds.ufrag) else [], localCreds := creds);
    assert LogMatches(EmitEvent(a1, IceRestarted(creds))) by {
      SameLogMatches(a, EmitEvent(a1, IceRestarted(creds)));
    }
    SetStateKeepsInv(EmitEvent(a1, IceRestarted(creds)), Checking);
  }

  lemma SameLogMatches(a: Agent, b: Agent)
    requires LogMatches(a) && b.stateLog == a.stateLog && b.state == a.state
    ensures LogMatches(b)
  {
  }

  // ---------- STUN requests ----------

  /** The first usable remote candidate with the source of a request. */
  function FindSource(cs: seq<Candidate>, proto: Protocol, source: Address): (r: Option<nat>)
    ensures r.Some? ==> r.value < |cs| && !cs[r.value].discarded
  {
    FindFirst(cs, (c: Candidate) => !c.discarded && c.proto == proto && c.addr == source)
  }

  /** The first host or relayed local candidate with the destination of a request. */
  function FindDestination(cs: seq<Candidate>, proto: Protocol, destination: Address): (r: Option<nat>)
    ensures r.Some? ==> r.value < |cs|
  {
    FindFirst(cs, (v: Candidate) => (v.kind == Host || v.kind == Relayed) && v.addr == destination && v.proto == proto)
  }

  /** The first pair of two candidates. */
  function FindPair(pairs: seq<Pair>, l: nat, r: nat): (k: Option<nat>)
    ensures k.Some? ==> k.value < |pairs| && pairs[k.value].localIdx == l && pairs[k.value].remoteIdx == r
    ensures k.None? ==> forall j | 0 <= j < |pairs| :: pairs[j].localIdx != l || pairs[j].remoteIdx != r
  {
    if pairs == [] then None
    else if pairs[0].localIdx == l && pairs[0].remoteIdx == r then Some(0)
    else
      var k := FindPair(pairs[1..], l, r);
      if k.None? then None else Some(k.value + 1)
  }

  /** The remote candidate a request comes from, discovered now if it was not known. */
  function WithSource(a: Agent, req: StunRequest): (Agent, nat) {
    var found := FindSource(a.remote, req.proto, req.source);
    if found.Some? then (a, found.value)
    else
      var c := PeerReflexiveCandidate(req.proto, req.source, req.source, req.prio, Some(TEMP_FOUNDATION), a.localCreds.ufrag);
      (a.(remote := a.remote + [c]), |a.remote|)
  }

  lemma WithSourceKeepsInv(a: Agent, req: StunRequest)
    requires Inv(a)
    ensures var (a1, r) := WithSource(a, req);
            && Inv(a1) && r < |a1.remote| && !a1.remote[r].discarded
            && a1 == a.(remote := a1.remote)
  {
    hide Inv;
    if FindSource(a.remote, req.proto, req.source).None? {
      var c := PeerReflexiveCandidate(req.proto, req.source, req.source, req.prio, Some(TEMP_FOUNDATION), a.localCreds.ufrag);
      PushRemoteKeepsForming(a, c);
    }
  }

  /** Makes sure that the pair of a request is on the checklist. */
  function WithPair(a: Agent, l: nat, r: nat): Agent
    requires Inv(a) && l < |a.local| && r < |a.remote|
  {
    if FindPair(a.pairs, l, r).Some? then a
    else
      a.(pairs := SortPairs(a.pairs + [WithPairNew(a, l, r)]), nextId := a.nextId + 1)
  }

  lemma WithPairKeepsInv(a: Agent, l: nat, r: nat)
    requires Inv(a) && l < |a.local| && r < |a.remote| && !a.local[l].discarded && !a.remote[r].discarded
    ensures var a1 := WithPair(a, l, r);
            && Inv(a1) && FindPair(a1.pairs, l, r).Some?
            && a1 == a.(pairs := a1.pairs, nextId := a1.nextId)
  {
    if FindPair(a.pairs, l, r).None? {
      var p := WithPairNew(a, l, r);
      var b := a.(pairs := a.pairs + [p], nextId := a.nextId + 1);
      InvIsForming(a);
      hide Inv, FindPair, SortPairs, Forming;
      AppendKeepsForming(a, p);
      SortFormed(b);
      SortPairsFacts(b.pairs);
      assert b.pairs[|a.pairs|] == p;
      FindPairFinds(SortPairs(b.pairs), p);
    }
  }

  /** At most one pair is added, and it is new. */
  lemma WithPairAddsOne(a: Agent, l: nat, r: nat)
    requires Inv(a) && l < |a.local| && r < |a.remote|
    ensures var a1 := WithPair(a, l, r);
            && (forall x | x in a.pairs :: x in a1.pairs)
            && (forall x | x in a1.pairs && x !in a.pairs :: x.id == a.nextId && x.nomination == NotNominated)
  {
    hide Inv, SortPairs;
    if FindPair(a.pairs, l, r).None? {
      var p := WithPairNew(a, l, r);
      SortPairsFacts(a.pairs + [p]);
    }
  }

  function WithPairNew(a: Agent, l: nat, r: nat): Pair
    requires Inv(a) && l < |a.local| && r < |a.remote|
  {
    NewPair(a.nextId, l, r, CalculatePrio(a.controlling, a.remote[r].Prio(), a.local[l].Prio()))
  }

  lemma SortFormed(a: Agent)
    requires Forming(a)
    ensures Inv(a.(pairs := SortPairs(a.pairs)))
  {
    SortKeepsInv(a);
  }

  lemma FindPairFinds(pairs: seq<Pair>, p: Pair)
    requires p in pairs
    ensures FindPair(pairs, p.localIdx, p.remoteIdx).Some?
  {
    var k :| 0 <= k < |pairs| && pairs[k] == p;
  }

  /** Counts a request on its pair, and nominates the pair if asked to. */
  function Counted(a: Agent, k: nat, req: StunRequest): Agent
    requires k < |a.pairs|
  {
    var p1 := a.pairs[k].IncreaseRemoteBindingRequests(req.now);
    var p2 := if !a.controlling && !p1.IsNominated() && req.useCandidate then p1.Nominate(a.iceLite) else p1;
    a.(pairs := a.pairs[k := p2])
  }

  lemma CountedKeepsInv(a: Agent, k: nat, req: StunRequest)
    requires Inv(a) && k < |a.pairs|
    ensures Inv(Counted(a, k, req))
  {
    UpdateKeepsInv(a, k, Counted(a, k, req).pairs[k]);
  }

  /** Counts a request, sees whether something can be nominated now, and replies. */
  function AnswerRequest(a: Agent, l: nat, r: nat, req: StunRequest): Agent
    requires Inv(a) && FindPair(a.pairs, l, r).Some?
  {
    var k := FindPair(a.pairs, l, r).value;
    var a1 := Counted(a, k, req);
    CountedKeepsInv(a, k, req);
    var a2 := if a.controlling && a1.pairs[k].state == Succeeded then EvaluateNomination(a1) else a1;
    a2.(transmit := a2.transmit + [Transmit(a.local[l].proto, a.local[l].Base(), a.remote[r].addr,
                                            CheckReply(req.transId, a.localCreds.pass, req.source))])
  }

  function HandleRequest(a: Agent, req: StunRequest): Agent
    requires Inv(a) && a.remoteCreds.Some?
  {
    if req.remoteUfrag != a.remoteCreds.value.ufrag then a
    else if req.useCandidate && a.controlling then a
    else
      var (a1, r) := WithSource(a, req);
      WithSourceKeepsInv(a, req);
      var dest := FindDestination(a1.local, req.proto, req.destination);
      if dest.None? then a1
      else
        var l := dest.value;
        if FindPair(a1.pairs, l, r).None? && a1.local[l].discarded then a1
        else
          FoundPairIsUsable(a1, l, r);
          WithPairKeepsInv(a1, l, r);
          AnswerRequest(WithPair(a1, l, r), l, r, req)
  }

  lemma FoundPairIsUsable(a: Agent, l: nat, r: nat)
    requires Inv(a) && l < |a.local| && r < |a.remote|
    ensures FindPair(a.pairs, l, r).Some? ==> !a.local[l].discarded && !a.remote[r].discarded
  {
  }

  lemma TransmitKeepsInv(a: Agent, t: seq<Transmit>)
    requires Inv(a)
    ensures Inv(a.(transmit := t))
  {
  }

  lemma AnswerRequestKeepsInv(a: Agent, l: nat, r: nat, req: StunRequest)
    requires Inv(a) && FindPair(a.pairs, l, r).Some?
    ensures Inv(AnswerRequest(a, l, r, req))
    ensures AnswerRequest(a, l, r, req).remoteCreds == a.remoteCreds
  {
    hide Inv, EvaluateNomination, FindPair;
    FoundPair(a, l, r);
    var k := FindPair(a.pairs, l, r).value;
    var a1 := Counted(a, k, req);
    CountedKeepsInv(a, k, req);
    InvMeans(a1);
    EvaluateNominationKeepsInv(a1);
    var a2 := if a.controlling && a1.pairs[k].state == Succeeded then EvaluateNomination(a1) else a1;
    TransmitKeepsInv(a2, AnswerRequest(a, l, r, req).transmit);
  }

  lemma FoundPair(a: Agent, l: nat, r: nat)
    requires FindPair(a.pairs, l, r).Some?
    ensures FindPair(a.pairs, l, r).value < |a.pairs|
  {
  }

  lemma HandleRequestKeepsInv(a: Agent, req: StunRequest)
    requires Inv(a) && a.remoteCreds.Some?
    ensures Inv(HandleRequest(a, req))
    ensures HandleRequest(a, req).remoteCreds == a.remoteCreds
  {
    hide Inv, WithSource, WithPair, AnswerRequest, FindPair;
    if req.remoteUfrag == a.remoteCreds.value.ufrag && !(req.useCandidate && a.controlling) {
      var (a1, r) := WithSource(a, req);
      WithSourceKeepsInv(a, req);
      var dest := FindDestination(a1.local, req.proto, req.destination);
      if dest.Some? && !(FindPair(a1.pairs, dest.value, r).None? && a1.local[dest.value].discarded) {
        FoundPairIsUsable(a1, dest.value, r);
        WithPairKeepsInv(a1, dest.value, r);
        AnswerRequestKeepsInv(WithPair(a1, dest.value, r), dest.value, r, req);
      }
    }
  }

  // ---------- STUN responses ----------

  /** The first pair that a check was sent for under a transaction id. */
  function FindAttempt(pairs: seq<Pair>, transId: nat): (k: Option<nat>)
    ensures k.Some? ==> k.value < |pairs| && pairs[k.value].HasBindingAttempt(transId)
    ensures k.None? ==> forall j | 0 <= j < |pairs| :: !pairs[j].HasBindingAttempt(transId)
  {
    if pairs == [] then None
    else if pairs[0].HasBindingAttempt(transId) then Some(0)
    else
      var k := FindAttempt(pairs[1..], transId);
      if k.None? then None else Some(k.value + 1)
  }

  /** The local candidate with the mapped address, discovered now if it was not known. */
  function WithMapped(a: Agent, k: nat, mapped: Address): (Agent, nat)
    requires Inv(a) && k < |a.pairs|
  {
    var found := FindFirst(a.local, (c: Candidate) => c.addr == mapped);
    if found.Some? then (a, found.value)
    else
      var from := a.local[a.pairs[k].localIdx];
      var c := PeerReflexiveCandidate(from.proto, mapped, from.Base(), from.DoPrio(true), None, a.localCreds.ufrag);
      (a.(local := a.local + [c]), |a.local|)
  }

  lemma WithMappedKeepsInv(a: Agent, k: nat, mapped: Address)
    requires Inv(a) && k < |a.pairs|
    ensures var (a1, valid) := WithMapped(a, k, mapped);
            Inv(a1) && valid < |a1.local| && a1 == a.(local := a1.local)
  {
    if FindFirst(a.local, (c: Candidate) => c.addr == mapped).None? {
      var from := a.local[a.pairs[k].localIdx];
      PushLocalKeepsForming(a, PeerReflexiveCandidate(from.proto, mapped, from.Base(), from.DoPrio(true), None, a.localCreds.ufrag));
    }
  }

  /** The pair's response is recorded. */
  function Responded(a: Agent, now: int, transId: nat, mapped: Address, k: nat): Agent
    requires Inv(a) && k < |a.pairs| && a.pairs[k].HasBindingAttempt(transId)
  {
    var (a1, valid) := WithMapped(a, k, mapped);
    a1.(pairs := a1.pairs[k := a1.pairs[k].RecordBindingResponse(now, transId, valid)])
  }

  lemma RespondedKeepsInv(a: Agent, now: int, transId: nat, mapped: Address, k: nat)
    requires Inv(a) && k < |a.pairs| && a.pairs[k].HasBindingAttempt(transId)
    ensures Inv(Responded(a, now, transId, mapped, k))
    ensures Responded(a, now, transId, mapped, k).remoteCreds == a.remoteCreds
  {
    var (a1, valid) := WithMapped(a, k, mapped);
    WithMappedKeepsInv(a, k, mapped);
    hide WithMapped;
    UpdateKeepsInv(a1, k, a1.pairs[k].RecordBindingResponse(now, transId, valid));
  }

  function HandleResponse(a: Agent, now: int, transId: nat, mapped: Address): Agent
    requires Inv(a)
  {
    var k := FindAttempt(a.pairs, transId);
    if k.None? then a
    else
      var a1 := Responded(a, now, transId, mapped, k.value);
      RespondedKeepsInv(a, now, transId, mapped, k.value);
      EvaluateState(if a1.controlling then EvaluateNomination(a1) else a1, now)
  }

  lemma HandleResponseKeepsInv(a: Agent, now: int, transId: nat, mapped: Address)
    requires Inv(a)
    ensures Inv(HandleResponse(a, now, transId, mapped))
  {
    hide Inv, EvaluateNomination, EvaluateState, Responded;
    var k := FindAttempt(a.pairs, transId);
    if k.Some? {
      RespondedKeepsInv(a, now, transId, mapped, k.value);
      var a1 := Responded(a, now, transId, mapped, k.value);
      EvaluateNominationKeepsInv(a1);
      InvMeans(a1);
      EvaluateStateKeepsInv(if a1.controlling then EvaluateNomination(a1) else a1, now);
    }
  }

  // ---------- Packets ----------

  /** A parsed STUN message; integrity tells under which passwords its hash is right. */
  datatype Message = Message(
    isBinding: bool, cls: Class, transId: nat, username: Option<(string, string)>, prio: Option<nat>,
    useCandidate: bool, mapped: Option<Address>, integrity: string -> bool)

  datatype Packet = Packet(proto: Protocol, source: Address, destination: Address, message: Message)

  /** What the STUN parser makes sure of, and (for indications) what the agent takes for granted. */
  predicate Parsed(m: Message) {
    && (m.isBinding && (m.cls == Request || m.cls == Indication) ==> m.username.Some?)
    && (m.isBinding && m.cls == Request ==> m.prio.Some?)
    && (m.isBinding && m.cls == Success ==> m.mapped.Some?)
  }

  predicate AcceptsMessage(a: Agent, m: Message)
    requires Inv(a) && Parsed(m)
  {
    if !m.isBinding then false
    else match m.cls
      case UnknownClass => false
      case Success => AcceptsResponse(a, m)
      case Failure => AcceptsResponse(a, m)
      case _ =>
        && m.username.value.0 == a.localCreds.ufrag
        && (a.remoteCreds.Some? ==> m.username.value.1 == a.remoteCreds.value.ufrag)
        && m.integrity(a.localCreds.pass)
  }

  /** A response has to belong to a check; then there are remote credentials to verify it with. */
  predicate AcceptsResponse(a: Agent, m: Message)
    requires Inv(a)
  {
    var k := FindAttempt(a.pairs, m.transId);
    k.Some? &&
    (AttemptMeansCreds(a, k.value, m.transId);
     m.integrity(a.remoteCreds.value.pass))
  }

  lemma AttemptMeansCreds(a: Agent, k: nat, transId: nat)
    requires Inv(a) && k < |a.pairs| && a.pairs[k].HasBindingAttempt(transId)
    ensures a.remoteCreds.Some?
  {
  }

  /** A request is answered when the remote credentials are known, else queued, with room for 100. */
  function HandleMessage(a: Agent, now: int, packet: Packet): Agent
    requires Inv(a) && packet.message.prio.Some? && packet.message.username.Some?
  {
    var m := packet.message;
    var req := StunRequest(now, packet.proto, packet.source, packet.destination, m.transId, m.prio.value, m.useCandidate,
                           m.username.value.1);
    if a.remoteCreds.Some? then HandleRequest(a, req)
    else
      var queue := a.stunServerQueue + [req];
      a.(stunServerQueue := if |queue| > 100 then queue[|queue| - 100..] else queue)
  }

  /** Handles a packet; the flag is false when it is not for this agent. */
  function HandlePacket(a: Agent, now: int, packet: Packet): (Agent, bool)
    requires Inv(a) && Parsed(packet.message)
  {
    var m := packet.message;
    if !AcceptsMessage(a, m) then (a, false)
    else
      var a1 := if m.cls == Request then HandleMessage(a, now, packet)
                else if m.cls == Success then HandleResponse(a, now, m.transId, m.mapped.value)
                else a;
      (EmitEvent(a1, DiscoveredRecv(packet.proto, packet.source)), true)
  }

  /** An accepted request carries all that is needed to handle it. */
  lemma ParsedRequest(a: Agent, m: Message)
    requires Inv(a) && Parsed(m) && AcceptsMessage(a, m)
    ensures m.cls == Request ==> m.prio.Some? && m.username.Some?
    ensures m.cls == Success ==> m.mapped.Some?
  {
  }

  lemma EmitEventKeepsInv(a: Agent, e: Event)
    requires Inv(a)
    ensures Inv(EmitEvent(a, e))
  {
  }

  lemma QueueKeepsInv(a: Agent, queue: seq<StunRequest>)
    requires Inv(a)
    ensures Inv(a.(stunServerQueue := queue))
  {
  }

  lemma HandlePacketKeepsInv(a: Agent, now: int, packet: Packet)
    requires Inv(a) && Parsed(packet.message)
    ensures Inv(HandlePacket(a, now, packet).0)
  {
    hide Inv, HandleRequest, HandleResponse, EmitEvent;
    var m := packet.message;
    if AcceptsMessage(a, m) {
      if m.cls == Request {
        if a.remoteCreds.Some? {
          HandleRequestKeepsInv(a, StunRequest(now, packet.proto, packet.source, packet.destination, m.transId,
                                               m.prio.value, m.useCandidate, m.username.value.1));
        } else {
          QueueKeepsInv(a, HandleMessage(a, now, packet).stunServerQueue);
        }
        EmitEventKeepsInv(HandleMessage(a, now, packet), DiscoveredRecv(packet.proto, packet.source));
      } else if m.cls == Success {
        HandleResponseKeepsInv(a, now, m.transId, m.mapped.value);
        EmitEventKeepsInv(HandleResponse(a, now, m.transId, m.mapped.value), DiscoveredRecv(packet.proto, packet.source));
      } else {
        EmitEventKeepsInv(a, DiscoveredRecv(packet.proto, packet.source));
      }
    }
  }

  // ---------- Time ----------

  /** The requests in the queue, without those at its head that are too old. */
  function DropOld(queue: seq<StunRequest>, now: int): seq<StunRequest> {
    if queue != [] && now - queue[0].now >= STUN_TIMEOUT then DropOld(queue[1..], now) else queue
  }

  /** Whether a pair stays on the checklist. */
  function Keep(iceLite: bool, now: int): Pair -> bool {
    (p: Pair) => if iceLite then p.HasRecentRemoteBindingRequest(now) else p.IsStillPossible(now)
  }

  /** Nominates, drops the pairs that failed, and if there were any, nominates and looks at the state again. */
  function Prune(a: Agent, now: int): Agent
    requires Inv(a)
  {
    EvaluateNominationKeepsInv(a);
    var a1 := EvaluateNomination(a);
    var pairs := Retain(a1.pairs, Keep(a.iceLite, now));
    if |pairs| == |a1.pairs| then a1
    else
      RetainKeepsInv(a1, Keep(a.iceLite, now));
      EvaluateState(EvaluateNomination(a1.(pairs := pairs)), now)
  }

  lemma {:induction false} RetainAll(s: seq<Pair>, keep: Pair -> bool)
    ensures |Retain(s, keep)| <= |s|
    ensures |Retain(s, keep)| == |s| <==> Retain(s, keep) == s
    ensures |Retain(s, keep)| == |s| <==> forall x | x in s :: keep(x)
  {
    if s != [] {
      RetainAll(s[1..], keep);
      TailFacts(s);
    }
  }

  lemma PruneKeepsInv(a: Agent, now: int)
    requires Inv(a)
    ensures Inv(Prune(a, now)) && Prune(a, now).remoteCreds == a.remoteCreds
  {
    hide Inv, EvaluateNomination, EvaluateState, Retain;
    InvMeans(a);
    EvaluateNominationKeepsInv(a);
    var a1 := EvaluateNomination(a);
    RetainKeepsInv(a1, Keep(a.iceLite, now));
    var a2 := a1.(pairs := Retain(a1.pairs, Keep(a.iceLite, now)));
    InvMeans(a2);
    EvaluateNominationKeepsInv(a2);
    EvaluateStateKeepsInv(EvaluateNomination(a2), now);
  }

  /** All pairs after looking at their schedules. */
  function Scheduled(pairs: seq<Pair>, now: int): (r: seq<Pair>)
    ensures |r| == |pairs| && forall k | 0 <= k < |pairs| :: r[k] == pairs[k].NextBindingAttempt(now).0
  {
    seq(|pairs|, k requires 0 <= k < |pairs| => pairs[k].NextBindingAttempt(now).0)
  }

  /** The place of the pair whose next check is due first, the first one of several. */
  function NextPair(pairs: seq<Pair>, now: int): (r: Option<nat>)
    ensures r.None? <==> pairs == []
    ensures r.Some? ==>
              && r.value < |pairs|
              && (forall k | 0 <= k < |pairs| ::
                    pairs[r.value].NextBindingAttempt(now).1 <= pairs[k].NextBindingAttempt(now).1)
              && (forall k | 0 <= k < r.value ::
                    pairs[r.value].NextBindingAttempt(now).1 < pairs[k].NextBindingAttempt(now).1)
  {
    if pairs == [] then None
    else
      var n := |pairs| - 1;
      var best := NextPair(pairs[..n], now);
      if best.Some? && pairs[best.value].NextBindingAttempt(now).1 <= pairs[n].NextBindingAttempt(now).1 then best
      else Some(n)
  }

  /** The pair whose next check is due first, and when that is. */
  function NextDue(pairs: seq<Pair>, now: int): (r: Option<(nat, int)>)
    ensures r.None? <==> pairs == []
  {
    var next := NextPair(pairs, now);
    if next.None? then None else Some((next.value, pairs[next.value].NextBindingAttempt(now).1))
  }

  lemma NextDueOfOneMore(pairs: seq<Pair>, k: nat, now: int)
    requires k < |pairs|
    ensures var best, t := NextDue(pairs[..k], now), pairs[k].NextBindingAttempt(now).1;
            NextDue(pairs[..k + 1], now) == if best.None? || t < best.value.1 then Some((k, t)) else best
  {
    hide Pair.NextBindingAttempt;
    assert pairs[..k + 1][..k] == pairs[..k];
  }

  lemma ScheduledOneMore(pairs: seq<Pair>, k: nat, now: int)
    requires k < |pairs|
    ensures var half := Scheduled(pairs, now)[..k] + pairs[k..];
            && half[k] == pairs[k]
            && half[k := pairs[k].NextBindingAttempt(now).0] == Scheduled(pairs, now)[..k + 1] + pairs[k + 1..]
  {
    hide Pair.NextBindingAttempt;
  }

  /** In ice-lite mode, pairs that have seen no request count from now. */
  function CountFromNow(pairs: seq<Pair>, now: int): (r: seq<Pair>)
    ensures |r| == |pairs|
    ensures forall k | 0 <= k < |pairs| ::
              r[k] == if pairs[k].remoteBindingRequestTime.None? then pairs[k].IncreaseRemoteBindingRequests(now) else pairs[k]
  {
    seq(|pairs|, k requires 0 <= k < |pairs| =>
      if pairs[k].remoteBindingRequestTime.None? then pairs[k].IncreaseRemoteBindingRequests(now) else pairs[k])
  }

  /** Sends a check for the pair at k. */
  function SendCheck(a: Agent, now: int, k: nat): Agent
    requires Inv(a) && a.remoteCreds.Some? && k < |a.pairs|
  {
    var p := a.pairs[k];
    var local, remote := a.local[p.localIdx], a.remote[p.remoteIdx];
    var contents := CheckRequest(a.nextId, a.remoteCreds.value.ufrag + ":" + a.localCreds.ufrag, a.remoteCreds.value.pass,
                                 a.controlling, local.DoPrio(true), a.controlling && p.IsNominated());
    a.(pairs := a.pairs[k := p.NewAttempt(now, a.nextId)],
       nextId := a.nextId + 1,
       transmit := a.transmit + [Transmit(local.proto, local.Base(), remote.addr, contents)])
  }

  /** Sends the check that is due, if any. */
  function CheckDue(a: Agent, now: int): Agent
    requires Inv(a) && a.remoteCreds.Some?
  {
    var next := NextPair(a.pairs, now);
    var a1 := a.(pairs := Scheduled(a.pairs, now));
    MapKeepsInv(a, a1.pairs);
    if next.Some? && now >= a.pairs[next.value].NextBindingAttempt(now).1 then SendCheck(a1, now, next.value) else a1
  }

  /** The same pairs, with changes that leave ids, priorities, candidates and checks alone. */
  lemma MapKeepsInv(a: Agent, pairs: seq<Pair>)
    requires Inv(a) && |pairs| == |a.pairs|
    requires forall k | 0 <= k < |pairs| ::
               pairs[k] == a.pairs[k].(cachedNext := pairs[k].cachedNext, remoteBindingRequests := pairs[k].remoteBindingRequests,
                                       remoteBindingRequestTime := pairs[k].remoteBindingRequestTime)
    ensures Inv(a.(pairs := pairs))
  {
  }

  lemma ScheduledKeepsInv(a: Agent, now: int)
    requires Inv(a)
    ensures Inv(a.(pairs := Scheduled(a.pairs, now)))
  {
    MapKeepsInv(a, Scheduled(a.pairs, now));
  }

  lemma SendCheckKeepsInv(a: Agent, now: int, k: nat)
    requires Inv(a) && a.remoteCreds.Some? && k < |a.pairs|
    ensures Inv(SendCheck(a, now, k))
  {
    UpdateKeepsInv(a, k, a.pairs[k].NewAttempt(now, a.nextId));
  }

  lemma CheckDueKeepsInv(a: Agent, now: int)
    requires Inv(a) && a.remoteCreds.Some?
    ensures Inv(CheckDue(a, now))
  {
    hide Inv, SendCheck, Scheduled;
    var a1 := a.(pairs := Scheduled(a.pairs, now));
    MapKeepsInv(a, a1.pairs);
    var next := NextPair(a.pairs, now);
    if next.Some? {
      SendCheckKeepsInv(a1, now, next.value);
    }
  }

  /** Prunes the checklist and, unless this is ice-lite, sends the check that is due. */
  function Advance(a: Agent, now: int): Agent
    requires Inv(a)
  {
    var a1 := a.(lastNow := Some(now));
    TimeKeepsInv(a, now);
    var a2 := Prune(a1, now);
    PruneKeepsInv(a1, now);
    if a2.remoteCreds.None? then a2
    else if a2.iceLite then a2.(pairs := CountFromNow(a2.pairs, now))
    else CheckDue(a2, now)
  }

  lemma AdvanceKeepsInv(a: Agent, now: int)
    requires Inv(a)
    ensures Inv(Advance(a, now))
  {
    hide Inv, Prune, CheckDue, CountFromNow;
    var a1 := a.(lastNow := Some(now));
    TimeKeepsInv(a, now);
    PruneKeepsInv(a1, now);
    var a2 := Prune(a1, now);
    MapKeepsInv(a2, CountFromNow(a2.pairs, now));
    if a2.remoteCreds.Some? {
      CheckDueKeepsInv(a2, now);
    }
  }

  function HandleTimeout(a: Agent, now: int): Agent
    requires Inv(a)
  {
    var a0 := if a.state == New then EmitEvent(a, IceRestarted(a.localCreds)) else a;
    EmitEventKeepsInv(a, IceRestarted(a.localCreds));
    var a1 := EvaluateState(a0, now);
    EvaluateStateKeepsInv(a0, now);
    var queue := DropOld(a1.stunServerQueue, now);
    QueueKeepsInv(a1, if queue == [] then [] else queue[1..]);
    if a1.remoteCreds.Some? && queue != [] then HandleRequest(a1.(stunServerQueue := queue[1..]), queue[0])
    else Advance(if a1.remoteCreds.Some? then a1.(stunServerQueue := []) else a1, now)
  }

  lemma TimeKeepsInv(a: Agent, now: int)
    requires Inv(a)
    ensures Inv(a.(lastNow := Some(now)))
  {
  }

  lemma HandleTimeoutKeepsInv(a: Agent, now: int)
    requires Inv(a)
    ensures Inv(HandleTimeout(a, now))
  {
    hide Inv, EmitEvent, EvaluateState, DropOld, HandleRequest, Advance;
    var a0 := if a.state == New then EmitEvent(a, IceRestarted(a.localCreds)) else a;
    EmitEventKeepsInv(a, IceRestarted(a.localCreds));
    var a1 := EvaluateState(a0, now);
    EvaluateStateKeepsInv(a0, now);
    var queue := DropOld(a1.stunServerQueue, now);
    QueueKeepsInv(a1, if queue == [] then [] else queue[1..]);
    if a1.remoteCreds.Some? && queue != [] {
      HandleRequestKeepsInv(a1.(stunServerQueue := queue[1..]), queue[0]);
    } else {
      AdvanceKeepsInv(if a1.remoteCreds.Some? then a1.(stunServerQueue := []) else a1, now);
    }
  }

  const TIMING_ADVANCE := 50

  /** When to call handle_timeout next; looking at the schedules remembers them. */
  function PollTimeout(a: Agent): (Agent, Option<int>) {
    if a.lastNow.None? then (a, None)
    else
      var lastNow := a.lastNow.value;
      if a.stunServerQueue != [] || a.transmit != [] then (a, Some(lastNow + TIMING_ADVANCE))
      else if a.iceLite then (a, Some(lastNow + 3000))
      else
        var next := NextPair(a.pairs, lastNow);
        var a1 := a.(pairs := Scheduled(a.pairs, lastNow));
        if next.None? then (a1, Some(lastNow + 3000))
        else
          var t := a.pairs[next.value].NextBindingAttempt(lastNow).1;
          (a1, Some(if t < lastNow + TIMING_ADVANCE then lastNow + TIMING_ADVANCE else t))
  }

  lemma PollTimeoutKeepsInv(a: Agent)
    requires Inv(a)
    ensures Inv(PollTimeout(a).0)
  {
    hide Inv, Scheduled;
    if a.lastNow.Some? {
      MapKeepsInv(a, Scheduled(a.pairs, a.lastNow.value));
    }
  }
}
