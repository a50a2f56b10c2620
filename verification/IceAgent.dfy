/**
 The ICE agent as the object it is: its methods update the fields in place, in the order and with the loops of
 ice/agent.rs, and each is proved to do what the operation of the same name does to the agent's state.
 */
module IceAgent {
  import opened Bytes
  import opened Stun
  import opened IcePair
  import opened IceCandidate
  import opened IceAgentSpec
  import opened IceAgentOps
  import Spec = IceAgentSpec
  import Ops = IceAgentOps

  class IceAgent {
    var lastNow: Option<int>
    var iceLite: bool
    var maxCandidatePairs: Option<nat>
    var localCreds: Creds
    var remoteCreds: Option<Creds>
    var controlling: bool
    var state: ConnState
    var localCandidates: seq<Candidate>
    var remoteCandidates: seq<Candidate>
    var candidatePairs: seq<Pair>
    var transmit: seq<Transmit>
    var events: seq<Event>
    var stunServerQueue: seq<StunRequest>
    var discoveredRecv: set<(Protocol, Address)>
    var nominatedSend: Option<nat>
    var nextId: nat
    ghost var stateLog: seq<ConnState>

    constructor (creds: Creds)
      ensures View() == NewAgent(creds)
    {
      lastNow, iceLite, maxCandidatePairs, localCreds, remoteCreds := None, false, None, creds, None;
      controlling, state, localCandidates, remoteCandidates, candidatePairs := false, New, [], [], [];
      transmit, events, stunServerQueue, discoveredRecv, nominatedSend, nextId, stateLog := [], [], [], {}, None, 0, [];
    }

    ghost function View(): Agent
      reads this
    {
      Agent(lastNow, iceLite, maxCandidatePairs, localCreds, remoteCreds, controlling, state, localCandidates,
            remoteCandidates, candidatePairs, transmit, events, stunServerQueue, discoveredRecv, nominatedSend, nextId,
            stateLog)
    }

    method EmitEvent(e: Event)
      modifies this
      ensures View() == Spec.EmitEvent(old(View()), e)
    {
      if e.DiscoveredRecv? {
        if (e.proto, e.source) in discoveredRecv {
          return;
        }
        discoveredRecv := discoveredRecv + {(e.proto, e.source)};
      }
      events := events + [e];
    }

    method SetConnectionState(s: ConnState)
      modifies this
      ensures View() == Spec.SetConnectionState(old(View()), s)
    {
      if state != s {
        state := s;
        stateLog := stateLog + [s];
        EmitEvent(StateChange(s));
      }
    }

    method EvaluateState(now: int)
      modifies this
      ensures View() == Spec.EvaluateState(old(View()), now)
    {
      var anyNomination, anyStillPossible := false, false;
      var k := 0;
      while k < |candidatePairs|
        invariant 0 <= k <= |candidatePairs| && View() == old(View())
        invariant anyNomination <==> exists j :: 0 <= j < k && candidatePairs[j].IsNominated()
        invariant anyStillPossible <==>
                  exists j :: 0 <= j < k && !candidatePairs[j].IsNominated() && candidatePairs[j].IsStillPossible(now)
      {
        if candidatePairs[k].IsNominated() {
          anyNomination := true;
        } else if candidatePairs[k].IsStillPossible(now) {
          anyStillPossible := true;
        }
        k := k + 1;
      }
      if remoteCandidates == [] {
        anyStillPossible := true;
      }
      match state {
        case New =>
          SetConnectionState(Checking);
        case Connected =>
          if anyNomination {
            if !anyStillPossible {
              SetConnectionState(Completed);
            }
          } else {
            SetConnectionState(Disconnected);
          }
        case Completed =>
          if anyNomination {
            if anyStillPossible && !iceLite {
              SetConnectionState(Connected);
            }
          } else {
            SetConnectionState(Disconnected);
          }
        case _ =>
          if anyNomination {
            if iceLite {
              SetConnectionState(Completed);
              return;
            }
            if anyStillPossible {
              SetConnectionState(Connected);
            } else {
              SetConnectionState(Completed);
            }
          } else if !anyStillPossible {
            SetConnectionState(Disconnected);
          }
      }
    }

    method EvaluateNomination()
      requires Inv(View())
      modifies this
      ensures View() == Spec.EvaluateNomination(old(View()))
    {
      hide Inv, BestPair, FindId, Eligible;
      InvMeans(View());
      var current: Option<nat> := None;
      if nominatedSend.Some? {
        var found := FindId(candidatePairs, nominatedSend.value);
        if found.Some? {
          current := Some(candidatePairs[found.value].prio);
        }
      }
      var best := BestPair(controlling, candidatePairs);
      if best.Some? {
        var p := candidatePairs[best.value];
        if current == Some(p.prio) {
          return;
        }
        if !p.IsNominated() && (controlling || iceLite) {
          p := p.Nominate(iceLite);
          candidatePairs := candidatePairs[best.value := p];
        }
        var local := localCandidates[p.localIdx];
        var remote := remoteCandidates[p.remoteIdx];
        nominatedSend := Some(p.id);
        EmitEvent(NominatedSend(local.proto, local.Base(), remote.addr));
      }
    }

    /** Forms one pair, unless it is redundant. */
    method FormPair(l: nat, r: nat)
      requires Forming(View())
      requires l < |localCandidates| && !localCandidates[l].discarded
      requires r < |remoteCandidates| && !remoteCandidates[r].discarded
      modifies this
      ensures View() == Spec.FormPair(old(View()), l, r)
    {
      FormingMeans(View());
      hide Forming;
      var local := localCandidates[l];
      var remote := remoteCandidates[r];
      if local.proto != remote.proto {
        return;
      }
      var pair := NewPair(nextId, l, r, CalculatePrio(controlling, remote.Prio(), local.Prio()));
      nextId := nextId + 1;
      var k := 0;
      while k < |candidatePairs|
        invariant 0 <= k <= |candidatePairs| && View() == old(View()).(nextId := nextId) && nextId == old(nextId) + 1
        invariant FindRedundant(old(View()), local, remote, 0) == FindRedundant(old(View()), local, remote, k)
      {
        var check := candidatePairs[k];
        var redundant := Redundant(local, remote, localCandidates[check.localIdx], remoteCandidates[check.remoteIdx]);
        if redundant {
          if check.prio < pair.prio {
            pair := pair.Nominate(check.IsNominated());
            if iceLite {
              pair := pair.(remoteBindingRequests := check.remoteBindingRequests,
                            remoteBindingRequestTime := check.remoteBindingRequestTime);
            }
            candidatePairs := candidatePairs[k := pair];
          }
          return;
        }
        k := k + 1;
      }
      candidatePairs := candidatePairs + [pair];
    }

    /** Pairs one local candidate with several remote ones. */
    method FormRow(l: nat, rs: seq<nat>)
      requires Forming(View()) && l < |localCandidates| && !localCandidates[l].discarded && Usable(remoteCandidates, rs)
      modifies this
      ensures Forming(old(View())) && AllWellFormed(old(candidatePairs), old(localCandidates), old(remoteCandidates))
      ensures View() == Spec.FormRow(old(View()), l, rs) && Forming(View())
    {
      hide Forming, Spec.FormPair;
      FormingMeans(View());
      ghost var start := View();
      assert rs[0..] == rs;
      var j := 0;
      while j < |rs|
        invariant 0 <= j <= |rs|
        invariant Forming(View()) && View() == start.(pairs := candidatePairs, nextId := nextId)
        invariant AllWellFormed(candidatePairs, localCandidates, remoteCandidates)
        invariant Spec.FormRow(View(), l, rs[j..]) == Spec.FormRow(start, l, rs)
      {
        FormPairKeepsForming(View(), l, rs[j]);
        FormPair(l, rs[j]);
        FormingMeans(View());
        j := j + 1;
      }
      assert rs[j..] == [];
    }

    /** Sorts the checklist and cuts it off at the limit, lowest priority first. */
    method SortAndLimit()
      modifies this`candidatePairs
      ensures var sorted := SortPairs(old(candidatePairs));
              var max := if maxCandidatePairs.Some? then maxCandidatePairs.value else 100;
              candidatePairs == if |sorted| > max then sorted[..max] else sorted
    {
      candidatePairs := SortPairs(candidatePairs);
      ghost var sorted := candidatePairs;
      var max := if maxCandidatePairs.Some? then maxCandidatePairs.value else 100;
      while |candidatePairs| > max
        invariant |candidatePairs| <= |sorted| && candidatePairs == sorted[..|candidatePairs|]
        invariant |sorted| > max ==> |candidatePairs| >= max
        invariant |sorted| <= max ==> candidatePairs == sorted
      {
        candidatePairs := candidatePairs[..|candidatePairs| - 1];
      }
    }

    method FormPairs(ls: seq<nat>, rs: seq<nat>)
      requires Forming(View()) && Usable(localCandidates, ls) && Usable(remoteCandidates, rs)
      modifies this
      ensures AllWellFormed(old(candidatePairs), old(localCandidates), old(remoteCandidates))
      ensures AllValid(old(localCandidates)) && AllValid(old(remoteCandidates))
      ensures View() == Spec.FormPairs(old(View()), ls, rs)
    {
      hide Forming, Spec.FormRow;
      FormingMeans(View());
      ghost var start := View();
      assert ls[0..] == ls;
      var i := 0;
      while i < |ls|
        invariant 0 <= i <= |ls|
        invariant Forming(View()) && View() == start.(pairs := candidatePairs, nextId := nextId)
        invariant AllWellFormed(candidatePairs, localCandidates, remoteCandidates)
        invariant FormRows(View(), ls[i..], rs) == FormRows(start, ls, rs)
      {
        FormRow(ls[i], rs);
        FormingMeans(View());
        i := i + 1;
      }
      assert ls[i..] == [];
      SortAndLimit();
    }

    /** Stops using a local candidate, and drops its pairs. */
    method DiscardLocal(idx: nat)
      requires idx < |localCandidates|
      modifies this
      ensures View() == Ops.DiscardLocal(old(View()), idx)
    {
      localCandidates := localCandidates[idx := localCandidates[idx].(discarded := true)];
      candidatePairs := Retain(candidatePairs, NotWithLocal(idx));
    }

    method DiscardRemote(idx: nat)
      requires idx < |remoteCandidates|
      modifies this
      ensures View() == Ops.DiscardRemote(old(View()), idx)
    {
      remoteCandidates := remoteCandidates[idx := remoteCandidates[idx].(discarded := true)];
      candidatePairs := Retain(candidatePairs, NotWithRemote(idx));
    }

    /** Gives a candidate the agent's user fragment and the next local preference of its kind. */
    method Adopt(candidate: Candidate) returns (c: Candidate)
      requires HasPreferenceLeft(View(), candidate)
      ensures c == Adopted(View(), candidate)
      ensures c.kind == candidate.kind && c.addr == candidate.addr && c.discarded == candidate.discarded
      ensures candidate.Valid() ==> c.Valid()
    {
      c := candidate.(ufrag := Some(localCreds.ufrag));
      var sameKind := SameKind(localCandidates, c.kind, c.addr.ipv6);
      var pref := CounterStart(c.kind, c.addr.ipv6) - sameKind * 2;
      c := c.(setLocalPreference := Some(pref));
    }

    method AddLocalCandidate(candidate: Candidate) returns (added: bool)
      requires Inv(View()) && candidate.Valid() && !candidate.discarded && HasPreferenceLeft(View(), candidate)
      modifies this
      ensures (View(), added) == Ops.AddLocalCandidate(old(View()), candidate)
      ensures Inv(View())
    {
      hide Inv, Spec.FormPairs, SameKind, HasPreferenceLeft, Ops.DiscardLocal, Adopted, FindSame;
      AddLocalCandidateKeepsInv(View(), candidate);
      if iceLite && candidate.kind != Host {
        return false;
      }
      var c := Adopt(candidate);
      var same := FindSame(localCandidates, c);
      if same.Some? {
        InvMeansValid(View());
        if c.Prio() < localCandidates[same.value].Prio() {
          return false;
        }
        DiscardLocalKeepsInv(View(), same.value);
        DiscardLocal(same.value);
      }
      var remoteIdxs := PairableFrom(remoteCandidates, c.addr.ipv6, 0);
      PushLocalKeepsForming(View(), c);
      localCandidates := localCandidates + [c];
      FormPairs([|localCandidates| - 1], remoteIdxs);
      return true;
    }

    method AddRemoteCandidate(candidate: Candidate)
      requires Inv(View()) && candidate.Valid() && !candidate.discarded
      modifies this
      ensures View() == Ops.AddRemoteCandidate(old(View()), candidate)
      ensures Inv(View())
    {
      hide Inv, Spec.FormPairs;
      AddRemoteCandidateKeepsInv(View(), candidate);
      if candidate.componentId != 1 {
        return;
      }
      if remoteCreds.Some? {
        if candidate.ufrag.Some? {
          if candidate.ufrag.value != remoteCreds.value.ufrag {
            return;
          }
        }
      }
      var c := candidate.(ufrag := None);
      PlaceRemoteKeepsInv(View(), c);
      var existing := FindTemp(remoteCandidates, c.addr);
      var remoteIdx;
      if existing.Some? {
        remoteCandidates := remoteCandidates[existing.value := c];
        remoteIdx := existing.value;
      } else {
        remoteCandidates := remoteCandidates + [c];
        remoteIdx := |remoteCandidates| - 1;
      }
      InvIsForming(View());
      var localIdxs := PairableFrom(localCandidates, c.addr.ipv6, 0);
      FormPairs(localIdxs, [remoteIdx]);
    }

    method InvalidateCandidate(c: Candidate) returns (found: bool)
      requires Inv(View())
      modifies this
      ensures (View(), found) == Ops.InvalidateCandidate(old(View()), c)
      ensures Inv(View())
    {
      hide Inv;
      InvalidateCandidateKeepsInv(View(), c);
      var l := FindExact(localCandidates, c);
      if l.Some? && !localCandidates[l.value].discarded {
        DiscardLocal(l.value);
        return true;
      }
      var r := FindExact(remoteCandidates, c);
      if r.Some? && !remoteCandidates[r.value].discarded {
        DiscardRemote(r.value);
        return true;
      }
      return false;
    }

    method SetUfrags(ufrag: string)
      modifies this`localCandidates
      ensures localCandidates == WithUfrag(old(localCandidates), ufrag)
    {
      var k := 0;
      while k < |localCandidates|
        invariant 0 <= k <= |localCandidates| == |old(localCandidates)|
        invariant forall j | 0 <= j < k :: localCandidates[j] == old(localCandidates)[j].(ufrag := Some(ufrag))
        invariant forall j | k <= j < |localCandidates| :: localCandidates[j] == old(localCandidates)[j]
      {
        localCandidates := localCandidates[k := localCandidates[k].(ufrag := Some(ufrag))];
        k := k + 1;
      }
    }

    /** Forgets all there was with the remote side. */
    method Forget(creds: Creds)
      modifies `remoteCreds, `remoteCandidates, `candidatePairs, `transmit, `events, `discoveredRecv, `localCreds
      ensures remoteCreds == None && remoteCandidates == [] && candidatePairs == [] && localCreds == creds
      ensures transmit == [] && events == [] && discoveredRecv == {}
    {
      remoteCreds, remoteCandidates, candidatePairs := None, [], [];
      transmit, events, discoveredRecv, localCreds := [], [], {}, creds;
    }

    method IceRestart(creds: Creds, keepLocalCandidates: bool)
      requires Inv(View())
      modifies this
      ensures View() == Ops.IceRestart(old(View()), creds, keepLocalCandidates)
      ensures Inv(View())
    {
      hide Inv, WithUfrag, Spec.EmitEvent, Spec.SetConnectionState;
      IceRestartKeepsInv(View(), creds, keepLocalCandidates);
      if keepLocalCandidates {
        SetUfrags(creds.ufrag);
      } else {
        localCandidates := [];
      }
      Forget(creds);
      EmitEvent(IceRestarted(creds));
      SetConnectionState(Checking);
    }

    // ---------- STUN messages ----------

    /** The index of the remote candidate a request comes from. */
    method SourceOf(req: StunRequest) returns (r: nat)
      modifies this`remoteCandidates
      ensures (View(), r) == WithSource(old(View()), req)
    {
      var found := FindSource(remoteCandidates, req.proto, req.source);
      if found.Some? {
        return found.value;
      }
      var c := PeerReflexiveCandidate(req.proto, req.source, req.source, req.prio, Some(TEMP_FOUNDATION), localCreds.ufrag);
      remoteCandidates := remoteCandidates + [c];
      return |remoteCandidates| - 1;
    }

    method AnswerRequest(l: nat, r: nat, req: StunRequest)
      requires Inv(View()) && FindPair(candidatePairs, l, r).Some?
      modifies this
      ensures View() == Ops.AnswerRequest(old(View()), l, r, req)
    {
      hide Inv, Spec.EvaluateNomination, FindPair;
      InvMeans(View());
      FoundPair(View(), l, r);
      var k := FindPair(candidatePairs, l, r).value;
      CountedKeepsInv(View(), k, req);
      var proto, source, destination := localCandidates[l].proto, localCandidates[l].Base(), remoteCandidates[r].addr;
      candidatePairs := candidatePairs[k := candidatePairs[k].IncreaseRemoteBindingRequests(req.now)];
      if !controlling && !candidatePairs[k].IsNominated() && req.useCandidate {
        candidatePairs := candidatePairs[k := candidatePairs[k].Nominate(iceLite)];
      }
      assert View() == Counted(old(View()), k, req);
      EvaluateNominationKeepsInv(View());
      if controlling && candidatePairs[k].state == Succeeded {
        EvaluateNomination();
      }
      transmit := transmit + [Transmit(proto, source, destination, CheckReply(req.transId, localCreds.pass, req.source))];
    }

    method HandleRequest(req: StunRequest)
      requires Inv(View()) && remoteCreds.Some?
      modifies this
      ensures View() == Ops.HandleRequest(old(View()), req)
      ensures Inv(View())
    {
      hide Inv, WithSource, Ops.AnswerRequest, FindPair;
      HandleRequestKeepsInv(View(), req);
      if req.remoteUfrag != remoteCreds.value.ufrag {
        return;
      }
      if req.useCandidate && controlling {
        return;
      }
      WithSourceKeepsInv(View(), req);
      var r := SourceOf(req);
      var destination := FindDestination(localCandidates, req.proto, req.destination);
      if destination.None? {
        return;
      }
      var l := destination.value;
      ghost var before := View();
      FoundPairIsUsable(before, l, r);
      if FindPair(candidatePairs, l, r).None? {
        if localCandidates[l].discarded {
          return;
        }
        var local, remote := localCandidates[l], remoteCandidates[r];
        InvMeansValid(before);
        var pair := NewPair(nextId, l, r, CalculatePrio(controlling, remote.Prio(), local.Prio()));
        nextId := nextId + 1;
        candidatePairs := candidatePairs + [pair];
        candidatePairs := SortPairs(candidatePairs);
      }
      assert View() == WithPair(before, l, r);
      WithPairKeepsInv(before, l, r);
      AnswerRequest(l, r, req);
    }

    method HandleMessage(now: int, packet: Packet)
      requires Inv(View()) && packet.message.prio.Some? && packet.message.username.Some?
      modifies this
      ensures View() == Ops.HandleMessage(old(View()), now, packet)
    {
      hide Inv, Ops.HandleRequest;
      var m := packet.message;
      var req := StunRequest(now, packet.proto, packet.source, packet.destination, m.transId, m.prio.value,
                             m.useCandidate, m.username.value.1);
      if remoteCreds.Some? {
        HandleRequest(req);
      } else {
        Enqueue(req);
      }
    }

    /** Keeps a request for later, and at most 100 of them. */
    method Enqueue(req: StunRequest)
      modifies this`stunServerQueue
      ensures var queue := old(stunServerQueue) + [req];
              stunServerQueue == if |queue| > 100 then queue[|queue| - 100..] else queue
    {
      stunServerQueue := stunServerQueue + [req];
      ghost var queue := stunServerQueue;
      while |stunServerQueue| > 100
        invariant |stunServerQueue| <= |queue| && stunServerQueue == queue[|queue| - |stunServerQueue|..]
        invariant |queue| > 100 ==> |stunServerQueue| >= 100
        invariant |queue| <= 100 ==> stunServerQueue == queue
      {
        stunServerQueue := stunServerQueue[1..];
      }
    }

    /** The index of the local candidate that the other side saw a check come from. */
    method MappedOf(k: nat, mapped: Address) returns (valid: nat)
      requires Inv(View()) && k < |candidatePairs|
      modifies this`localCandidates
      ensures (View(), valid) == WithMapped(old(View()), k, mapped)
    {
      InvMeans(View());
      var found := FindFirst(localCandidates, (c: Candidate) => c.addr == mapped);
      if found.Some? {
        return found.value;
      }
      var from := localCandidates[candidatePairs[k].localIdx];
      InvMeansValid(View());
      var c := PeerReflexiveCandidate(from.proto, mapped, from.Base(), from.DoPrio(true), None, localCreds.ufrag);
      localCandidates := localCandidates + [c];
      return |localCandidates| - 1;
    }

    method HandleResponse(now: int, transId: nat, mapped: Address)
      requires Inv(View())
      modifies this
      ensures View() == Ops.HandleResponse(old(View()), now, transId, mapped)
      ensures Inv(View())
    {
      hide Inv, WithMapped, Spec.EvaluateNomination, Spec.EvaluateState;
      HandleResponseKeepsInv(View(), now, transId, mapped);
      var found := FindAttempt(candidatePairs, transId);
      if found.None? {
        return;
      }
      var k := found.value;
      RespondedKeepsInv(View(), now, transId, mapped, k);
      WithMappedKeepsInv(View(), k, mapped);
      var valid := MappedOf(k, mapped);
      candidatePairs := candidatePairs[k := candidatePairs[k].RecordBindingResponse(now, transId, valid)];
      assert View() == Responded(old(View()), now, transId, mapped, k);
      if controlling {
        EvaluateNomination();
      }
      EvaluateState(now);
    }

    method AcceptsMessage(m: Message) returns (accepted: bool)
      requires Inv(View()) && Parsed(m)
      ensures accepted == Ops.AcceptsMessage(View(), m)
    {
      hide Inv;
      if !m.isBinding {
        return false;
      }
      match m.cls {
        case UnknownClass =>
          return false;
        case Success =>
          accepted := AcceptsResponse(m);
        case Failure =>
          accepted := AcceptsResponse(m);
        case _ =>
          var (localUfrag, remoteUfrag) := m.username.value;
          if localUfrag != localCreds.ufrag {
            return false;
          }
          if remoteCreds.Some? && remoteUfrag != remoteCreds.value.ufrag {
            return false;
          }
          return m.integrity(localCreds.pass);
      }
    }

    method AcceptsResponse(m: Message) returns (accepted: bool)
      requires Inv(View())
      ensures accepted == Ops.AcceptsResponse(View(), m)
    {
      var found := FindAttempt(candidatePairs, m.transId);
      if found.None? {
        return false;
      }
      AttemptMeansCreds(View(), found.value, m.transId);
      return m.integrity(remoteCreds.value.pass);
    }

    method HandlePacket(now: int, packet: Packet) returns (handled: bool)
      requires Inv(View()) && Parsed(packet.message)
      modifies this
      ensures (View(), handled) == Ops.HandlePacket(old(View()), now, packet)
      ensures Inv(View())
    {
      hide Inv, Ops.AcceptsMessage, Ops.HandleMessage, Ops.HandleResponse, Spec.EmitEvent;
      HandlePacketKeepsInv(View(), now, packet);
      var m := packet.message;
      var accepted := AcceptsMessage(m);
      if !accepted {
        return false;
      }
      ParsedRequest(View(), m);
      if m.cls == Request {
        HandleMessage(now, packet);
      } else if m.cls == Success {
        HandleResponse(now, m.transId, m.mapped.value);
      }
      EmitEvent(DiscoveredRecv(packet.proto, packet.source));
      return true;
    }

    // ---------- Time ----------

    /** Drops the requests at the head of the queue that are too old. */
    method DropOldRequests(now: int)
      modifies this`stunServerQueue
      ensures stunServerQueue == DropOld(old(stunServerQueue), now)
    {
      while stunServerQueue != [] && now - stunServerQueue[0].now >= STUN_TIMEOUT
        invariant DropOld(stunServerQueue, now) == DropOld(old(stunServerQueue), now)
        decreases |stunServerQueue|
      {
        stunServerQueue := stunServerQueue[1..];
      }
    }

    method Prune(now: int)
      requires Inv(View())
      modifies this
      ensures View() == Ops.Prune(old(View()), now)
    {
      hide Inv, Spec.EvaluateNomination, Spec.EvaluateState, Retain;
      EvaluateNominationKeepsInv(View());
      EvaluateNomination();
      var all := |candidatePairs|;
      RetainAll(candidatePairs, Keep(iceLite, now));
      RetainKeepsInv(View(), Keep(iceLite, now));
      candidatePairs := Retain(candidatePairs, Keep(iceLite, now));
      if |candidatePairs| < all {
        EvaluateNomination();
        EvaluateState(now);
      }
    }

    method CountPairsFromNow(now: int)
      modifies this`candidatePairs
      ensures candidatePairs == CountFromNow(old(candidatePairs), now)
    {
      var k := 0;
      while k < |candidatePairs|
        invariant 0 <= k <= |candidatePairs| == |old(candidatePairs)|
        invariant forall j | 0 <= j < k :: candidatePairs[j] == CountFromNow(old(candidatePairs), now)[j]
        invariant forall j | k <= j < |candidatePairs| :: candidatePairs[j] == old(candidatePairs)[j]
      {
        if candidatePairs[k].remoteBindingRequestTime.None? {
          candidatePairs := candidatePairs[k := candidatePairs[k].IncreaseRemoteBindingRequests(now)];
        }
        k := k + 1;
      }
    }

    /** The pair whose check is due first, and when; every pair remembers when its own check is due. */
    method NextCheck(now: int) returns (next: Option<(nat, int)>)
      modifies this`candidatePairs
      ensures candidatePairs == Scheduled(old(candidatePairs), now)
      ensures next == NextDue(old(candidatePairs), now)
    {
      hide Scheduled, NextDue, Pair.NextBindingAttempt;
      next := None;
      var k := 0;
      ghost var pairs := candidatePairs;
      while k < |candidatePairs|
        invariant 0 <= k <= |candidatePairs| == |pairs|
        invariant candidatePairs == Scheduled(pairs, now)[..k] + pairs[k..]
        invariant next == NextDue(pairs[..k], now)
      {
        NextDueOfOneMore(pairs, k, now);
        ScheduledOneMore(pairs, k, now);
        var (p, t) := candidatePairs[k].NextBindingAttempt(now);
        candidatePairs := candidatePairs[k := p];
        if next.None? || t < next.value.1 {
          next := Some((k, t));
        }
        k := k + 1;
      }
      assert pairs[..k] == pairs;
    }

    method SendCheck(now: int, k: nat)
      requires Inv(View()) && remoteCreds.Some? && k < |candidatePairs|
      modifies this`candidatePairs, this`transmit, this`nextId
      ensures View() == Ops.SendCheck(old(View()), now, k)
    {
      InvMeans(View());
      InvMeansValid(View());
      hide Inv;
      var username, password := remoteCreds.value.ufrag + ":" + localCreds.ufrag, remoteCreds.value.pass;
      var local, remote := localCandidates[candidatePairs[k].localIdx], remoteCandidates[candidatePairs[k].remoteIdx];
      var prio := local.DoPrio(true);
      var useCandidate := controlling && candidatePairs[k].IsNominated();
      var transId := nextId;
      nextId := nextId + 1;
      candidatePairs := candidatePairs[k := candidatePairs[k].NewAttempt(now, transId)];
      var binding := CheckRequest(transId, username, password, controlling, prio, useCandidate);
      transmit := transmit + [Transmit(local.proto, local.Base(), remote.addr, binding)];
    }

    method CheckDue(now: int)
      requires Inv(View()) && remoteCreds.Some?
      modifies this
      ensures View() == Ops.CheckDue(old(View()), now)
    {
      hide Inv, Ops.SendCheck, Scheduled, NextPair;
      ScheduledKeepsInv(View(), now);
      var next := NextCheck(now);
      if next.Some? && now >= next.value.1 {
        SendCheck(now, next.value.0);
      }
    }

    /** Answers the first queued request that is not too old. */
    method AnswerQueued(now: int) returns (answered: bool)
      requires Inv(View()) && remoteCreds.Some?
      modifies this
      ensures var queue := DropOld(old(stunServerQueue), now);
              && answered == (queue != [])
              && Inv(old(View()).(stunServerQueue := if answered then queue[1..] else []))
              && View() == if answered then Ops.HandleRequest(old(View()).(stunServerQueue := queue[1..]), queue[0])
                           else old(View()).(stunServerQueue := [])
    {
      hide Inv, DropOld, Ops.HandleRequest;
      ghost var before := View();
      DropOldRequests(now);
      QueueKeepsInv(before, if stunServerQueue == [] then [] else stunServerQueue[1..]);
      if stunServerQueue == [] {
        return false;
      }
      var req := stunServerQueue[0];
      stunServerQueue := stunServerQueue[1..];
      HandleRequest(req);
      return true;
    }

    /** Prunes the checklist and, unless this is ice-lite, sends the check that is due. */
    method Advance(now: int)
      requires Inv(View())
      modifies this
      ensures View() == Ops.Advance(old(View()), now)
    {
      hide Inv, Ops.Prune, Ops.CheckDue, CountFromNow;
      TimeKeepsInv(View(), now);
      lastNow := Some(now);
      PruneKeepsInv(View(), now);
      Prune(now);
      if remoteCreds.None? {
        return;
      }
      if iceLite {
        CountPairsFromNow(now);
        return;
      }
      CheckDue(now);
    }

    method HandleTimeout(now: int)
      requires Inv(View())
      modifies this
      ensures View() == Ops.HandleTimeout(old(View()), now)
      ensures Inv(View())
    {
      hide Inv, Spec.EmitEvent, Spec.EvaluateState, DropOld, Ops.HandleRequest, Ops.Advance;
      HandleTimeoutKeepsInv(View(), now);
      EmitEventKeepsInv(View(), IceRestarted(localCreds));
      if state == New {
        EmitEvent(IceRestarted(localCreds));
      }
      EvaluateStateKeepsInv(View(), now);
      EvaluateState(now);
      if remoteCreds.Some? {
        var answered := AnswerQueued(now);
        if answered {
          return;
        }
      }
      Advance(now);
    }

    method PollTimeout() returns (t: Option<int>)
      modifies this`candidatePairs
      ensures (View(), t) == Ops.PollTimeout(old(View()))
    {
      if lastNow.None? {
        return None;
      }
      var soonest := lastNow.value + TIMING_ADVANCE;
      if stunServerQueue != [] || transmit != [] {
        return Some(soonest);
      }
      var next := None;
      if !iceLite {
        next := NextCheck(lastNow.value);
      }
      if next.Some? {
        return Some(if next.value.1 < soonest then soonest else next.value.1);
      }
      return Some(lastNow.value + 3000);
    }

    method PollTransmit() returns (t: Option<Transmit>)
      modifies this`transmit
      ensures old(transmit) == [] ==> t == None && transmit == []
      ensures old(transmit) != [] ==> t == Some(old(transmit)[0]) && transmit == old(transmit)[1..]
    {
      if transmit == [] {
        return None;
      }
      t := Some(transmit[0]);
      transmit := transmit[1..];
    }

    method PollEvent() returns (e: Option<Event>)
      modifies this`events
      ensures old(events) == [] ==> e == None && events == []
      ensures old(events) != [] ==> e == Some(old(events)[0]) && events == old(events)[1..]
    {
      if events == [] {
        return None;
      }
      e := Some(events[0]);
      events := events[1..];
    }
  }
}
