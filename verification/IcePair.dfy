/**
 Candidate pairs as ice/pair.rs keeps them: checks sent, answers received, the retransmission schedule, and
 nomination. Times are in milliseconds; transaction ids are opaque numbers.
 */
module IcePair {
  import opened Bytes
  import opened Stun

  const MIN_TIMEOUT := STUN_MAX_RTO_MILLIS
  const RECENT_BINDING_REQUEST := 15_000

  datatype CheckState = Waiting | InProgress | Succeeded
  datatype NominationState = NotNominated | Nominated | Attempted | Confirmed

  datatype BindingAttempt = BindingAttempt(transId: nat, requestSent: int, responseRecv: Option<int>, nominated: bool)

  /** A pair as a value; the agent keeps its pairs by value in a list. */
  datatype Pair = Pair(
    id: nat, localIdx: nat, remoteIdx: nat, validIdx: Option<nat>, prio: nat, state: CheckState,
    attempts: seq<BindingAttempt>, cachedNext: Option<int>,
    remoteBindingRequests: nat, remoteBindingRequestTime: Option<int>, nomination: NominationState)
  {
    predicate IsNominated() {
      nomination != NotNominated
    }

    predicate HasBindingAttempt(transId: nat) {
      exists k :: 0 <= k < |attempts| && attempts[k].transId == transId
    }

    predicate HasRecentRemoteBindingRequest(now: int) {
      remoteBindingRequestTime.Some? && now - remoteBindingRequestTime.value < RECENT_BINDING_REQUEST
    }

    function IncreaseRemoteBindingRequests(now: int): Pair {
      this.(remoteBindingRequests := remoteBindingRequests + 1, remoteBindingRequestTime := Some(now))
    }

    /** Nominating a pair twice stops the Rust code with an assertion. */
    function Nominate(forceSuccess: bool): Pair
      requires !IsNominated()
    {
      this.(nomination := if forceSuccess then Confirmed else Nominated)
    }

    function NewAttempt(now: int, newId: nat): Pair {
      var nomination' := if nomination == Nominated then Attempted else nomination;
      var all := attempts + [BindingAttempt(newId, now, None, nomination' != NotNominated)];
      this.(cachedNext := None,
            nomination := nomination',
            attempts := if |all| > STUN_MAX_RETRANS then all[|all| - STUN_MAX_RETRANS..] else all,
            state := if state == Waiting then InProgress else state)
    }

    /** The first attempt with a transaction id. */
    function IndexOfAttempt(transId: nat): (k: nat)
      requires HasBindingAttempt(transId)
      ensures k < |attempts| && attempts[k].transId == transId
      ensures forall j | 0 <= j < k :: attempts[j].transId != transId
    {
      FirstAttempt(attempts, transId)
    }

    function RecordBindingResponse(now: int, transId: nat, newValidIdx: nat): Pair
      requires HasBindingAttempt(transId)
    {
      var k := IndexOfAttempt(transId);
      this.(cachedNext := None,
            validIdx := Some(newValidIdx),
            attempts := attempts[k := attempts[k].(responseRecv := Some(now))],
            nomination := if attempts[k].nominated && nomination == Attempted then Confirmed else nomination,
            state := if state == InProgress then Succeeded else state)
    }

    /** When to send the next check; the answer is remembered. */
    function NextBindingAttempt(now: int): (Pair, int) {
      if cachedNext.Some? then (this, cachedNext.value)
      else
        var next :=
          if nomination == Nominated then now - 60_000
          else if attempts != [] then
            var unanswered := Unanswered(attempts);
            var count := if unanswered.Some? && now - unanswered.value.1 > STUN_MAX_RTO_MILLIS / 2
                         then unanswered.value.0 else |attempts|;
            attempts[|attempts| - 1].requestSent + StunResendDelay(count)
          else now;
        var min := now + MIN_TIMEOUT;
        var atLeast := if next < min then next else min;
        (this.(cachedNext := Some(atLeast)), atLeast)
    }

    predicate IsStillPossible(now: int) {
      var unanswered := Unanswered(attempts);
      var count := if unanswered.Some? then unanswered.value.0 else 0;
      |attempts| < STUN_MAX_RETRANS || count < STUN_MAX_RETRANS ||
      now < attempts[|attempts| - 1].requestSent + StunResendDelay(STUN_MAX_RETRANS)
    }
  }

  function FirstAttempt(attempts: seq<BindingAttempt>, transId: nat): (k: nat)
    requires exists k :: 0 <= k < |attempts| && attempts[k].transId == transId
    ensures k < |attempts| && attempts[k].transId == transId
    ensures forall j | 0 <= j < k :: attempts[j].transId != transId
  {
    if attempts[0].transId == transId then 0
    else
      assert forall k | 1 <= k < |attempts| :: attempts[k] == attempts[1..][k - 1];
      1 + FirstAttempt(attempts[1..], transId)
  }

  /** The number of unanswered attempts at the end, and when the first of them was sent. */
  function Unanswered(attempts: seq<BindingAttempt>): (r: Option<(nat, int)>)
    ensures r.Some? ==> 0 < r.value.0 <= |attempts|
  {
    if attempts == [] || attempts[|attempts| - 1].responseRecv.Some? then None
    else
      var before := Unanswered(attempts[..|attempts| - 1]);
      if before.None? then Some((1, attempts[|attempts| - 1].requestSent))
      else Some((before.value.0 + 1, before.value.1))
  }

  /** pair priority = 2^32 * MIN(G,D) + 2 * MAX(G,D) + (G > D ? 1 : 0) */
  function CalculatePrio(controlling: bool, remotePrio: nat, localPrio: nat): nat {
    var g := if controlling then localPrio else remotePrio;
    var d := if controlling then remotePrio else localPrio;
    0x1_0000_0000 * (if g < d then g else d) + 2 * (if g < d then d else g) + if g > d then 1 else 0
  }

  class CandidatePair {
    const id: nat
    const localIdx: nat
    const remoteIdx: nat
    const prio: nat
    var validIdx: Option<nat>
    var state: CheckState
    var bindingAttempts: seq<BindingAttempt>
    var cachedNextAttemptTime: Option<int>
    var remoteBindingRequests: nat
    var remoteBindingRequestTime: Option<int>
    var nominationState: NominationState

    constructor (id: nat, localIdx: nat, remoteIdx: nat, prio: nat)
      ensures View() == Pair(id, localIdx, remoteIdx, None, prio, Waiting, [], None, 0, None, NotNominated)
    {
      this.id, this.localIdx, this.remoteIdx, this.prio := id, localIdx, remoteIdx, prio;
      validIdx, state, bindingAttempts, cachedNextAttemptTime := None, Waiting, [], None;
      remoteBindingRequests, remoteBindingRequestTime, nominationState := 0, None, NotNominated;
    }

    ghost function View(): Pair
      reads this
    {
      Pair(id, localIdx, remoteIdx, validIdx, prio, state, bindingAttempts, cachedNextAttemptTime,
           remoteBindingRequests, remoteBindingRequestTime, nominationState)
    }

    method Nominate(forceSuccess: bool)
      requires nominationState == NotNominated
      modifies this
      ensures View() == old(View()).Nominate(forceSuccess)
    {
      if forceSuccess {
        nominationState := Confirmed;
      } else {
        nominationState := Nominated;
      }
    }

    method NewAttempt(now: int, transId: nat)
      modifies this
      ensures View() == old(View()).NewAttempt(now, transId)
    {
      cachedNextAttemptTime := None;
      if nominationState == Nominated {
        nominationState := Attempted;
      }
      bindingAttempts := bindingAttempts + [BindingAttempt(transId, now, None, nominationState != NotNominated)];
      ghost var all := bindingAttempts;
      while |bindingAttempts| > STUN_MAX_RETRANS
        invariant |bindingAttempts| <= |all| && bindingAttempts == all[|all| - |bindingAttempts|..]
        invariant |all| > STUN_MAX_RETRANS ==> |bindingAttempts| >= STUN_MAX_RETRANS
        invariant |all| <= STUN_MAX_RETRANS ==> bindingAttempts == all
        invariant View() == old(View()).(cachedNext := None, nomination := nominationState, attempts := bindingAttempts)
        invariant nominationState == if old(nominationState) == Nominated then Attempted else old(nominationState)
      {
        bindingAttempts := bindingAttempts[1..];
      }
      if state == Waiting {
        state := InProgress;
      }
    }

    method RecordBindingResponse(now: int, transId: nat, newValidIdx: nat)
      requires View().HasBindingAttempt(transId)
      modifies this
      ensures View() == old(View()).RecordBindingResponse(now, transId, newValidIdx)
    {
      cachedNextAttemptTime := None;
      validIdx := Some(newValidIdx);
      var k := 0;
      while bindingAttempts[k].transId != transId
        invariant 0 <= k <= old(View()).IndexOfAttempt(transId) < |bindingAttempts|
        invariant View() == old(View()).(cachedNext := None, validIdx := Some(newValidIdx))
        decreases |bindingAttempts| - k
      {
        k := k + 1;
      }
      var attempt := bindingAttempts[k];
      bindingAttempts := bindingAttempts[k := attempt.(responseRecv := Some(now))];
      if attempt.nominated && nominationState == Attempted {
        nominationState := Confirmed;
      }
      if state == InProgress {
        state := Succeeded;
      }
    }

    method NextBindingAttempt(now: int) returns (t: int)
      modifies this`cachedNextAttemptTime
      ensures (View(), t) == old(View()).NextBindingAttempt(now)
    {
      if cachedNextAttemptTime.Some? {
        return cachedNextAttemptTime.value;
      }
      var next := now;
      if nominationState == Nominated {
        next := now - 60_000;
      } else if bindingAttempts != [] {
        var unanswered := Unanswered(bindingAttempts);
        var sendCount := |bindingAttempts|;
        if unanswered.Some? && now - unanswered.value.1 > STUN_MAX_RTO_MILLIS / 2 {
          sendCount := unanswered.value.0;
        }
        next := bindingAttempts[|bindingAttempts| - 1].requestSent + StunResendDelay(sendCount);
      }
      var min := now + MIN_TIMEOUT;
      t := if next < min then next else min;
      cachedNextAttemptTime := Some(t);
    }
  }

  // ---------- When a pair is given up ----------

  lemma {:induction false} UnansweredCounts(attempts: seq<BindingAttempt>, n: nat)
    requires 0 < n <= |attempts|
    ensures (Unanswered(attempts).Some? && Unanswered(attempts).value.0 >= n) <==>
            forall k | |attempts| - n <= k < |attempts| :: attempts[k].responseRecv.None?
    decreases n
  {
    var last := |attempts| - 1;
    if n > 1 {
      UnansweredCounts(attempts[..last], n - 1);
      assert forall k | 0 <= k < last :: attempts[..last][k] == attempts[k];
    }
  }

  /** A pair that was nominated and not checked since goes first: it is due at once, before all that were checked lately. */
  lemma NominatedGoesFirst(p: Pair, q: Pair, now: int)
    requires p.nomination == Nominated && p.cachedNext.None?
    requires q.nomination != Nominated && q.cachedNext.None?
    requires q.attempts != [] ==> now - q.attempts[|q.attempts| - 1].requestSent < 60_000
    ensures p.NextBindingAttempt(now).1 <= now
    ensures p.NextBindingAttempt(now).1 < q.NextBindingAttempt(now).1
  {
  }

  /** A pair is given up exactly when its last nine attempts are unanswered and three seconds have passed since. */
  lemma GivenUpIff(p: Pair, now: int)
    ensures !p.IsStillPossible(now) <==>
            var n := |p.attempts|;
            && n >= STUN_MAX_RETRANS
            && (forall k | n - STUN_MAX_RETRANS <= k < n :: p.attempts[k].responseRecv.None?)
            && now >= p.attempts[n - 1].requestSent + 3000
  {
    if |p.attempts| >= STUN_MAX_RETRANS {
      UnansweredCounts(p.attempts, STUN_MAX_RETRANS);
    }
    assert StunResendDelay(STUN_MAX_RETRANS) == 3000 by {
      assert Pow2(8) == 256;
    }
  }

  /** Time alone does not bring a pair back. */
  lemma GivenUpStays(p: Pair, now: int, later: int)
    requires !p.IsStillPossible(now) && now <= later
    ensures !p.IsStillPossible(later)
  {
  }
}
