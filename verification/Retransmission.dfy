/**
 The retransmission schedule over whole runs: a caller that never goes back in time and sends a check only when
 next_binding_attempt says so does not see an unanswered pair given up before the STUN timeout.
 */
module Retransmission {
  import opened Bytes
  import opened Stun
  import opened IcePair

  /** One call of the driver: look at the schedule at a time, and send a check if asked to and if it is due. */
  datatype Poll = Poll(now: int, send: bool, transId: nat)

  /** The pair, and the times of all checks sent for it so far. */
  datatype Drive = Drive(pair: Pair, sent: seq<int>)

  function Step(d: Drive, poll: Poll): Drive {
    var (p, due) := d.pair.NextBindingAttempt(poll.now);
    if poll.send && poll.now >= due then Drive(p.NewAttempt(poll.now, poll.transId), d.sent + [poll.now])
    else Drive(p, d.sent)
  }

  function Run(d: Drive, polls: seq<Poll>): Drive
    decreases |polls|
  {
    if polls == [] then d else Run(Step(d, polls[0]), polls[1..])
  }

  predicate NonDecreasing(from: int, polls: seq<Poll>)
    decreases |polls|
  {
    polls == [] || (from <= polls[0].now && NonDecreasing(polls[0].now, polls[1..]))
  }

  /** The time of the last poll, or from if there was none. */
  function LastTime(from: int, polls: seq<Poll>): int
    decreases |polls|
  {
    if polls == [] then from else LastTime(polls[0].now, polls[1..])
  }

  function Min(a: nat, b: nat): nat {
    if a < b then a else b
  }

  /** The least time between the first check and the check after k more. */
  function Backoff(k: nat): nat {
    if k == 0 then 0 else Backoff(k - 1) + StunResendDelay(Min(k, STUN_MAX_RETRANS))
  }

  lemma DelaysAre()
    ensures StunResendDelay(1) == 250 && StunResendDelay(2) == 500 && StunResendDelay(3) == 1000
    ensures StunResendDelay(4) == 2000
    ensures forall k: nat | k >= 5 :: StunResendDelay(k) == 3000
  {
    assert Pow2(3) == 8;
    forall k: nat | 5 <= k ensures StunResendDelay(k) == 3000 {
      LargePow2(if k - 1 < STUN_MAX_RETRANS then k - 1 else STUN_MAX_RETRANS);
    }
  }

  lemma {:induction false} LargePow2(n: nat)
    requires n >= 4
    ensures Pow2(n) >= 16
  {
    if n > 4 {
      LargePow2(n - 1);
    }
  }

  /** The waits after 0 to 9 attempts add up to the STUN timeout. */
  lemma TimeoutIsTheSum()
    ensures StunResendDelay(0) + Backoff(STUN_MAX_RETRANS) == STUN_TIMEOUT
  {
    DelaysAre();
    assert Backoff(4) == 3750;
    assert Backoff(6) == 9750;
    assert Backoff(8) == 15750;
  }

  lemma {:induction false} BackoffGrows(k: nat, n: nat)
    requires k <= n
    ensures Backoff(k) <= Backoff(n)
  {
    if k < n {
      BackoffGrows(k, n - 1);
    }
  }

  /** A pair that was never answered and never nominated, with the checks it has had. */
  ghost predicate Inv(d: Drive, now: int) {
    var p, n := d.pair, |d.sent|;
    && p.nomination == NotNominated
    && |p.attempts| == Min(n, STUN_MAX_RETRANS)
    && (forall k | 0 <= k < |p.attempts| ::
          p.attempts[k].responseRecv.None? && p.attempts[k].requestSent == d.sent[n - |p.attempts| + k])
    && (forall k | 0 < k < n :: d.sent[k] >= d.sent[k - 1] + StunResendDelay(Min(k, STUN_MAX_RETRANS)))
    && (n > 0 ==> d.sent[n - 1] <= now)
    && (p.cachedNext.Some? ==>
          if n == 0 then p.cachedNext.value <= now
          else p.cachedNext.value == d.sent[n - 1] + StunResendDelay(Min(n, STUN_MAX_RETRANS)))
  }

  lemma AllUnanswered(d: Drive, now: int)
    requires Inv(d, now) && d.sent != []
    ensures Unanswered(d.pair.attempts).Some? && Unanswered(d.pair.attempts).value.0 == |d.pair.attempts|
  {
    UnansweredCounts(d.pair.attempts, |d.pair.attempts|);
  }

  /** The next check of such a pair is due after the delay for the checks it has had. */
  lemma NextIsDue(d: Drive, now: int, later: int)
    requires Inv(d, now) && now <= later
    ensures var (p, due) := d.pair.NextBindingAttempt(later);
            && p == d.pair.(cachedNext := Some(due))
            && Inv(Drive(p, d.sent), later)
            && (d.sent != [] ==> due == d.sent[|d.sent| - 1] + StunResendDelay(Min(|d.sent|, STUN_MAX_RETRANS)))
  {
    DelaysAre();
    if d.sent != [] {
      AllUnanswered(d, now);
      assert StunResendDelay(Min(|d.sent|, STUN_MAX_RETRANS)) <= 3000;
    }
  }

  /** The attempts that a pair remembers are the last checks, before and after one more. */
  lemma AttemptsAreLast(p: Pair, sent: seq<int>, now: int, transId: nat)
    requires p.nomination == NotNominated && |p.attempts| == Min(|sent|, STUN_MAX_RETRANS)
    requires forall k | 0 <= k < |p.attempts| ::
               p.attempts[k].responseRecv.None? && p.attempts[k].requestSent == sent[|sent| - |p.attempts| + k]
    ensures var q, more := p.NewAttempt(now, transId), sent + [now];
            && q.nomination == NotNominated && q.cachedNext.None? && |q.attempts| == Min(|more|, STUN_MAX_RETRANS)
            && forall k | 0 <= k < |q.attempts| ::
                 q.attempts[k].responseRecv.None? && q.attempts[k].requestSent == more[|more| - |q.attempts| + k]
  {
    var q, more := p.NewAttempt(now, transId), sent + [now];
    var all := p.attempts + [BindingAttempt(transId, now, None, false)];
    forall k | 0 <= k < |all| ensures all[k].responseRecv.None? && all[k].requestSent == more[|more| - |all| + k] {
    }
  }

  lemma SendKeepsInv(d: Drive, now: int, transId: nat)
    requires Inv(d, now) && d.pair.cachedNext.Some? && d.pair.cachedNext.value <= now
    ensures Inv(Drive(d.pair.NewAttempt(now, transId), d.sent + [now]), now)
  {
    AttemptsAreLast(d.pair, d.sent, now, transId);
    hide StunResendDelay, Pair.NewAttempt, Min;
    var n, more := |d.sent|, d.sent + [now];
    forall k | 0 < k < |more| ensures more[k] >= more[k - 1] + StunResendDelay(Min(k, STUN_MAX_RETRANS)) {
      if k < n {
        assert more[k] == d.sent[k] && more[k - 1] == d.sent[k - 1];
      }
    }
  }

  lemma StepKeepsInv(d: Drive, now: int, poll: Poll)
    requires Inv(d, now) && now <= poll.now
    ensures Inv(Step(d, poll), poll.now)
  {
    hide Inv, Pair.NextBindingAttempt, Pair.NewAttempt;
    NextIsDue(d, now, poll.now);
    var (p, due) := d.pair.NextBindingAttempt(poll.now);
    if poll.now >= due {
      SendKeepsInv(Drive(p, d.sent), poll.now, poll.transId);
    }
  }

  lemma {:induction false} RunKeepsInv(d: Drive, now: int, polls: seq<Poll>)
    requires Inv(d, now) && NonDecreasing(now, polls)
    ensures Inv(Run(d, polls), LastTime(now, polls))
    decreases |polls|
  {
    if polls != [] {
      StepKeepsInv(d, now, polls[0]);
      RunKeepsInv(Step(d, polls[0]), polls[0].now, polls[1..]);
    }
  }

  lemma {:induction false} SentIsSpaced(d: Drive, now: int, k: nat)
    requires Inv(d, now) && k < |d.sent|
    ensures d.sent[k] >= d.sent[0] + Backoff(k)
  {
    if k > 0 {
      SentIsSpaced(d, now, k - 1);
    }
  }

  /** The state of a new pair. */
  predicate IsNew(p: Pair) {
    p.attempts == [] && p.cachedNext == None && p.nomination == NotNominated
  }

  /**
   Over every run of such a driver on a new pair: at most nine checks are remembered, consecutive checks keep the
   schedule, and the pair is never given up before 18750 ms have passed since its first check.
   */
  lemma NotGivenUpEarly(p: Pair, start: int, polls: seq<Poll>, now: int)
    requires IsNew(p) && NonDecreasing(start, polls) && LastTime(start, polls) <= now
    ensures var d := Run(Drive(p, []), polls);
            && |d.pair.attempts| <= STUN_MAX_RETRANS
            && (forall k | 0 < k < |d.sent| :: d.sent[k] >= d.sent[k - 1] + StunResendDelay(Min(k, STUN_MAX_RETRANS)))
            && (!d.pair.IsStillPossible(now) ==> d.sent != [] && now >= d.sent[0] + STUN_TIMEOUT)
  {
    RunKeepsInv(Drive(p, []), start, polls);
    var d := Run(Drive(p, []), polls);
    if !d.pair.IsStillPossible(now) {
      GivenUpIff(d.pair, now);
      var n := |d.sent|;
      SentIsSpaced(d, LastTime(start, polls), n - 1);
      BackoffGrows(STUN_MAX_RETRANS - 1, n - 1);
      TimeoutIsTheSum();
      DelaysAre();
    }
  }

  /** Polls that send each check the moment it is due. */
  function Prompt(from: nat, k: nat): seq<Poll>
    requires k <= STUN_MAX_RETRANS
  {
    if k == 0 then [] else Prompt(from, k - 1) + [Poll(from + Backoff(k - 1), true, k)]
  }

  /** The bound is reached: a driver that sends each check when it is due sees the pair given up at 18750 ms. */
  lemma BoundIsReached(p: Pair)
    requires IsNew(p)
    ensures var d := Run(Drive(p, []), Prompt(0, STUN_MAX_RETRANS));
            && d.sent != [] && d.sent[0] == 0
            && !d.pair.IsStillPossible(STUN_TIMEOUT)
            && d.pair.IsStillPossible(STUN_TIMEOUT - 1)
  {
    PromptSends(p, STUN_MAX_RETRANS);
    var d := Run(Drive(p, []), Prompt(0, STUN_MAX_RETRANS));
    GivenUpIff(d.pair, STUN_TIMEOUT);
    GivenUpIff(d.pair, STUN_TIMEOUT - 1);
    TimeoutIsTheSum();
    DelaysAre();
  }

  lemma {:induction false} RunConcat(d: Drive, a: seq<Poll>, b: seq<Poll>)
    ensures Run(d, a + b) == Run(Run(d, a), b)
    decreases |a|
  {
    if a == [] {
      assert a + b == b;
    } else {
      assert (a + b)[1..] == a[1..] + b;
      RunConcat(Step(d, a[0]), a[1..], b);
    }
  }

  /** A check sent when due leaves a pair that has not looked at its schedule since. */
  lemma PromptStep(d: Drive, last: int, poll: Poll)
    requires Inv(d, last) && d.pair.cachedNext == None && poll.send
    requires poll.now == if d.sent == [] then last
                         else d.sent[|d.sent| - 1] + StunResendDelay(Min(|d.sent|, STUN_MAX_RETRANS))
    requires poll.now >= last
    ensures Step(d, poll).sent == d.sent + [poll.now] && Step(d, poll).pair.cachedNext == None
  {
    hide StunResendDelay, Inv;
    NextIsDue(d, last, poll.now);
  }

  lemma {:induction false} PromptSends(p: Pair, k: nat)
    requires IsNew(p) && k <= STUN_MAX_RETRANS
    ensures var d := Run(Drive(p, []), Prompt(0, k));
            var last := if k == 0 then 0 else Backoff(k - 1);
            && Inv(d, last) && |d.sent| == k && d.pair.cachedNext == None
            && forall j | 0 <= j < k :: d.sent[j] == Backoff(j)
  {
    hide Step, StunResendDelay;
    if k > 0 {
      PromptSends(p, k - 1);
      var d := Run(Drive(p, []), Prompt(0, k - 1));
      var poll := Poll(Backoff(k - 1), true, k);
      PromptOneMore(p, k);
      var last := if k == 1 then 0 else Backoff(k - 2);
      hide Inv, Run, Prompt;
      PromptStep(d, last, poll);
      StepKeepsInv(d, last, poll);
    }
  }

  lemma PromptOneMore(p: Pair, k: nat)
    requires 0 < k <= STUN_MAX_RETRANS
    ensures var d := Run(Drive(p, []), Prompt(0, k - 1));
            Run(Drive(p, []), Prompt(0, k)) == Step(d, Poll(Backoff(k - 1), true, k))
  {
    var d := Run(Drive(p, []), Prompt(0, k - 1));
    var poll := Poll(Backoff(k - 1), true, k);
    RunConcat(Drive(p, []), Prompt(0, k - 1), [poll]);
    OnePoll(d, poll);
  }

  lemma OnePoll(d: Drive, poll: Poll)
    ensures Run(d, [poll]) == Step(d, poll)
  {
    assert [poll][1..] == [];
  }

  // ---------- Pairs that were answered ----------

  lemma {:induction false} UnansweredIs(attempts: seq<BindingAttempt>, n: nat)
    requires n < |attempts| && attempts[|attempts| - n - 1].responseRecv.Some?
    requires forall k | |attempts| - n <= k < |attempts| :: attempts[k].responseRecv.None?
    ensures Unanswered(attempts) == if n == 0 then None else Some((n, attempts[|attempts| - n].requestSent))
    decreases n
  {
    if n > 0 {
      UnansweredIs(attempts[..|attempts| - 1], n - 1);
    }
  }

  /**
   When the last check but n was answered, the next one is due as the number of all checks that are remembered says, so every
   3 s from the fifth on; but once the first unanswered one is more than 1.5 s old, as the number of unanswered ones says,
   so from 250 ms on again.
   */
  lemma NextAfterAnswer(p: Pair, now: int, n: nat)
    requires p.cachedNext.None? && p.nomination != Nominated
    requires n < |p.attempts| && p.attempts[|p.attempts| - n - 1].responseRecv.Some?
    requires forall k | |p.attempts| - n <= k < |p.attempts| :: p.attempts[k].responseRecv.None?
    requires p.attempts[|p.attempts| - 1].requestSent <= now
    ensures var all := |p.attempts|;
            var checks := if n > 0 && now > p.attempts[all - n].requestSent + 1500 then n else all;
            p.NextBindingAttempt(now).1 == p.attempts[all - 1].requestSent + StunResendDelay(checks)
  {
    UnansweredIs(p.attempts, n);
    var checks := if n > 0 && now > p.attempts[|p.attempts| - n].requestSent + 1500 then n else |p.attempts|;
    assert StunResendDelay(checks) <= 3000;
  }
}
