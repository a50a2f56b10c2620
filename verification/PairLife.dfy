/**
 A candidate pair over its whole life: what it takes itself to be is decided by what happened to it.
 */
module PairLife {
  import opened Bytes
  import opened Stun
  import opened IcePair

  datatype Act =
    | Nominate
    | Check(now: int, id: nat)
    | Answer(at: int, to: nat, validIdx: nat)
    | Request(time: int)
    | AskNext(when: int)

  /** No pair is nominated twice, each check has its own id, and only a check that is remembered is answered. */
  predicate Legal(p: Pair, acts: seq<Act>, act: Act) {
    match act
    case Nominate => !p.IsNominated()
    case Check(_, id) => !WasSent(acts, id)
    case Answer(_, id, _) => p.HasBindingAttempt(id)
    case _ => true
  }

  function Next(p: Pair, act: Act): Pair
    requires act.Nominate? ==> !p.IsNominated()
    requires act.Answer? ==> p.HasBindingAttempt(act.to)
  {
    match act
    case Nominate => p.Nominate(false)
    case Check(now, id) => p.NewAttempt(now, id)
    case Answer(now, id, validIdx) => p.RecordBindingResponse(now, id, validIdx)
    case Request(now) => p.IncreaseRemoteBindingRequests(now)
    case AskNext(now) => p.NextBindingAttempt(now).0
  }

  /** The pair that comes of a new one by these acts. */
  ghost predicate Lives(acts: seq<Act>, p: Pair)
    decreases |acts|
  {
    if |acts| == 0 then IsNew(p)
    else
      var n := |acts| - 1;
      exists q :: Lives(acts[..n], q) && Legal(q, acts[..n], acts[n]) && p == Next(q, acts[n])
  }

  predicate IsNew(p: Pair) {
    && p.state == Waiting && p.attempts == [] && p.nomination == NotNominated && p.validIdx == None
    && p.remoteBindingRequests == 0 && p.remoteBindingRequestTime == None && p.cachedNext == None
  }

  // ---------- What happened ----------

  predicate WasSent(acts: seq<Act>, id: nat) {
    exists k :: 0 <= k < |acts| && acts[k].Check? && acts[k].id == id
  }

  predicate WasAnswered(acts: seq<Act>, id: nat) {
    exists k :: 0 <= k < |acts| && acts[k].Answer? && acts[k].to == id
  }

  predicate WasNominated(acts: seq<Act>) {
    exists k :: 0 <= k < |acts| && acts[k].Nominate?
  }

  /** A check was sent when the pair was nominated already. */
  predicate SentSince(acts: seq<Act>, id: nat) {
    exists j, k :: 0 <= j < k < |acts| && acts[j].Nominate? && acts[k].Check? && acts[k].id == id
  }

  /** The checks sent, in order. */
  function Sent(acts: seq<Act>): seq<(nat, int)> {
    if acts == [] then []
    else
      var n := |acts| - 1;
      Sent(acts[..n]) + if acts[n].Check? then [(acts[n].id, acts[n].now)] else []
  }

  function AsSent(attempts: seq<BindingAttempt>): (r: seq<(nat, int)>)
    ensures |r| == |attempts| && forall k | 0 <= k < |r| :: r[k] == (attempts[k].transId, attempts[k].requestSent)
  {
    seq(|attempts|, k requires 0 <= k < |attempts| => (attempts[k].transId, attempts[k].requestSent))
  }

  function LastNine(s: seq<(nat, int)>): seq<(nat, int)> {
    if |s| > 9 then s[|s| - 9..] else s
  }

  // ---------- What the pair takes itself to be ----------

  ghost predicate Remembers(p: Pair, acts: seq<Act>) {
    && AsSent(p.attempts) == LastNine(Sent(acts))
    && (forall k | 0 <= k < |p.attempts| ::
          && WasSent(acts, p.attempts[k].transId)
          && (p.attempts[k].responseRecv.Some? <==> WasAnswered(acts, p.attempts[k].transId))
          && (p.attempts[k].nominated <==> SentSince(acts, p.attempts[k].transId)))
    && (forall i, j | 0 <= i < j < |p.attempts| :: p.attempts[i].transId != p.attempts[j].transId)
    && (forall id | WasAnswered(acts, id) :: WasSent(acts, id))
  }

  ghost predicate Succeeds(p: Pair, acts: seq<Act>) {
    && (p.state == Succeeded <==> exists id :: WasAnswered(acts, id))
    && (p.state == Waiting <==> forall id :: !WasSent(acts, id))
    && (p.validIdx.Some? <==> exists id :: WasAnswered(acts, id))
  }

  ghost predicate GetsNominated(p: Pair, acts: seq<Act>) {
    && (p.IsNominated() <==> WasNominated(acts))
    && (p.nomination == Nominated <==> WasNominated(acts) && forall id :: !SentSince(acts, id))
    && (p.nomination == Confirmed <==> exists id :: SentSince(acts, id) && WasAnswered(acts, id))
  }

  // ---------- One more act ----------

  lemma OneMore(acts: seq<Act>, act: Act)
    ensures var more := acts + [act];
            && (forall id :: WasSent(more, id) <==> WasSent(acts, id) || (act.Check? && act.id == id))
            && (forall id :: WasAnswered(more, id) <==> WasAnswered(acts, id) || (act.Answer? && act.to == id))
            && (WasNominated(more) <==> WasNominated(acts) || act.Nominate?)
            && (forall id :: SentSince(more, id) <==> SentSince(acts, id) || (act.Check? && act.id == id && WasNominated(acts)))
            && Sent(more) == Sent(acts) + if act.Check? then [(act.id, act.now)] else []
  {
    var more := acts + [act];
    assert more[..|acts|] == acts && more[|acts|] == act;
    forall id | WasSent(acts, id) ensures WasSent(more, id) {
      var k :| 0 <= k < |acts| && acts[k].Check? && acts[k].id == id;
      assert more[k] == acts[k];
    }
    forall id | WasAnswered(acts, id) ensures WasAnswered(more, id) {
      var k :| 0 <= k < |acts| && acts[k].Answer? && acts[k].to == id;
      assert more[k] == acts[k];
    }
    if WasNominated(acts) {
      var j :| 0 <= j < |acts| && acts[j].Nominate?;
      assert more[j] == acts[j];
    }
    forall id | SentSince(acts, id) ensures SentSince(more, id) {
      var j, k :| 0 <= j < k < |acts| && acts[j].Nominate? && acts[k].Check? && acts[k].id == id;
      assert more[j] == acts[j] && more[k] == acts[k];
    }
  }

  lemma SinceIsSent(acts: seq<Act>, id: nat)
    ensures SentSince(acts, id) ==> WasSent(acts, id) && WasNominated(acts)
  {
  }

  lemma CheckRemembers(p: Pair, acts: seq<Act>, now: int, id: nat)
    requires Remembers(p, acts) && GetsNominated(p, acts) && !WasSent(acts, id)
    ensures Remembers(p.NewAttempt(now, id), acts + [Check(now, id)])
  {
    OneMore(acts, Check(now, id));
    SinceIsSent(acts, id);
    LastNineGoesOn(p, Sent(acts), now, id);
    hide WasSent, WasAnswered, SentSince, WasNominated, Sent, LastNine, AsSent;
  }

  lemma LastNineGoesOn(p: Pair, sent: seq<(nat, int)>, now: int, id: nat)
    requires AsSent(p.attempts) == LastNine(sent)
    ensures AsSent(p.NewAttempt(now, id).attempts) == LastNine(sent + [(id, now)])
  {
    var all := p.attempts + [BindingAttempt(id, now, None, p.IsNominated())];
    assert AsSent(all) == LastNine(sent) + [(id, now)];
  }

  lemma CheckLives(p: Pair, acts: seq<Act>, now: int, id: nat)
    requires Succeeds(p, acts) && GetsNominated(p, acts) && !WasSent(acts, id) && Remembers(p, acts)
    ensures Succeeds(p.NewAttempt(now, id), acts + [Check(now, id)])
    ensures GetsNominated(p.NewAttempt(now, id), acts + [Check(now, id)])
  {
    OneMore(acts, Check(now, id));
    hide WasSent, WasAnswered, SentSince, WasNominated, Sent;
    var more := acts + [Check(now, id)];
    assert WasSent(more, id);
    if WasNominated(acts) {
      assert SentSince(more, id);
    }
    forall x | SentSince(more, x) && WasAnswered(more, x) ensures SentSince(acts, x) && WasAnswered(acts, x) {
    }
  }

  lemma AnswerRemembers(p: Pair, acts: seq<Act>, now: int, id: nat, validIdx: nat)
    requires Remembers(p, acts) && p.HasBindingAttempt(id)
    ensures var q, more := p.RecordBindingResponse(now, id, validIdx), acts + [Answer(now, id, validIdx)];
            Remembers(q, more) && WasAnswered(more, id) && WasSent(acts, id)
  {
    OneMore(acts, Answer(now, id, validIdx));
    hide WasSent, WasAnswered, SentSince, WasNominated, Sent, LastNine;
    var q, more := p.RecordBindingResponse(now, id, validIdx), acts + [Answer(now, id, validIdx)];
    var k := p.IndexOfAttempt(id);
    assert AsSent(q.attempts) == AsSent(p.attempts);
    assert WasAnswered(more, id);
    assert Sent(acts) + [] == Sent(acts);
  }

  lemma AnswerLives(p: Pair, acts: seq<Act>, now: int, id: nat, validIdx: nat)
    requires Remembers(p, acts) && Succeeds(p, acts) && GetsNominated(p, acts) && p.HasBindingAttempt(id)
    ensures var q, more := p.RecordBindingResponse(now, id, validIdx), acts + [Answer(now, id, validIdx)];
            Succeeds(q, more) && GetsNominated(q, more)
  {
    OneMore(acts, Answer(now, id, validIdx));
    AnswerRemembers(p, acts, now, id, validIdx);
    var q, more := p.RecordBindingResponse(now, id, validIdx), acts + [Answer(now, id, validIdx)];
    var k := p.IndexOfAttempt(id);
    assert p.attempts[k].nominated <==> SentSince(acts, id);
    SinceIsSent(acts, id);
    hide WasSent, WasAnswered, SentSince, WasNominated, Sent, LastNine;
    if q.nomination == Confirmed && p.nomination != Confirmed {
      assert SentSince(more, id) && WasAnswered(more, id);
    }
    forall x | SentSince(acts, x) && WasAnswered(acts, x) ensures SentSince(more, x) && WasAnswered(more, x) {
    }
    forall x | SentSince(more, x) && WasAnswered(more, x) ensures q.nomination == Confirmed {
      assert SentSince(acts, x);
      assert x == id || WasAnswered(acts, x);
    }
  }

  lemma OtherLives(p: Pair, acts: seq<Act>, act: Act)
    requires Remembers(p, acts) && Succeeds(p, acts) && GetsNominated(p, acts) && Legal(p, acts, act)
    requires !act.Check? && !act.Answer?
    ensures var q, more := Next(p, act), acts + [act];
            Remembers(q, more) && Succeeds(q, more) && GetsNominated(q, more)
  {
    OneMore(acts, act);
    forall id ensures SentSince(acts, id) ==> WasNominated(acts) {
      SinceIsSent(acts, id);
    }
    hide WasSent, WasAnswered, SentSince, WasNominated, Sent, LastNine;
    var q := Next(p, act);
    assert q.attempts == p.attempts;
  }

  /**
   Whatever happens to a pair: it remembers its last nine checks, which of them were answered, and which were sent as a
   nominated one; it has succeeded if and only if one was answered; and its nomination is confirmed if and only if a check
   was answered that was sent after it.
   */
  lemma {:induction false} PairIsItsHistory(acts: seq<Act>, p: Pair)
    requires Lives(acts, p)
    ensures Remembers(p, acts) && Succeeds(p, acts) && GetsNominated(p, acts)
    decreases |acts|
  {
    if |acts| > 0 {
      var n := |acts| - 1;
      var before, act := acts[..n], acts[n];
      var q :| Lives(before, q) && Legal(q, before, act) && p == Next(q, act);
      assert acts == before + [act];
      PairIsItsHistory(before, q);
      hide Remembers, Succeeds, GetsNominated;
      match act
      case Check(now, id) =>
        CheckRemembers(q, before, now, id);
        CheckLives(q, before, now, id);
      case Answer(now, id, validIdx) =>
        AnswerRemembers(q, before, now, id, validIdx);
        AnswerLives(q, before, now, id, validIdx);
      case _ => OtherLives(q, before, act);
    }
  }
}
