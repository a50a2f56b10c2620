/**
 Whose messages reach whom through the signal server, over whole runs: what the peer in one slot sends gets to the peer in
 the other slot of its room, in order, and to nobody else.
 */
module SignalDelivery {
  import opened Bytes
  import opened SignalRoom

  /** What a step brings to a handler: the replay of an offer, or what a peer of the other role sends in its room. */
  function Brought(s: Server, step: Step, k: nat): seq<Msg>
    requires InRange(s) && Enabled(s, step) && k < |s.handlers|
  {
    match step
    case Replay(h) => if h == k && s.handlers[k].pc.cached.Some? then [s.handlers[k].pc.cached.value] else []
    case Read(h, m) =>
      if m.valid && s.handlers[h].room == s.handlers[k].room && s.handlers[h].role != s.handlers[k].role && InSlot(s, k)
      then [m] else []
    case _ => []
  }

  lemma BroughtIsSent(s: Server, step: Step, k: nat)
    requires Inv(s) && Enabled(s, step) && k < |s.handlers|
    ensures Sent(s, step, k) == Brought(s, step, k)
  {
    if step.Read? {
      var h := s.handlers[step.h];
      assert SlotOk(s, h.room, Device) && SlotOk(s, h.room, Client);
    }
  }

  function AllBrought(s: Server, steps: seq<Step>, k: nat): seq<Msg>
    requires Inv(s) && LegalRun(s, steps) && k < |s.handlers|
    decreases |steps|
  {
    if steps == [] then []
    else
      StepKeepsInv(s, steps[0]);
      HandlerAfter(s, steps[0], k);
      Brought(s, steps[0], k) + AllBrought(Next(s, steps[0]), steps[1..], k)
  }

  lemma BroughtNext(s: Server, steps: seq<Step>, k: nat)
    requires Inv(s) && LegalRun(s, steps) && k < |s.handlers| && steps != []
    ensures Enabled(s, steps[0]) && Inv(Next(s, steps[0])) && LegalRun(Next(s, steps[0]), steps[1..])
    ensures k < |Next(s, steps[0]).handlers|
    ensures AllBrought(s, steps, k) == Brought(s, steps[0], k) + AllBrought(Next(s, steps[0]), steps[1..], k)
  {
    StepKeepsInv(s, steps[0]);
    HandlerAfter(s, steps[0], k);
    hide Inv, Next, Enabled, Brought;
  }

  /** Over every run, the channel of a handler that was never full has accepted just what was brought to it, in order. */
  lemma {:induction false} ChannelsAreExact(s: Server, steps: seq<Step>, k: nat)
    requires Inv(s) && LegalRun(s, steps) && k < |s.handlers|
    ensures k < |Run(s, steps).handlers|
    ensures s.handlers[k].channel.overflowed ==> Run(s, steps).handlers[k].channel.overflowed
    ensures !Run(s, steps).handlers[k].channel.overflowed ==>
              Run(s, steps).handlers[k].channel.All() == s.handlers[k].channel.All() + AllBrought(s, steps, k)
    decreases |steps|
  {
    assert InRange(s);
    hide Inv, Next, Brought, Channel.All, Enabled, AllBrought;
    if steps == [] {
      NothingBrought(s, steps, k);
    } else {
      var s1 := Next(s, steps[0]);
      BroughtNext(s, steps, k);
      ChannelNext(s, steps[0], k);
      ChannelsAreExact(s1, steps[1..], k);
      var before := s.handlers[k].channel.All();
      assert before + Brought(s, steps[0], k) + AllBrought(s1, steps[1..], k) == before + AllBrought(s, steps, k);
    }
  }

  lemma NothingBrought(s: Server, steps: seq<Step>, k: nat)
    requires Inv(s) && LegalRun(s, steps) && k < |s.handlers| && steps == []
    ensures s.handlers[k].channel.All() + AllBrought(s, steps, k) == s.handlers[k].channel.All()
  {
  }

  lemma ChannelNext(s: Server, step: Step, k: nat)
    requires Inv(s) && Enabled(s, step) && k < |s.handlers|
    ensures k < |Next(s, step).handlers|
    ensures var before, after := s.handlers[k].channel, Next(s, step).handlers[k].channel;
            && (before.overflowed ==> after.overflowed)
            && (!after.overflowed ==> after.All() == before.All() + Brought(s, step, k))
  {
    ChannelAfter(s, step, k);
    BroughtIsSent(s, step, k);
    hide Next, Inv, Sent, Brought, Channel.All;
  }
  /** The valid messages that a handler reads in a run. */
  function ReadBy(steps: seq<Step>, h: nat): seq<Msg> {
    if steps == [] then []
    else (if steps[0].Read? && steps[0].h == h && steps[0].m.valid then [steps[0].m] else []) + ReadBy(steps[1..], h)
  }

  lemma ReadNext(steps: seq<Step>, h: nat)
    requires steps != []
    ensures ReadBy(steps, h) ==
            (if steps[0].Read? && steps[0].h == h && steps[0].m.valid then [steps[0].m] else []) + ReadBy(steps[1..], h)
  {
  }

  lemma SentNext(s: Server, step: Step, h: nat)
    requires Inv(s) && Enabled(s, step) && h < |s.handlers|
    ensures Inv(Next(s, step)) && h < |Next(s, step).handlers|
    ensures Next(s, step).handlers[h].sent ==
            s.handlers[h].sent + if step.Read? && step.h == h && step.m.valid then [step.m] else []
  {
    StepKeepsInv(s, step);
    HandlerAfter(s, step, h);
    hide Inv, Next;
    assert s.handlers[h].sent + [] == s.handlers[h].sent;
  }

  lemma {:induction false} SentIsRead(s: Server, steps: seq<Step>, h: nat)
    requires Inv(s) && LegalRun(s, steps) && h < |s.handlers|
    ensures h < |Run(s, steps).handlers| && Run(s, steps).handlers[h].sent == s.handlers[h].sent + ReadBy(steps, h)
    decreases |steps|
  {
    assert InRange(s);
    hide Inv, Next, Enabled, ReadBy;
    if steps == [] {
      NothingRead(s, steps, h);
    } else {
      var s1 := Next(s, steps[0]);
      SentNext(s, steps[0], h);
      SentIsRead(s1, steps[1..], h);
      ReadNext(steps, h);
      var one := if steps[0].Read? && steps[0].h == h && steps[0].m.valid then [steps[0].m] else [];
      assert s.handlers[h].sent + one + ReadBy(steps[1..], h) == s.handlers[h].sent + (one + ReadBy(steps[1..], h));
    }
  }

  lemma NothingRead(s: Server, steps: seq<Step>, h: nat)
    requires h < |s.handlers| && steps == []
    ensures s.handlers[h].sent + ReadBy(steps, h) == s.handlers[h].sent
  {
  }

  // ---------- Two peers in one room ----------

  /** A device and a client in the two slots of one room. */
  predicate Together(s: Server, d: nat, c: nat) {
    && InRange(s) && d < |s.handlers| && c < |s.handlers| && s.handlers[d].room == s.handlers[c].room
    && s.handlers[d].role == Device && s.handlers[c].role == Client && InSlot(s, d) && InSlot(s, c)
  }

  /** They stay there until the end. */
  predicate StayTogether(s: Server, steps: seq<Step>, d: nat, c: nat)
    requires Inv(s) && LegalRun(s, steps)
    decreases |steps|
  {
    Together(s, d, c) &&
    (steps == [] || (StepKeepsInv(s, steps[0]); StayTogether(Next(s, steps[0]), steps[1..], d, c)))
  }

  /** Of the peers of the room, none but these two sends. */
  predicate OnlyTheySend(s: Server, steps: seq<Step>, d: nat, c: nat)
    requires Inv(s) && LegalRun(s, steps) && d < |s.handlers|
    decreases |steps|
  {
    steps == [] ||
    (&& (steps[0].Read? && s.handlers[steps[0].h].room == s.handlers[d].room ==> steps[0].h == d || steps[0].h == c)
     && (StepKeepsInv(s, steps[0]);
         HandlerAfter(s, steps[0], d);
         OnlyTheySend(Next(s, steps[0]), steps[1..], d, c)))
  }

  /** All of a is in b, in order. */
  predicate Subsequence(a: seq<Msg>, b: seq<Msg>)
    decreases |b|
  {
    a == [] || (b != [] && if a[0] == b[0] then Subsequence(a[1..], b[1..]) else Subsequence(a, b[1..]))
  }

  lemma {:induction false} LessIsSubsequence(a: seq<Msg>, b: seq<Msg>)
    requires a != [] && Subsequence(a, b)
    ensures Subsequence(a[1..], b)
    decreases |b|, 0
  {
    if a[0] == b[0] {
      if |a| > 1 {
        MoreIsSubsequence(a[1..], b[1..], b[0]);
        assert [b[0]] + b[1..] == b;
      }
    } else {
      LessIsSubsequence(a, b[1..]);
      MoreIsSubsequence(a[1..], b[1..], b[0]);
      assert [b[0]] + b[1..] == b;
    }
  }

  lemma {:induction false} MoreIsSubsequence(a: seq<Msg>, b: seq<Msg>, x: Msg)
    requires Subsequence(a, b)
    ensures Subsequence(a, [x] + b)
    decreases |b|, 1
  {
    assert ([x] + b)[1..] == b;
    if a != [] && a[0] == x {
      LessIsSubsequence(a, b);
    }
  }

  lemma BothMore(a: seq<Msg>, b: seq<Msg>, x: Msg)
    requires Subsequence(a, b)
    ensures Subsequence([x] + a, [x] + b)
  {
    assert ([x] + a)[1..] == a && ([x] + b)[1..] == b;
  }

  /** What a step brings to a peer in its slot, when the other slot is taken as well. */
  lemma BroughtTo(s: Server, step: Step, k: nat, other: nat)
    requires Inv(s) && Enabled(s, step) && (Together(s, k, other) || Together(s, other, k))
    requires s.handlers[k].pc == Serving || step != Replay(k)
    ensures step.Read? && step.h == other && step.m.valid ==> Brought(s, step, k) == [step.m]
    ensures Brought(s, step, k) != [] ==>
              && step.Read? && step.m.valid && step.h != k && Brought(s, step, k) == [step.m]
              && s.handlers[step.h].room == s.handlers[k].room
  {
  }

  /** As long as a peer is in its slot and serves, it goes on serving. */
  lemma GoesOnServing(s: Server, step: Step, k: nat)
    requires Inv(s) && Enabled(s, step) && k < |s.handlers| && s.handlers[k].pc == Serving
    requires InRange(Next(s, step)) && k < |Next(s, step).handlers| && InSlot(Next(s, step), k)
    ensures Next(s, step).handlers[k].pc == Serving
  {
    if step == Leave(k) {
      RoomAfter(s, step, s.handlers[k].room);
      HandlerAfter(s, step, k);
    } else {
      HandlerAfter(s, step, k);
    }
    hide Next;
  }

  /** Who is together in a run, k and other in either order. */
  predicate Meet(s: Server, steps: seq<Step>, k: nat, other: nat)
    requires Inv(s) && LegalRun(s, steps)
  {
    StayTogether(s, steps, k, other) || StayTogether(s, steps, other, k)
  }

  lemma MeetNext(s: Server, steps: seq<Step>, k: nat, other: nat)
    requires Inv(s) && LegalRun(s, steps) && Meet(s, steps, k, other)
    ensures Together(s, k, other) || Together(s, other, k)
    ensures steps != [] ==>
              && Enabled(s, steps[0]) && Inv(Next(s, steps[0])) && LegalRun(Next(s, steps[0]), steps[1..])
              && Meet(Next(s, steps[0]), steps[1..], k, other) && InRange(Next(s, steps[0]))
              && (Together(Next(s, steps[0]), k, other) || Together(Next(s, steps[0]), other, k))
  {
    if steps != [] {
      StepKeepsInv(s, steps[0]);
    }
    hide Inv, Next, Enabled, InSlot;
  }

  lemma OnlyNext(s: Server, steps: seq<Step>, d: nat, c: nat)
    requires Inv(s) && LegalRun(s, steps) && d < |s.handlers| && OnlyTheySend(s, steps, d, c) && steps != []
    ensures Enabled(s, steps[0]) && Inv(Next(s, steps[0])) && LegalRun(Next(s, steps[0]), steps[1..])
    ensures d < |Next(s, steps[0]).handlers| && OnlyTheySend(Next(s, steps[0]), steps[1..], d, c)
    ensures steps[0].Read? && s.handlers[steps[0].h].room == s.handlers[d].room ==> steps[0].h == d || steps[0].h == c
  {
    StepKeepsInv(s, steps[0]);
    HandlerAfter(s, steps[0], d);
    hide Inv, Next;
  }

  /** While two peers are together and k serves, it gets all that the other one sends, and from these two nothing else. */
  lemma {:induction false} ServingGetsAll(s: Server, steps: seq<Step>, k: nat, other: nat)
    requires Inv(s) && LegalRun(s, steps) && Meet(s, steps, k, other) && k < |s.handlers| && s.handlers[k].pc == Serving
    ensures Subsequence(ReadBy(steps, other), AllBrought(s, steps, k))
    ensures OnlyTheySend(s, steps, k, other) ==> AllBrought(s, steps, k) == ReadBy(steps, other)
    decreases |steps|
  {
    if steps == [] {
      return;
    }
    MeetNext(s, steps, k, other);
    BroughtNext(s, steps, k);
    BroughtTo(s, steps[0], k, other);
    GoesOnServing(s, steps[0], k);
    ServingGetsAll(Next(s, steps[0]), steps[1..], k, other);
    ReadNext(steps, other);
    var rest := AllBrought(Next(s, steps[0]), steps[1..], k);
    if OnlyTheySend(s, steps, k, other) {
      OnlyNext(s, steps, k, other);
    }
    hide Next, Inv, Enabled, Brought, AllBrought, ReadBy, Meet, OnlyTheySend, Together;
    if steps[0].Read? && steps[0].h == other && steps[0].m.valid {
      BothMore(ReadBy(steps[1..], other), rest, steps[0].m);
    } else {
      assert [] + ReadBy(steps[1..], other) == ReadBy(steps[1..], other);
      if Brought(s, steps[0], k) == [] {
        assert [] + rest == rest;
      } else {
        MoreIsSubsequence(ReadBy(steps[1..], other), rest, steps[0].m);
      }
    }
  }

  /** b is a with at most one message more. */
  predicate OneMoreThan(a: seq<Msg>, b: seq<Msg>) {
    b == a || exists i :: 0 <= i < |b| && |b| == |a| + 1 && b[..i] + b[i + 1..] == a
  }

  lemma OneMoreFirst(a: seq<Msg>, x: seq<Msg>)
    requires |x| <= 1
    ensures OneMoreThan(a, x + a)
  {
    if x == [] {
      assert x + a == a;
    } else {
      assert (x + a)[..0] + (x + a)[1..] == a;
    }
  }

  lemma OneMoreBoth(a: seq<Msg>, b: seq<Msg>, x: seq<Msg>)
    requires OneMoreThan(a, b)
    ensures OneMoreThan(x + a, x + b)
  {
    if b != a {
      var i :| 0 <= i < |b| && |b| == |a| + 1 && b[..i] + b[i + 1..] == a;
      var j := |x| + i;
      assert (x + b)[..j] == x + b[..i] && (x + b)[j + 1..] == b[i + 1..];
      assert x + b[..i] + b[i + 1..] == x + a;
    }
  }

  /** A client that serves already gets just what the device sends; one that does not may get the replay besides, once. */
  lemma {:induction false} ClientGetsAll(s: Server, steps: seq<Step>, c: nat, d: nat)
    requires Inv(s) && LegalRun(s, steps) && StayTogether(s, steps, d, c)
    ensures Subsequence(ReadBy(steps, d), AllBrought(s, steps, c))
    ensures OnlyTheySend(s, steps, c, d) ==> OneMoreThan(ReadBy(steps, d), AllBrought(s, steps, c))
    decreases |steps|
  {
    if s.handlers[c].pc == Serving {
      ServingGetsAll(s, steps, c, d);
      return;
    }
    if steps == [] {
      return;
    }
    MeetNext(s, steps, c, d);
    BroughtNext(s, steps, c);
    StayNext(s, steps, d, c);
    ReadNext(steps, d);
    var s1 := Next(s, steps[0]);
    var rest := AllBrought(s1, steps[1..], c);
    if OnlyTheySend(s, steps, c, d) {
      OnlyNext(s, steps, c, d);
    }
    if steps[0] == Replay(c) {
      Replayed(s, c);
      ServingGetsAll(s1, steps[1..], c, d);
      hide Next, Inv, Enabled, AllBrought, ReadBy, Meet, OnlyTheySend, Together, StayTogether;
      var x := Brought(s, steps[0], c);
      assert [] + ReadBy(steps[1..], d) == ReadBy(steps[1..], d);
      OneMoreFirst(ReadBy(steps[1..], d), x);
      if x == [] {
        assert x + rest == rest;
      } else {
        assert x == [x[0]];
        MoreIsSubsequence(ReadBy(steps[1..], d), rest, x[0]);
      }
    } else {
      BroughtTo(s, steps[0], c, d);
      ClientGetsAll(s1, steps[1..], c, d);
      hide Next, Inv, Enabled, Brought, AllBrought, ReadBy, Meet, OnlyTheySend, Together, StayTogether, OneMoreThan;
      if steps[0].Read? && steps[0].h == d && steps[0].m.valid {
        BothMore(ReadBy(steps[1..], d), rest, steps[0].m);
        if OneMoreThan(ReadBy(steps[1..], d), rest) {
          OneMoreBoth(ReadBy(steps[1..], d), rest, [steps[0].m]);
        }
      } else {
        assert [] + ReadBy(steps[1..], d) == ReadBy(steps[1..], d);
        if Brought(s, steps[0], c) == [] {
          assert [] + rest == rest;
        } else {
          MoreIsSubsequence(ReadBy(steps[1..], d), rest, steps[0].m);
        }
      }
    }
  }

  lemma StayNext(s: Server, steps: seq<Step>, d: nat, c: nat)
    requires Inv(s) && LegalRun(s, steps) && StayTogether(s, steps, d, c) && steps != []
    ensures Enabled(s, steps[0]) && Inv(Next(s, steps[0])) && LegalRun(Next(s, steps[0]), steps[1..])
    ensures StayTogether(Next(s, steps[0]), steps[1..], d, c)
  {
    StepKeepsInv(s, steps[0]);
    hide Inv, Next, Enabled;
  }

  lemma Replayed(s: Server, c: nat)
    requires Inv(s) && Enabled(s, Replay(c)) && c < |s.handlers|
    ensures c < |Next(s, Replay(c)).handlers| && Next(s, Replay(c)).handlers[c].pc == Serving
    ensures |Brought(s, Replay(c), c)| <= 1
  {
    HandlerAfter(s, Replay(c), c);
  }

  // ---------- What was sent and what arrived ----------

  /**
   Over every run in which a device and a client stay in the two slots of their room: the valid messages that the client
   sent meanwhile are, in order, among those accepted for the device, unless its channel was full; and if no other peer of
   the room sent anything, then no others are.
   */
  lemma DeviceGetsWhatClientSends(s: Server, steps: seq<Step>, d: nat, c: nat)
    requires Inv(s) && LegalRun(s, steps) && StayTogether(s, steps, d, c) && s.handlers[d].pc == Serving
    requires d < |Run(s, steps).handlers| && !Run(s, steps).handlers[d].channel.overflowed
    ensures d < |Run(s, steps).handlers| && c < |Run(s, steps).handlers|
    ensures var s' := Run(s, steps);
            var all, all' := s.handlers[d].channel.All(), s'.handlers[d].channel.All();
            var sent, sent' := s.handlers[c].sent, s'.handlers[c].sent;
            && all <= all' && sent <= sent'
            && Subsequence(sent'[|sent|..], all'[|all|..])
            && (OnlyTheySend(s, steps, d, c) ==> all'[|all|..] == sent'[|sent|..])
  {
    ServingGetsAll(s, steps, d, c);
    ChannelsAreExact(s, steps, d);
    SentIsRead(s, steps, c);
    hide Run, LegalRun, StayTogether, OnlyTheySend, Channel.All, Inv, AllBrought, ReadBy, Subsequence;
    Suffixes(s.handlers[d].channel.All(), AllBrought(s, steps, d));
    Suffixes(s.handlers[c].sent, ReadBy(steps, c));
  }

  lemma Suffixes(a: seq<Msg>, b: seq<Msg>)
    ensures a <= a + b && (a + b)[|a|..] == b
  {
  }

  /** The same for what the device sends; the replay of an offer is the only addition, and comes once at most. */
  lemma ClientGetsWhatDeviceSends(s: Server, steps: seq<Step>, d: nat, c: nat)
    requires Inv(s) && LegalRun(s, steps) && StayTogether(s, steps, d, c)
    requires c < |Run(s, steps).handlers| && !Run(s, steps).handlers[c].channel.overflowed
    ensures d < |Run(s, steps).handlers| && c < |Run(s, steps).handlers|
    ensures var s' := Run(s, steps);
            var all, all' := s.handlers[c].channel.All(), s'.handlers[c].channel.All();
            var sent, sent' := s.handlers[d].sent, s'.handlers[d].sent;
            && all <= all' && sent <= sent'
            && Subsequence(sent'[|sent|..], all'[|all|..])
            && (OnlyTheySend(s, steps, c, d) ==> OneMoreThan(sent'[|sent|..], all'[|all|..]))
            && (OnlyTheySend(s, steps, c, d) && s.handlers[c].pc == Serving ==> all'[|all|..] == sent'[|sent|..])
  {
    ClientGetsAll(s, steps, c, d);
    if s.handlers[c].pc == Serving {
      ServingGetsAll(s, steps, c, d);
    }
    ChannelsAreExact(s, steps, c);
    SentIsRead(s, steps, d);
    hide Run, LegalRun, StayTogether, OnlyTheySend, Channel.All, Inv, AllBrought, ReadBy, Subsequence, OneMoreThan;
    Suffixes(s.handlers[c].channel.All(), AllBrought(s, steps, c));
    Suffixes(s.handlers[d].sent, ReadBy(steps, d));
  }

  /** What one of the two sends goes to the other one's channel, and changes no other. */
  lemma NobodyElse(s: Server, d: nat, c: nat, h: nat, m: Msg, k: nat)
    requires Inv(s) && Enabled(s, Read(h, m)) && Together(s, d, c) && (h == d || h == c) && k < |s.handlers|
    ensures k < |Next(s, Read(h, m)).handlers|
    ensures var before, after := s.handlers[k].channel, Next(s, Read(h, m)).handlers[k].channel;
            if m.valid && k != h && (k == d || k == c) && |before.waiting| < CAPACITY then after.All() == before.All() + [m]
            else after.All() == before.All()
  {
    ChannelAfter(s, Read(h, m), k);
    BroughtIsSent(s, Read(h, m), k);
    hide Next, Inv, Sent;
    assert s.handlers[k].channel.All() + [] == s.handlers[k].channel.All();
  }
}
