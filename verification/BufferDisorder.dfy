/**
 Runs in which the cache is hit by another frame than it was filled with: packets come out in the wrong order, or a frame
 comes out twice, and the one before it never.
 */
module BufferDisorder {
  import opened Bytes
  import opened Codec
  import opened Segments
  import Contiguity
  import opened ReorderBuffer
  import opened BufferRuns
  import opened FrameDelivery
  import Streams = StreamDelivery

  lemma OutputsNext<S>(codec: Codec<S>, b: State<S>, op: Op, rest: seq<Op>)
    ensures var (b', r) := Step(codec, b, op);
            Outputs(codec, b, [op] + rest) == [r] + Outputs(codec, b', rest)
  {
    assert ([op] + rest)[1..] == rest;
  }

  /** Packets that are frames of their own. */
  function Packets(ns: seq<nat>): (q: seq<Entry>)
    ensures |q| == |ns| && forall k | 0 <= k < |q| :: q[k] == WholePacket(ns[k], 1)
  {
    seq(|ns|, k requires 0 <= k < |ns| => WholePacket(ns[k], 1))
  }

  /** A buffer that holds back 3 frames. */
  function Holding(ns: seq<nat>, last: Option<nat>, maxTime: Option<int>, cache: Option<Cached>): State<bool> {
    State(Core(3, Packets(ns), last, maxTime, Contiguity.Unlayered), true, cache)
  }

  const NEW_BUFFER := Holding([], None, None, None)

  function FrameOf(n: nat, contiguous: bool): Depacketized {
    Depacketized(n, contiguous, [Meta(n, n, true)], [1], NoExtra)
  }

  lemma FirstOf(ns: seq<nat>)
    requires ns != []
    ensures SegmentsOf(Packets(ns)) != [] && |SegmentsOf(Packets(ns))| == |ns| && SegmentsOf(Packets(ns))[0] == (0, 0)
    ensures DepacketizeEntries(WHOLE_PACKETS, true, Packets(ns)[0..1]) == (true, Made(FrameOf(ns[0], true)))
    ensures Packets(ns)[1..] == Packets(ns[1..])
  {
    var q := Packets(ns);
    SinglePacketFrames(q);
    assert q[0..1] == [q[0]];
    assert Payloads([q[0]]) == [[1]];
    assert Metas([q[0]]) == [Meta(ns[0], ns[0], true)];
    assert WHOLE_PACKETS.DepacketizeAll(true, [[1]], [], NoExtra).out == [1];
  }

  /** The first packet follows the last one that came out. */
  predicate Follows(ns: seq<nat>, last: Option<nat>)
    requires ns != []
  {
    last.Some? ==> ns[0] == last.value + 1
  }

  /** A pop that does not have to wait gives out what is cached for the first place or, without a cache, what is there. */
  lemma PopsFirst(ns: seq<nat>, last: Option<nat>, maxTime: Option<int>, cached: Option<nat>)
    requires ns != [] && (Follows(ns, last) || |ns| >= 3)
    ensures var cache := if cached.Some? then Some(Cached(0, 0, FrameOf(cached.value, true))) else None;
            PopSpec(WHOLE_PACKETS, Holding(ns, last, maxTime, cache)) ==
            (Holding(ns[1..], Some(ns[0]), maxTime, None),
             Popped(FrameOf(if cached.Some? then cached.value else ns[0], Follows(ns, last))))
  {
    FirstOf(ns);
    hide DepacketizeEntries, Packets, SegmentsOf;
  }

  /** A pop that waits caches the frame. */
  lemma PopWaits(n: nat, last: nat, maxTime: Option<int>)
    requires n > last + 1
    ensures PopSpec(WHOLE_PACKETS, Holding([n], Some(last), maxTime, None)) ==
            (Holding([n], Some(last), maxTime, Some(Cached(0, 0, FrameOf(n, true)))), Nothing)
  {
    FirstOf([n]);
    hide DepacketizeEntries, SegmentsOf;
  }

  function PushOf(n: nat): Op {
    DoPush(Meta(n, n, true), [1])
  }

  /** Where a new packet goes; before and after are the packets in front of it and behind it. */
  lemma Pushes(before: seq<nat>, n: nat, after: seq<nat>, last: Option<nat>, maxTime: Option<int>, cache: Option<Cached>)
    requires forall k | 0 <= k < |before| :: before[k] < n
    requires after != [] ==> n < after[0]
    requires n !in before && n !in after && (last.Some? ==> last.value < n)
    ensures var newest := if maxTime.Some? && maxTime.value > n then maxTime else Some(n);
            Step(WHOLE_PACKETS, Holding(before + after, last, maxTime, cache), PushOf(n)) ==
            (Holding(before + [n] + after, last, newest, cache), Nothing)
  {
    var q := Packets(before + after);
    assert forall k | 0 <= k < |q| :: q[k].Seq() == (before + after)[k];
    assert !Contains(q, n) by {
      assert forall k | 0 <= k < |before + after| :: (before + after)[k] in before + after;
    }
    InsertedBetween(before, n, after);
    hide Inserted, Packets, Contains;
  }

  lemma InsertedBetween(before: seq<nat>, n: nat, after: seq<nat>)
    requires forall k | 0 <= k < |before| :: before[k] < n
    requires after != [] ==> n < after[0]
    ensures Inserted(Packets(before + after), WholePacket(n, 1)) == Packets(before + [n] + after)
  {
    var q := Packets(before + after);
    PositionBetween(q, |before|, n);
    hide Position;
  }

  lemma {:induction false} PositionBetween(q: seq<Entry>, p: nat, n: nat)
    requires p <= |q| && forall k | 0 <= k < p :: q[k].Seq() < n
    requires p < |q| ==> n < q[p].Seq()
    ensures Position(q, n) == p
  {
    if p > 0 {
      PositionBetween(q[1..], p - 1, n);
    }
  }

  /** What the rest of a run gives out. */
  ghost function Rest(b: State<bool>, ops: seq<Op>): seq<nat> {
    DeliveredSeqs(Outputs(WHOLE_PACKETS, b, ops))
  }

  lemma RestNext(b: State<bool>, op: Op, rest: seq<Op>, b': State<bool>, r: PopResult)
    requires Step(WHOLE_PACKETS, b, op) == (b', r)
    ensures Rest(b, [op] + rest) == (if r.Popped? then SeqNos(r.frame.metas) else []) + Rest(b', rest)
  {
    OutputsNext(WHOLE_PACKETS, b, op, rest);
    DeliveredNext(r, Outputs(WHOLE_PACKETS, b', rest));
  }

  lemma RestPush(before: seq<nat>, n: nat, after: seq<nat>, last: Option<nat>, maxTime: Option<int>, cache: Option<Cached>,
                 rest: seq<Op>)
    requires forall k | 0 <= k < |before| :: before[k] < n
    requires after != [] ==> n < after[0]
    requires n !in before && n !in after && (last.Some? ==> last.value < n)
    ensures var newest := if maxTime.Some? && maxTime.value > n then maxTime else Some(n);
            Rest(Holding(before + after, last, maxTime, cache), [PushOf(n)] + rest) ==
            Rest(Holding(before + [n] + after, last, newest, cache), rest)
  {
    var newest := if maxTime.Some? && maxTime.value > n then maxTime else Some(n);
    Pushes(before, n, after, last, maxTime, cache);
    hide Step;
    RestNext(Holding(before + after, last, maxTime, cache), PushOf(n), rest,
             Holding(before + [n] + after, last, newest, cache), Nothing);
  }

  lemma RestPop(ns: seq<nat>, last: Option<nat>, maxTime: Option<int>, cached: Option<nat>, rest: seq<Op>)
    requires ns != [] && (Follows(ns, last) || |ns| >= 3)
    ensures var cache := if cached.Some? then Some(Cached(0, 0, FrameOf(cached.value, true))) else None;
            Rest(Holding(ns, last, maxTime, cache), [DoPop] + rest) ==
            [if cached.Some? then cached.value else ns[0]] + Rest(Holding(ns[1..], Some(ns[0]), maxTime, None), rest)
  {
    PopsFirst(ns, last, maxTime, cached);
    OneSeqNo(if cached.Some? then cached.value else ns[0]);
    hide PopSpec, Holding, SeqNos, Rest;
    var cache := if cached.Some? then Some(Cached(0, 0, FrameOf(cached.value, true))) else None;
    var frame := FrameOf(if cached.Some? then cached.value else ns[0], Follows(ns, last));
    RestNext(Holding(ns, last, maxTime, cache), DoPop, rest, Holding(ns[1..], Some(ns[0]), maxTime, None), Popped(frame));
  }

  lemma OneSeqNo(n: nat)
    ensures SeqNos([Meta(n, n, true)]) == [n]
  {
    assert [Meta(n, n, true)][1..] == [];
  }

  /** Packet 1 comes out; packet 10 is cached after a gap; packets 5 and 7 arrive before it, and packet 12 after. */
  const DISORDERED := [PushOf(1), DoPop, PushOf(10), DoPop, PushOf(5), PushOf(7), DoPop, PushOf(12), DoPop]

  /** The run from its third push on. */
  lemma AfterGap()
    ensures var cache := Some(Cached(0, 0, FrameOf(10, true)));
            Rest(Holding([10], Some(1), Some(10), cache), [PushOf(5), PushOf(7), DoPop, PushOf(12), DoPop]) == [10, 7]
  {
    hide Rest, Holding;
    var cache := Some(Cached(0, 0, FrameOf(10, true)));
    var r1, r2, r3, r4 := [PushOf(7), DoPop, PushOf(12), DoPop], [DoPop, PushOf(12), DoPop], [PushOf(12), DoPop], [DoPop];
    assert [PushOf(5), PushOf(7), DoPop, PushOf(12), DoPop] == [PushOf(5)] + r1;
    assert r1 == [PushOf(7)] + r2 && r2 == [DoPop] + r3 && r3 == [PushOf(12)] + r4 && r4 == [DoPop] + [];
    RestPush([], 5, [10], Some(1), Some(10), cache, r1);
    assert [] + [10] == [10] && [] + [5] + [10] == [5] + [10];
    RestPush([5], 7, [10], Some(1), Some(10), cache, r2);
    assert [5] + [7] + [10] == [5, 7, 10];
    RestPop([5, 7, 10], Some(1), Some(10), Some(10), r3);
    assert [5, 7, 10][1..] == [7, 10] && [7, 10] + [] == [7, 10];
    RestPush([7, 10], 12, [], Some(5), Some(10), None, r4);
    assert [7, 10] + [12] + [] == [7, 10, 12];
    RestPop([7, 10, 12], Some(5), Some(12), None, []);
    NothingLeft(Holding([7, 10, 12][1..], Some(7), Some(12), None));
    assert [10] + ([7] + []) == [10, 7];
  }

  lemma NothingLeft(b: State<bool>)
    ensures Rest(b, []) == []
  {
  }

  lemma RestWait(n: nat, last: nat, maxTime: Option<int>, rest: seq<Op>)
    requires n > last + 1
    ensures Rest(Holding([n], Some(last), maxTime, None), [DoPop] + rest) ==
            Rest(Holding([n], Some(last), maxTime, Some(Cached(0, 0, FrameOf(n, true)))), rest)
  {
    PopWaits(n, last, maxTime);
    hide PopSpec, Holding;
    RestNext(Holding([n], Some(last), maxTime, None), DoPop, rest,
             Holding([n], Some(last), maxTime, Some(Cached(0, 0, FrameOf(n, true)))), Nothing);
  }

  lemma WholePacketsAreLocal()
    ensures FrameLocal(WHOLE_PACKETS) && NEW_BUFFER.core.Valid()
  {
    assert Stateless(WHOLE_PACKETS);
    StatelessIsFrameLocal(WHOLE_PACKETS);
    hide FrameLocal;
  }

  /** The run up to the gap. */
  lemma BeforeGap(rest: seq<Op>)
    ensures Rest(NEW_BUFFER, [PushOf(1)] + ([DoPop] + ([PushOf(10)] + ([DoPop] + rest)))) ==
            [1] + Rest(Holding([10], Some(1), Some(10), Some(Cached(0, 0, FrameOf(10, true)))), rest)
  {
    hide Rest, Holding;
    var none: seq<nat> := [];
    assert none + none == none && none + [1] + none == [1] && [1][1..] == none && none + [10] + none == [10];
    RestPush(none, 1, none, None, None, None, [DoPop] + ([PushOf(10)] + ([DoPop] + rest)));
    RestPop([1], None, Some(1), None, [PushOf(10)] + ([DoPop] + rest));
    RestPush(none, 10, none, Some(1), Some(1), None, [DoPop] + rest);
    RestWait(10, 1, Some(10), rest);
  }

  /** From a new buffer, with a codec without state: packet 10 comes out before packet 7, and instead of packet 5. */
  lemma OutOfOrder()
    ensures FrameLocal(WHOLE_PACKETS) && NEW_BUFFER.core.Valid() && NEW_BUFFER.cache == None
    ensures DeliveredSeqs(Outputs(WHOLE_PACKETS, NEW_BUFFER, DISORDERED)) == [1, 10, 7]
    ensures !Increasing(DeliveredSeqs(Outputs(WHOLE_PACKETS, NEW_BUFFER, DISORDERED)))
  {
    WholePacketsAreLocal();
    hide FrameLocal, Outputs, DeliveredSeqs;
    var rest := [PushOf(5), PushOf(7), DoPop, PushOf(12), DoPop];
    assert DISORDERED == [PushOf(1)] + ([DoPop] + ([PushOf(10)] + ([DoPop] + rest)));
    BeforeGap(rest);
    AfterGap();
    assert [1] + [10, 7] == [1, 10, 7];
    var delivered := Rest(NEW_BUFFER, DISORDERED);
    assert delivered == [1, 10, 7];
    assert delivered[1] > delivered[2];
  }

  // ---------- A late packet ----------

  /** Packet 0 came out before; packet 2 is looked at too early, and packet 1 comes late. */
  const LATE := [PushOf(2), DoPop, PushOf(1), DoPop, DoPop]

  const AFTER_ZERO := Holding([], Some(0), None, None)

  lemma LateComes(rest: seq<Op>)
    ensures Rest(AFTER_ZERO, [PushOf(2)] + ([DoPop] + ([PushOf(1)] + rest))) ==
            Rest(Holding([1, 2], Some(0), Some(2), Some(Cached(0, 0, FrameOf(2, true)))), rest)
  {
    hide Rest, Holding;
    var none: seq<nat> := [];
    assert none + none == none && none + [2] + none == [2] && none + [2] == [2] && none + [1] + [2] == [1, 2];
    RestPush(none, 2, none, Some(0), None, None, [DoPop] + ([PushOf(1)] + rest));
    RestWait(2, 0, Some(2), [PushOf(1)] + rest);
    RestPush(none, 1, [2], Some(0), Some(2), Some(Cached(0, 0, FrameOf(2, true))), rest);
  }

  lemma LateGives()
    ensures DeliveredSeqs(Outputs(WHOLE_PACKETS, AFTER_ZERO, LATE)) == [2, 2]
  {
    hide Outputs, DeliveredSeqs, Holding;
    var pops := [DoPop] + ([DoPop] + []);
    assert LATE == [PushOf(2)] + ([DoPop] + ([PushOf(1)] + pops));
    LateComes(pops);
    assert [1, 2][1..] == [2] && [2][1..] == [];
    RestPop([1, 2], Some(0), Some(2), Some(2), [DoPop] + []);
    RestPop([2], Some(1), Some(2), None, []);
    NothingLeft(Holding([2][1..], Some(2), Some(2), None));
    assert [2] + ([2] + []) == [2, 2];
  }

  lemma TwoPacketsAreStream()
    ensures Streams.IsStream(Packets([1, 2]), 1) && Streams.Recognizes(WHOLE_PACKETS, Packets([1, 2]))
    ensures Streams.Settles(WHOLE_PACKETS, true, Packets([1, 2]))
    ensures |Streams.Frames(WHOLE_PACKETS, true, Packets([1, 2]))| == 2
  {
    var t := Packets([1, 2]);
    forall packets ensures WHOLE_PACKETS.DepacketizeAll(true, packets, [], NoExtra).error == None
                           && WHOLE_PACKETS.DepacketizeAll(true, packets, [], NoExtra).state {
      WholePacketsSettle(packets, []);
    }
    Streams.FramesAreCounted(WHOLE_PACKETS, true, t, 1);
    assert t[..2] == t && Streams.Tails(t[..0]) == 0;
    assert t[..2][..1] == t[..1] && t[..1][..0] == t[..0];
    assert Streams.Tails(t[..1]) == 1 && Streams.Tails(t[..2]) == 2;
  }

  lemma {:induction false} WholePacketsSettle(packets: seq<Bytes>, out: Bytes)
    ensures var d := WHOLE_PACKETS.DepacketizeAll(true, packets, out, NoExtra); d.error == None && d.state
    decreases |packets|
  {
    if packets != [] {
      WholePacketsSettle(packets[1..], out + packets[0]);
    }
  }

  /** No frame is skipped, yet frame 2 comes out twice and frame 1 never: the pop that takes frame 1 gives the cached one. */
  lemma GivenTwice()
    ensures Streams.Receives(WHOLE_PACKETS, true, AFTER_ZERO, Packets([1, 2]), 1)
    ensures Streams.AllExpected(LATE, Packets([1, 2]), Some(0))
    ensures Streams.NeverSkips(WHOLE_PACKETS, AFTER_ZERO, Packets([1, 2]), LATE)
    ensures !NeverStale(WHOLE_PACKETS, AFTER_ZERO, LATE, true)
    ensures DeliveredSeqs(Outputs(WHOLE_PACKETS, AFTER_ZERO, LATE)) == [2, 2]
  {
    hide FrameLocal, Streams.IsStream, Streams.Settles, Streams.Recognizes, Outputs, DeliveredSeqs, NeverStale;
    hide Streams.NeverSkips, Streams.Frames, Streams.AllExpected;
    TwoPacketsAreStream();
    WholePacketsAreLocal();
    LateGives();
    LateIsExpected();
    Streams.FewFramesNeverSkip(WHOLE_PACKETS, true, AFTER_ZERO, Packets([1, 2]), 1, LATE);
    assert !Increasing([2, 2]) by {
      assert [2, 2][0] == [2, 2][1];
    }
    if NeverStale(WHOLE_PACKETS, AFTER_ZERO, LATE, true) {
      PacketsComeOutInOrder(WHOLE_PACKETS, true, AFTER_ZERO, LATE, true);
    }
  }

  lemma LateIsExpected()
    ensures Streams.AllExpected(LATE, Packets([1, 2]), Some(0))
  {
    var t := Packets([1, 2]);
    forall k | 0 <= k < |LATE| && LATE[k].DoPush? ensures Streams.Expected(Some(0), t, LATE[k].meta, LATE[k].data) {
      assert t[0] == WholePacket(1, 1) && t[1] == WholePacket(2, 1);
    }
  }
}
