/**
 Frames across the whole receiving side: frames come out in packet order, and the packets of one H.264 frame, whatever
 the order they arrive in, come out as the NAL units that were sent.
 */
module FrameDelivery {
  import opened Bytes
  import opened Codec
  import opened Segments
  import opened Contiguity
  import opened ReorderBuffer
  import opened BufferRuns
  import H264

  // ---------- Order of frames ----------

  function SeqNos(metas: seq<Meta>): seq<nat> {
    if metas == [] then [] else [metas[0].seqNo] + SeqNos(metas[1..])
  }

  lemma {:induction false} SeqNosAt(metas: seq<Meta>)
    ensures |SeqNos(metas)| == |metas|
    ensures forall k | 0 <= k < |metas| :: SeqNos(metas)[k] == metas[k].seqNo
  {
    if metas != [] {
      SeqNosAt(metas[1..]);
    }
  }

  /** The sequence numbers of the packets in the frames that come out, in that order. */
  function DeliveredSeqs(results: seq<PopResult>): seq<nat> {
    if results == [] then []
    else (if results[0].Popped? then SeqNos(results[0].frame.metas) else []) + DeliveredSeqs(results[1..])
  }

  /** A frame that comes out holds consecutive packets, all after lastEmitted and none after the new lastEmitted. */
  lemma PoppedFrameIsConsecutive<S>(codec: Codec<S>, s: S, c: Core)
    requires c.Valid() && PopFresh(codec, s, c).1.Popped?
    ensures var (c', r) := PopFresh(codec, s, c);
            var metas := r.frame.metas;
            && |metas| > 0
            && (forall k | 0 <= k < |metas| :: metas[k].seqNo == metas[0].seqNo + k)
            && c'.lastEmitted == Some(metas[|metas| - 1].seqNo)
            && (c.holdBack > 0 && c.lastEmitted.Some? ==> c.lastEmitted.value < metas[0].seqNo)
  {
    var (start, stop) := SegmentsOf(c.queue)[0];
    assert IsSegment(c.queue, start, stop);
    FrameMetas(codec, s, c.queue);
    forall k | start <= k <= stop ensures c.queue[k].Seq() == c.queue[start].Seq() + (k - start) {
      RunIsConsecutive(c.queue, start, stop, k);
    }
  }

  lemma DeliveredNext(r: PopResult, rest: seq<PopResult>)
    ensures DeliveredSeqs([r] + rest) == (if r.Popped? then SeqNos(r.frame.metas) else []) + DeliveredSeqs(rest)
  {
    assert ([r] + rest)[1..] == rest;
  }

  /** A frame that is not stale holds consecutive packets, after those given out before. */
  lemma StepPopped<S>(codec: Codec<S>, s: S, b: State<S>)
    requires LooksAfresh(codec, s, b) && b.core.Valid() && CacheInv(codec, s, b)
    requires Agrees(b) && PopSpec(codec, b).1.Popped?
    ensures var (b', r) := PopSpec(codec, b);
            var metas := r.frame.metas;
            && |metas| > 0
            && (forall k | 0 <= k < |metas| :: metas[k].seqNo == metas[0].seqNo + k)
            && b'.core.lastEmitted == Some(metas[|metas| - 1].seqNo)
            && (b.core.holdBack > 0 && b.core.lastEmitted.Some? ==> b.core.lastEmitted.value < metas[0].seqNo)
  {
    hide PopSpec, PopFresh, CacheInv, LooksAfresh, Agrees, Core.Valid;
    PopRefinesFresh(codec, s, b);
    PoppedFrameIsConsecutive(codec, s, b.core);
  }

  lemma InOrderNext(r: PopResult, rest: seq<PopResult>, before: Option<nat>, after: Option<nat>)
    requires Increasing(DeliveredSeqs(rest))
    requires after.Some? ==> forall x | x in DeliveredSeqs(rest) :: x > after.value
    requires before.Some? ==> after.Some? && after.value >= before.value
    requires r.Popped? ==>
               var metas := r.frame.metas;
               && |metas| > 0
               && (forall k | 0 <= k < |metas| :: metas[k].seqNo == metas[0].seqNo + k)
               && after == Some(metas[|metas| - 1].seqNo)
               && (before.Some? ==> before.value < metas[0].seqNo)
    ensures Increasing(DeliveredSeqs([r] + rest))
    ensures before.Some? ==> forall x | x in DeliveredSeqs([r] + rest) :: x > before.value
  {
    DeliveredNext(r, rest);
    var later := DeliveredSeqs(rest);
    hide DeliveredSeqs;
    if r.Popped? {
      SeqNosAt(r.frame.metas);
      assert forall j | 0 <= j < |later| :: later[j] in later && later[j] > after.value;
    }
  }

  /**
   Over every run in which no frame comes out stale, packets come out in strictly increasing order, across all frames:
   none twice, and none after a later one.
   */
  lemma {:induction false} PacketsComeOutInOrder<S(!new)>(codec: Codec<S>, s: S, b: State<S>, ops: seq<Op>, clean: bool)
    requires FrameLocal(codec) && b.core.Valid() && b.core.holdBack > 0 && CacheInv(codec, s, b) && CleanIff(b, clean)
    requires NeverStale(codec, b, ops, clean)
    ensures Increasing(DeliveredSeqs(Outputs(codec, b, ops)))
    ensures b.core.lastEmitted.Some? ==> forall x | x in DeliveredSeqs(Outputs(codec, b, ops)) :: x > b.core.lastEmitted.value
    decreases |ops|
  {
    hide FrameLocal, CacheInv, Core.Valid, PopSpec, PushSpec, Undisturbed, LooksAfresh, SegmentsOf, Increasing;
    if ops == [] {
      NothingIsInOrder();
    } else {
      var (b', r) := BufferRuns.Step(codec, b, ops[0]);
      var rest := Outputs(codec, b', ops[1..]);
      hide DeliveredSeqs;
      StepKeepsValid(codec, b, ops[0]);
      match ops[0]
      case DoPush(meta, data) =>
        PushKeepsCacheInv(codec, s, b, meta, data);
        PushKeepsClean(codec, s, b, meta, data, clean);
        PacketsComeOutInOrder(codec, s, b', ops[1..], clean && GoesBehind(codec, b, meta, data));
        InOrderNext(r, rest, b.core.lastEmitted, b'.core.lastEmitted);
      case DoPop =>
        AlwaysLooksAfresh(codec, s, b);
        PopKeepsCacheInv(codec, s, b);
        PopKeepsClean(codec, s, b, clean);
        PacketsComeOutInOrder(codec, s, b', ops[1..], clean || Refills(b));
        if r.Popped? {
          StepPopped(codec, s, b);
        }
        InOrderNext(r, rest, b.core.lastEmitted, b'.core.lastEmitted);
    }
  }

  lemma NothingIsInOrder()
    ensures DeliveredSeqs([]) == [] && Increasing([])
  {
  }

  // ---------- One H.264 frame, in any order ----------

  /** The entry that the k-th of a frame's packets becomes; the last one carries the marker. */
  function PacketEntry(packets: seq<Bytes>, base: nat, time: int, k: nat): Entry
    requires k < |packets|
  {
    var meta := Meta(base + k, time, k == |packets| - 1);
    Entry(meta, packets[k], H264.IsPartitionHead(packets[k]), meta.marker)
  }

  /** The frame's packets as they stand in the queue when all have arrived. */
  function FrameQueue(packets: seq<Bytes>, base: nat, time: int): seq<Entry> {
    seq(|packets|, k requires 0 <= k < |packets| => PacketEntry(packets, base, time, k))
  }

  /** The core after the packets with the given numbers have arrived in the given order. */
  function PushAll(c: Core, packets: seq<Bytes>, base: nat, time: int, order: seq<nat>): Core
    requires forall k | 0 <= k < |order| :: order[k] < |packets|
    decreases |order|
  {
    if order == [] then c
    else
      var e := PacketEntry(packets, base, time, order[0]);
      PushAll(PushSpec(H264.CODEC, c, e.meta, e.data), packets, base, time, order[1..])
  }

  lemma OneArrival(c: Core, packets: seq<Bytes>, base: nat, time: int, k: nat)
    requires k < |packets|
    requires c.Valid() && (c.lastEmitted.Some? ==> c.lastEmitted.value < base)
    requires forall x | x in c.queue :: x in FrameQueue(packets, base, time)
    ensures var e := PacketEntry(packets, base, time, k);
            var c' := PushSpec(H264.CODEC, c, e.meta, e.data);
            && c'.Valid()
            && c'.lastEmitted == c.lastEmitted && c'.holdBack == c.holdBack && c'.filter == c.filter
            && (forall x | x in c'.queue :: x in FrameQueue(packets, base, time))
            && (forall x | x in c.queue :: x in c'.queue)
            && e in c'.queue
  {
    hide Inserted;
    var e := PacketEntry(packets, base, time, k);
    PushKeepsValid(H264.CODEC, c, e.meta, e.data);
    assert FrameQueue(packets, base, time)[k] == e;
    if Contains(c.queue, e.Seq()) {
      var i :| 0 <= i < |c.queue| && c.queue[i].Seq() == e.Seq();
      assert c.queue[i] in FrameQueue(packets, base, time);
    } else {
      InsertKeepsSorted(c.queue, e);
    }
  }

  /** Arrivals put into the queue just the packets that arrived, each once, in order. */
  lemma {:induction false} ArrivalsAreSorted(c: Core, packets: seq<Bytes>, base: nat, time: int, order: seq<nat>)
    requires forall k | 0 <= k < |order| :: order[k] < |packets|
    requires c.Valid() && (c.lastEmitted.Some? ==> c.lastEmitted.value < base)
    requires forall x | x in c.queue :: x in FrameQueue(packets, base, time)
    ensures var c' := PushAll(c, packets, base, time, order);
            && c'.Valid()
            && c'.lastEmitted == c.lastEmitted && c'.holdBack == c.holdBack && c'.filter == c.filter
            && (forall x | x in c'.queue :: x in FrameQueue(packets, base, time))
            && (forall x | x in c.queue :: x in c'.queue)
            && (forall k | 0 <= k < |order| :: PacketEntry(packets, base, time, order[k]) in c'.queue)
    decreases |order|
  {
    hide PushSpec, Core.Valid, FrameQueue, PacketEntry;
    if order != [] {
      var e := PacketEntry(packets, base, time, order[0]);
      OneArrival(c, packets, base, time, order[0]);
      ArrivalsAreSorted(PushSpec(H264.CODEC, c, e.meta, e.data), packets, base, time, order[1..]);
      forall k | 0 <= k < |order|
        ensures PacketEntry(packets, base, time, order[k]) in PushAll(c, packets, base, time, order).queue
      {
        assert k > 0 ==> order[k] == order[1..][k - 1];
      }
    }
  }

  /** Two sorted queues with the same entries are the same. */
  lemma SortedQueuesAreEqual(a: seq<Entry>, b: seq<Entry>)
    requires Sorted(a) && Sorted(b)
    requires forall x | x in a :: x in b
    requires forall x | x in b :: x in a
    ensures a == b
  {
    if |a| > 0 {
      var p := PlaceInLarger(a, b, |a| - 1);
    }
    if |b| > 0 {
      var p := PlaceInLarger(b, a, |b| - 1);
    }
    forall k | 0 <= k < |a| && k < |b| ensures a[k] == b[k] {
      var p := PlaceInLarger(a, b, k);
      var r := PlaceInLarger(b, a, k);
    }
  }

  /** The whole queue is one complete frame. */
  lemma FrameQueueIsOneSegment(packets: seq<Bytes>, base: nat, time: int)
    requires |packets| > 0 && H264.IsPartitionHead(packets[0])
    ensures SegmentsOf(FrameQueue(packets, base, time)) == [(0, |packets| - 1)]
  {
    var q := FrameQueue(packets, base, time);
    var n := |packets|;
    forall i | 0 <= i < n - 1 ensures Linked(q, i) {
    }
    assert IsSegment(q, 0, n - 1);
    forall s: nat, e: nat | e < n && IsSegment(q, s, e) ensures (s, e) == (0, n - 1) {
      assert e < n - 1 ==> Linked(q, e);
      assert Run(q, 0, n - 1);
    }
    ScanIsUnique(q, SegmentsOf(q), [(0, n - 1)]);
  }

  lemma {:induction false} PayloadsAt(q: seq<Entry>, packets: seq<Bytes>)
    requires |q| == |packets| && forall k | 0 <= k < |q| :: q[k].data == packets[k]
    ensures Payloads(q) == packets
    decreases |q|
  {
    if q != [] {
      PayloadsAt(q[1..], packets[1..]);
      assert packets == [packets[0]] + packets[1..];
    }
  }

  /** Units of two bytes or more are sent so that the first packet can be told to be the first. */
  lemma {:induction false} FirstPacketIsHead(sets: H264.ParameterSets, units: seq<Bytes>, mtu: nat)
    requires H264.ValidUnits(units) && (forall k | 0 <= k < |units| :: |units[k]| > 1)
    requires mtu >= 3 && H264.EmitUnits(sets, units, mtu).1 != []
    ensures H264.IsPartitionHead(H264.EmitUnits(sets, units, mtu).1[0])
    decreases |units|
  {
    var u := units[0];
    var (sets1, first) := H264.EmitUnit(sets, u, mtu);
    if first == [] {
      FirstPacketIsHead(sets1, units[1..], mtu);
    } else {
      assert H264.ValidUnit(u);
      CarryStartsWithHead(u, mtu);
    }
  }

  lemma CarryStartsWithHead(u: Bytes, mtu: nat)
    requires H264.ValidUnit(u) && |u| > 1 && mtu >= 3
    ensures H264.Carry(u, mtu) != [] && H264.IsPartitionHead(H264.Carry(u, mtu)[0])
  {
    if |u| > mtu {
      H264.FragmentHeader(u, 1, mtu - 2);
    }
  }

  /**
   End to end: a frame's NAL units are packetized, the packets arrive in any order, with repeats, and once all have
   arrived one pop gives the frame with just the delivered units, and leaves the buffer ready for the next frame.
   */
  lemma FrameSurvivesReordering(
    c: Core, isAvc: bool, sets: H264.ParameterSets, units: seq<Bytes>, zeros: seq<nat>, mtu: nat,
    base: nat, time: int, order: seq<nat>)
    requires c.Valid() && c.queue == [] && c.filter.Unlayered?
    requires c.lastEmitted.Some? ==> c.lastEmitted.value + 1 == base
    requires sets.Valid() && H264.ValidUnits(units) && (forall k | 0 <= k < |units| :: |units[k]| > 1)
    requires |units| == |zeros| && H264.StartCodes(zeros) && 3 <= mtu < 0x1_0000
    requires forall k | 0 <= k < |order| :: order[k] < |H264.PacketizeSpec(sets, H264.AnnexB(units, zeros), mtu).1|
    requires forall k | 0 <= k < |H264.PacketizeSpec(sets, H264.AnnexB(units, zeros), mtu).1| :: k in order
    requires order != []
    ensures var packets := H264.PacketizeSpec(sets, H264.AnnexB(units, zeros), mtu).1;
            var delivered := H264.Delivered(sets, units, mtu);
            var depack := H264.DepacketizerState(isAvc, None);
            var (b, r) := PopSpec(H264.CODEC, State(PushAll(c, packets, base, time, order), depack, None));
            && r == Popped(Depacketized(time, true, Metas(FrameQueue(packets, base, time)),
                                        H264.FramedAll(isAvc, delivered), H264.MarkAll(NoExtra, delivered)))
            && b.core.queue == [] && b.core.lastEmitted == Some(base + |packets| - 1)
            && b.depack == depack && b.cache == None
  {
    hide PopSpec, H264.PacketizeSpec, PushAll, FrameQueue, H264.Delivered, H264.AnnexB, H264.ValidUnits, H264.FramedAll,
      H264.MarkAll, H264.Conveys, Metas;
    var packets := H264.PacketizeSpec(sets, H264.AnnexB(units, zeros), mtu).1;
    assert order[0] < |packets|;
    PacketsOfStream(sets, units, zeros, mtu);
    FirstPacketIsHead(sets, units, mtu);
    var c' := PushAll(c, packets, base, time, order);
    AllArrived(c, packets, base, time, order);
    H264.RoundTrip(sets, isAvc, units, zeros, mtu);
    ConveyedFrame(H264.DepacketizerState(isAvc, None), packets, H264.Delivered(sets, units, mtu));
    WholeFramePops(c', H264.DepacketizerState(isAvc, None), packets, base, time);
  }

  lemma PacketsOfStream(sets: H264.ParameterSets, units: seq<Bytes>, zeros: seq<nat>, mtu: nat)
    requires H264.ValidUnits(units) && |units| == |zeros| && H264.StartCodes(zeros) && mtu > 0
    ensures H264.PacketizeSpec(sets, H264.AnnexB(units, zeros), mtu) == H264.EmitUnits(sets, units, mtu)
  {
    if units != [] {
      H264.UnitsOfAnnexB(units, zeros);
    }
  }

  lemma ConveyedFrame(s: H264.DepacketizerState, packets: seq<Bytes>, units: seq<Bytes>)
    requires H264.Conveys(s, packets, units)
    ensures H264.CODEC.DepacketizeAll(s, packets, [], NoExtra) ==
            Depacked(s, H264.FramedAll(s.isAvc, units), H264.MarkAll(NoExtra, units), None)
  {
    assert [] + H264.FramedAll(s.isAvc, units) == H264.FramedAll(s.isAvc, units);
  }

  /** When all packets of the frame have arrived, the queue is the frame. */
  lemma AllArrived(c: Core, packets: seq<Bytes>, base: nat, time: int, order: seq<nat>)
    requires c.Valid() && c.queue == [] && (c.lastEmitted.Some? ==> c.lastEmitted.value < base)
    requires forall k | 0 <= k < |order| :: order[k] < |packets|
    requires forall k | 0 <= k < |packets| :: k in order
    ensures var c' := PushAll(c, packets, base, time, order);
            && c'.Valid() && c'.queue == FrameQueue(packets, base, time)
            && c'.lastEmitted == c.lastEmitted && c'.holdBack == c.holdBack && c'.filter == c.filter
  {
    var c' := PushAll(c, packets, base, time, order);
    var q := FrameQueue(packets, base, time);
    ArrivalsAreSorted(c, packets, base, time, order);
    forall x | x in q ensures x in c'.queue {
      var k :| 0 <= k < |q| && q[k] == x;
      assert k in order;
      var j :| 0 <= j < |order| && order[j] == k;
      assert PacketEntry(packets, base, time, order[j]) == x;
    }
    SortedQueuesAreEqual(c'.queue, q);
  }

  lemma WholeFramePops(c: Core, s: H264.DepacketizerState, packets: seq<Bytes>, base: nat, time: int)
    requires c.Valid() && c.filter.Unlayered? && (c.lastEmitted.Some? ==> c.lastEmitted.value + 1 == base)
    requires |packets| > 0 && H264.IsPartitionHead(packets[0])
    requires c.queue == FrameQueue(packets, base, time)
    requires H264.CODEC.DepacketizeAll(s, packets, [], NoExtra).error == None
    ensures var d := H264.CODEC.DepacketizeAll(s, packets, [], NoExtra);
            var (b, r) := PopSpec(H264.CODEC, State(c, s, None));
            && r == Popped(Depacketized(time, true, Metas(FrameQueue(packets, base, time)), d.out, d.extra))
            && b.core.queue == [] && b.core.lastEmitted == Some(base + |packets| - 1)
            && b.depack == d.state && b.cache == None
  {
    var q := FrameQueue(packets, base, time);
    hide SegmentsOf, H264.CODEC, Metas, FrameQueue, FirstFrame, PopCore, FollowsLast, Core.Valid, H264.IsPartitionHead;
    FrameQueueIsOneSegment(packets, base, time);
    FrameQueueFollows(packets, base, time, c.lastEmitted);
    WholeFrameIsMade(c, s, packets, base, time);
    var d := H264.CODEC.DepacketizeAll(s, packets, [], NoExtra);
    MadeFrameComesOut(c, |packets|, Depacketized(time, true, Metas(q), d.out, d.extra));
    NotWaiting(c, |packets|);
  }

  lemma FrameQueueFollows(packets: seq<Bytes>, base: nat, time: int, lastEmitted: Option<nat>)
    requires |packets| > 0 && (lastEmitted.Some? ==> lastEmitted.value + 1 == base)
    ensures var q := FrameQueue(packets, base, time);
            && |q| == |packets| && q[|packets|..] == [] && q[|packets| - 1].Seq() == base + |packets| - 1
            && FollowsLast(q, lastEmitted, 0)
  {
  }

  lemma NotWaiting(c: Core, n: nat)
    requires 0 < n <= |c.queue| && SegmentsOf(c.queue) != [] && SegmentsOf(c.queue)[0] == (0, n - 1)
    requires FollowsLast(c.queue, c.lastEmitted, 0)
    ensures !Waits(c)
  {
  }

  lemma WholeFrameIsMade(c: Core, s: H264.DepacketizerState, packets: seq<Bytes>, base: nat, time: int)
    requires |packets| > 0 && c.queue == FrameQueue(packets, base, time)
    requires SegmentsOf(c.queue) == [(0, |packets| - 1)]
    requires H264.CODEC.DepacketizeAll(s, packets, [], NoExtra).error == None
    ensures var d := H264.CODEC.DepacketizeAll(s, packets, [], NoExtra);
            FirstFrame(H264.CODEC, State(c, s, None)) ==
            (d.state, Made(Depacketized(time, true, Metas(c.queue), d.out, d.extra)))
  {
    hide SegmentsOf, H264.CODEC, Metas;
    PayloadsAt(c.queue, packets);
    assert c.queue[0..|packets|] == c.queue;
  }
}
