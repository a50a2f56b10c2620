/**
 A stream of H.264 frames from the packetizer through the reordering buffer and the depacketizer: what is sent comes
 out frame by frame, whatever the order in which the packets arrive.
 */
module H264Streams {
  import opened Bytes
  import opened Codec
  import opened Segments
  import opened Contiguity
  import opened ReorderBuffer
  import opened BufferRuns
  import opened StreamDelivery
  import H264
  import FrameDelivery

  /** A frame to be sent: its units, the zeros in front of their start codes, and its timestamp. */
  datatype SentFrame = SentFrame(units: seq<Bytes>, zeros: seq<nat>, time: int) {
    predicate Valid() {
      H264.ValidUnits(units) && |units| == |zeros| && H264.StartCodes(zeros)
    }

    function Payload(): Bytes
      requires Valid()
    {
      H264.AnnexB(units, zeros)
    }
  }

  predicate AllValid(frames: seq<SentFrame>) {
    forall k | 0 <= k < |frames| :: frames[k].Valid()
  }

  /** The packets of all frames, numbered from base on, the last one of each frame with the marker. */
  function SendAll(sets: H264.ParameterSets, frames: seq<SentFrame>, mtu: nat, base: nat): seq<Entry>
    requires AllValid(frames)
    decreases |frames|
  {
    if |frames| == 0 then []
    else
      var (sets', packets) := H264.PacketizeSpec(sets, frames[0].Payload(), mtu);
      FrameDelivery.FrameQueue(packets, base, frames[0].time) + SendAll(sets', frames[1..], mtu, base + |packets|)
  }

  /** The frame that is to come out for one that is sent in these packets. */
  function Arrival(isAvc: bool, sets: H264.ParameterSets, f: SentFrame, mtu: nat, base: nat, packets: seq<Bytes>): PopResult
    requires sets.Valid() && f.Valid()
  {
    var delivered := H264.Delivered(sets, f.units, mtu);
    Popped(Depacketized(f.time, true, Metas(FrameDelivery.FrameQueue(packets, base, f.time)),
                        H264.FramedAll(isAvc, delivered), H264.MarkAll(NoExtra, delivered)))
  }

  /** What is to come out: a frame for each that is sent in any packets at all. */
  function Arrivals(isAvc: bool, sets: H264.ParameterSets, frames: seq<SentFrame>, mtu: nat, base: nat): seq<PopResult>
    requires sets.Valid() && AllValid(frames) && 3 <= mtu < 0x1_0000
    decreases |frames|
  {
    if |frames| == 0 then []
    else
      var (sets', packets) := H264.PacketizeSpec(sets, frames[0].Payload(), mtu);
      SetsStayValid(sets, frames[0], mtu);
      (if packets == [] then [] else [Arrival(isAvc, sets, frames[0], mtu, base, packets)])
      + Arrivals(isAvc, sets', frames[1..], mtu, base + |packets|)
  }

  lemma SetsStayValid(sets: H264.ParameterSets, f: SentFrame, mtu: nat)
    requires sets.Valid() && f.Valid() && 3 <= mtu < 0x1_0000
    ensures H264.PacketizeSpec(sets, f.Payload(), mtu).0.Valid()
    ensures H264.PacketizeSpec(sets, f.Payload(), mtu) == H264.EmitUnits(sets, f.units, mtu)
  {
    FrameDelivery.PacketsOfStream(sets, f.units, f.zeros, mtu);
    UnitsKeepSets(sets, f.units, mtu);
  }

  lemma {:induction false} UnitsKeepSets(sets: H264.ParameterSets, units: seq<Bytes>, mtu: nat)
    requires sets.Valid() && H264.ValidUnits(units) && 3 <= mtu < 0x1_0000
    ensures H264.EmitUnits(sets, units, mtu).0.Valid()
    decreases |units|
  {
    if units != [] {
      H264.UnitConveys(sets, H264.DepacketizerState(true, None), units[0], mtu);
      UnitsKeepSets(H264.SetsAfter(sets, units[0]), units[1..], mtu);
    }
  }

  /** The first packet of each frame can be told to be the first. */
  predicate StartWithHeads(sets: H264.ParameterSets, frames: seq<SentFrame>, mtu: nat)
    requires AllValid(frames)
    decreases |frames|
  {
    |frames| == 0 ||
    var (sets', packets) := H264.PacketizeSpec(sets, frames[0].Payload(), mtu);
    && (packets != [] ==> H264.IsPartitionHead(packets[0]))
    && StartWithHeads(sets', frames[1..], mtu)
  }

  /** For that it is enough that no unit is a single byte. */
  lemma {:induction false} LongUnitsStartWithHeads(sets: H264.ParameterSets, frames: seq<SentFrame>, mtu: nat)
    requires sets.Valid() && AllValid(frames) && 3 <= mtu < 0x1_0000
    requires forall k | 0 <= k < |frames| :: forall j | 0 <= j < |frames[k].units| :: |frames[k].units[j]| > 1
    ensures StartWithHeads(sets, frames, mtu)
    decreases |frames|
  {
    hide H264.PacketizeSpec, SentFrame.Valid;
    if |frames| > 0 {
      var f := frames[0];
      SetsStayValid(sets, f, mtu);
      if H264.PacketizeSpec(sets, f.Payload(), mtu).1 != [] {
        HeadOfUnits(sets, f, mtu);
      }
      LongUnitsStartWithHeads(H264.PacketizeSpec(sets, f.Payload(), mtu).0, frames[1..], mtu);
    }
  }

  lemma HeadOfUnits(sets: H264.ParameterSets, f: SentFrame, mtu: nat)
    requires f.Valid() && mtu >= 3 && (forall j | 0 <= j < |f.units| :: |f.units[j]| > 1)
    requires H264.EmitUnits(sets, f.units, mtu).1 != []
    ensures H264.IsPartitionHead(H264.EmitUnits(sets, f.units, mtu).1[0])
  {
    FrameDelivery.FirstPacketIsHead(sets, f.units, mtu);
  }

  // ---------- From any head on ----------

  /** Depacketizing the packets gives whole units, and leaves nothing behind. */
  ghost predicate Whole(s: H264.DepacketizerState, packets: seq<Bytes>) {
    exists units :: H264.Conveys(s, packets, units)
  }

  lemma {:induction false} OnlyFirstFragmentIsHead(nalu: Bytes, max: nat, i: nat, k: nat)
    requires 1 <= i <= |nalu| && 0 < max < |nalu| - 1 && k < |H264.Fragments(nalu, max, i)|
    ensures H264.IsPartitionHead(H264.Fragments(nalu, max, i)[k]) ==> i == 1 && k == 0
    decreases |nalu| - i
  {
    var size := if max < |nalu| - i then max else |nalu| - i;
    if k == 0 {
      H264.FragmentHeader(nalu, i, size);
    } else {
      OnlyFirstFragmentIsHead(nalu, max, i + size, k - 1);
    }
  }

  lemma CarryFromHead(s: H264.DepacketizerState, u: Bytes, mtu: nat, k: nat)
    requires H264.ValidUnit(u) && mtu >= 3 && s.fuaBuffer == None
    requires k < |H264.Carry(u, mtu)| && H264.IsPartitionHead(H264.Carry(u, mtu)[k])
    ensures Whole(s, H264.Carry(u, mtu)[k..])
  {
    if |u| > mtu {
      OnlyFirstFragmentIsHead(u, mtu - 2, 1, k);
    }
    H264.CarryConveys(s, u, mtu);
    assert H264.Carry(u, mtu)[0..] == H264.Carry(u, mtu);
  }

  lemma UnitFromHead(sets: H264.ParameterSets, s: H264.DepacketizerState, u: Bytes, mtu: nat, k: nat)
    requires H264.ValidUnit(u) && sets.Valid() && 3 <= mtu < 0x1_0000 && s.fuaBuffer == None
    requires k < |H264.EmitUnit(sets, u, mtu).1| && H264.IsPartitionHead(H264.EmitUnit(sets, u, mtu).1[k])
    ensures Whole(s, H264.EmitUnit(sets, u, mtu).1[k..])
  {
    var packets, own := H264.EmitUnit(sets, u, mtu).1, H264.Carry(u, mtu);
    if k == 0 {
      H264.UnitConveys(sets, s, u, mtu);
      assert packets[0..] == packets;
    } else {
      var skipped := |packets| - |own|;
      assert packets[skipped..] == own && packets[k] == own[k - skipped] && packets[k..] == own[k - skipped..];
      CarryFromHead(s, u, mtu, k - skipped);
    }
  }

  lemma {:induction false} UnitsFromHead(
    sets: H264.ParameterSets, s: H264.DepacketizerState, units: seq<Bytes>, mtu: nat, k: nat)
    requires H264.ValidUnits(units) && sets.Valid() && 3 <= mtu < 0x1_0000 && s.fuaBuffer == None
    requires k < |H264.EmitUnits(sets, units, mtu).1| && H264.IsPartitionHead(H264.EmitUnits(sets, units, mtu).1[k])
    ensures Whole(s, H264.EmitUnits(sets, units, mtu).1[k..])
    decreases |units|
  {
    hide H264.IsPartitionHead, H264.Conveys;
    var packets := H264.EmitUnits(sets, units, mtu).1;
    var (sets1, first) := H264.EmitUnit(sets, units[0], mtu);
    H264.UnitConveys(sets, s, units[0], mtu);
    hide H264.EmitUnit;
    var rest := H264.EmitUnits(sets1, units[1..], mtu).1;
    assert packets == first + rest;
    if k < |first| {
      UnitFromHead(sets, s, units[0], mtu, k);
      H264.UnitsConvey(sets1, s, units[1..], mtu);
      var us :| H264.Conveys(s, first[k..], us);
      H264.ConveysConcat(s, first[k..], us, rest, H264.Delivered(sets1, units[1..], mtu));
      assert packets[k..] == first[k..] + rest;
    } else {
      UnitsFromHead(sets1, s, units[1..], mtu, k - |first|);
      assert packets[k..] == rest[k - |first|..];
    }
  }

  // ---------- The packets of a frame as entries ----------

  lemma QueueIsFrame(packets: seq<Bytes>, base: nat, time: int)
    requires |packets| > 0 && H264.IsPartitionHead(packets[0])
    ensures IsFrame(FrameDelivery.FrameQueue(packets, base, time), base)
    ensures |FrameDelivery.FrameQueue(packets, base, time)| == |packets|
    ensures Recognizes(H264.CODEC, FrameDelivery.FrameQueue(packets, base, time))
  {
    var q := FrameDelivery.FrameQueue(packets, base, time);
    forall x | x in q
      ensures x.head == H264.CODEC.isHead(x.data) && x.tail == H264.CODEC.isTail(x.meta.marker, x.data)
    {
      var k :| 0 <= k < |q| && q[k] == x;
    }
  }

  lemma QueueSettles(sets: H264.ParameterSets, s: H264.DepacketizerState, f: SentFrame, mtu: nat, base: nat, k: nat)
    requires sets.Valid() && f.Valid() && 3 <= mtu < 0x1_0000 && s.fuaBuffer == None
    requires var packets := H264.EmitUnits(sets, f.units, mtu).1; k < |packets| && H264.IsPartitionHead(packets[k])
    ensures var q := FrameDelivery.FrameQueue(H264.EmitUnits(sets, f.units, mtu).1, base, f.time);
            var d := H264.CODEC.DepacketizeAll(s, Payloads(q[k..]), [], NoExtra);
            d.error == None && d.state == s
  {
    var packets := H264.EmitUnits(sets, f.units, mtu).1;
    var q := FrameDelivery.FrameQueue(packets, base, f.time);
    UnitsFromHead(sets, s, f.units, mtu, k);
    FrameDelivery.PayloadsAt(q[k..], packets[k..]);
  }

  /** A frame that is sent is given as it is to arrive. */
  lemma GivenIsArrival(isAvc: bool, sets: H264.ParameterSets, f: SentFrame, mtu: nat, base: nat)
    requires sets.Valid() && f.Valid() && 3 <= mtu < 0x1_0000
    requires |H264.EmitUnits(sets, f.units, mtu).1| > 0
    ensures var packets := H264.EmitUnits(sets, f.units, mtu).1;
            Given(H264.CODEC, H264.DepacketizerState(isAvc, None), FrameDelivery.FrameQueue(packets, base, f.time)) ==
            Arrival(isAvc, sets, f, mtu, base, packets)
  {
    hide H264.EmitUnits, H264.Delivered, H264.FramedAll, H264.MarkAll, H264.Conveys, Metas;
    var packets := H264.EmitUnits(sets, f.units, mtu).1;
    var s := H264.DepacketizerState(isAvc, None);
    var q := FrameDelivery.FrameQueue(packets, base, f.time);
    H264.UnitsConvey(sets, s, f.units, mtu);
    FrameDelivery.ConveyedFrame(s, packets, H264.Delivered(sets, f.units, mtu));
    FrameDelivery.PayloadsAt(q, packets);
  }

  // ---------- The whole stream ----------

  /** What is sent is a stream that the receiver can take, and its frames are those that are to arrive. */
  lemma {:induction false} SentIsStream(isAvc: bool, sets: H264.ParameterSets, frames: seq<SentFrame>, mtu: nat, base: nat)
    requires sets.Valid() && AllValid(frames) && 3 <= mtu < 0x1_0000 && StartWithHeads(sets, frames, mtu)
    ensures var t, s := SendAll(sets, frames, mtu, base), H264.DepacketizerState(isAvc, None);
            && IsStream(t, base) && Recognizes(H264.CODEC, t) && Settles(H264.CODEC, s, t)
            && Frames(H264.CODEC, s, t) == Arrivals(isAvc, sets, frames, mtu, base)
    decreases |frames|
  {
    hide H264.PacketizeSpec, SentFrame.Valid, H264.EmitUnits, IsStream, Recognizes, Settles, IsFrame, Given, Arrival;
    hide H264.CODEC, FrameDelivery.FrameQueue, H264.IsPartitionHead, Frames;
    var s := H264.DepacketizerState(isAvc, None);
    if |frames| == 0 {
      NoFrames(s, base);
    } else {
      var f := frames[0];
      SetsStayValid(sets, f, mtu);
      var (sets', packets) := H264.PacketizeSpec(sets, f.Payload(), mtu);
      var rest := SendAll(sets', frames[1..], mtu, base + |packets|);
      SentIsStream(isAvc, sets', frames[1..], mtu, base + |packets|);
      OneMore(isAvc, sets, f, mtu, base, rest);
    }
  }

  lemma NoFrames(s: H264.DepacketizerState, base: nat)
    ensures IsStream([], base) && Recognizes(H264.CODEC, []) && Settles(H264.CODEC, s, [])
    ensures Frames(H264.CODEC, s, []) == []
  {
  }

  lemma OneMore(isAvc: bool, sets: H264.ParameterSets, f: SentFrame, mtu: nat, base: nat, rest: seq<Entry>)
    requires sets.Valid() && f.Valid() && 3 <= mtu < 0x1_0000
    requires var packets := H264.EmitUnits(sets, f.units, mtu).1;
             && (packets != [] ==> H264.IsPartitionHead(packets[0])) && IsStream(rest, base + |packets|)
    requires Recognizes(H264.CODEC, rest) && Settles(H264.CODEC, H264.DepacketizerState(isAvc, None), rest)
    ensures var s := H264.DepacketizerState(isAvc, None);
            var packets := H264.EmitUnits(sets, f.units, mtu).1;
            var t := FrameDelivery.FrameQueue(packets, base, f.time) + rest;
            && IsStream(t, base) && Recognizes(H264.CODEC, t) && Settles(H264.CODEC, s, t)
            && Frames(H264.CODEC, s, t) ==
               (if packets == [] then [] else [Arrival(isAvc, sets, f, mtu, base, packets)]) + Frames(H264.CODEC, s, rest)
  {
    hide H264.EmitUnits, IsStream, Settles, SettlesToEnd, IsFrame, Given, Arrival, H264.CODEC, Recognizes, Frames;
    hide H264.IsPartitionHead;
    hide FrameDelivery.FrameQueue;
    var s := H264.DepacketizerState(isAvc, None);
    var packets := H264.EmitUnits(sets, f.units, mtu).1;
    var q := FrameDelivery.FrameQueue(packets, base, f.time);
    if packets == [] {
      NoPackets(q, rest, packets, base, f.time, Frames(H264.CODEC, s, rest));
    } else {
      QueueIsFrame(packets, base, f.time);
      AllQueueSettles(sets, s, f, mtu, base);
      RecognizesBoth(q, rest);
      InFront(q, rest, base);
      FrontSettles(H264.CODEC, s, q, rest, base);
      FrontComesFirst(H264.CODEC, s, q, rest, base);
      GivenIsArrival(isAvc, sets, f, mtu, base);
    }
  }

  lemma NoPackets(q: seq<Entry>, rest: seq<Entry>, packets: seq<Bytes>, base: nat, time: int, frames: seq<PopResult>)
    requires packets == [] && q == FrameDelivery.FrameQueue(packets, base, time)
    ensures q + rest == rest && [] + frames == frames
  {
  }

  lemma RecognizesBoth(a: seq<Entry>, b: seq<Entry>)
    requires Recognizes(H264.CODEC, a) && Recognizes(H264.CODEC, b)
    ensures Recognizes(H264.CODEC, a + b)
  {
  }

  lemma AllQueueSettles(sets: H264.ParameterSets, s: H264.DepacketizerState, f: SentFrame, mtu: nat, base: nat)
    requires sets.Valid() && f.Valid() && 3 <= mtu < 0x1_0000 && s.fuaBuffer == None
    ensures SettlesToEnd(H264.CODEC, s, FrameDelivery.FrameQueue(H264.EmitUnits(sets, f.units, mtu).1, base, f.time))
  {
    hide H264.EmitUnits, H264.CODEC, H264.IsPartitionHead;
    var q := FrameDelivery.FrameQueue(H264.EmitUnits(sets, f.units, mtu).1, base, f.time);
    forall k | 0 <= k < |q| && q[k].head
      ensures var d := H264.CODEC.DepacketizeAll(s, Payloads(q[k..]), [], NoExtra); d.error == None && d.state == s
    {
      QueueSettles(sets, s, f, mtu, base, k);
    }
  }

  /** The receiving side before the first packet: nothing came out yet, or all up to the first packet of the stream. */
  function Receiver(isAvc: bool, holdBack: nat, lastEmitted: Option<nat>): State<H264.DepacketizerState> {
    State(Core(holdBack, [], lastEmitted, None, Unlayered), H264.DepacketizerState(isAvc, None), None)
  }

  lemma ReceiverReceives(
    isAvc: bool, holdBack: nat, lastEmitted: Option<nat>, sets: H264.ParameterSets, frames: seq<SentFrame>, mtu: nat, base: nat)
    requires sets.Valid() && AllValid(frames) && 3 <= mtu < 0x1_0000 && StartWithHeads(sets, frames, mtu)
    requires holdBack > 0 && (lastEmitted.Some? ==> base == lastEmitted.value + 1)
    ensures var b := Receiver(isAvc, holdBack, lastEmitted);
            Receives(H264.CODEC, b.depack, b, SendAll(sets, frames, mtu, base), base) && CleanIff(b, true)
  {
    hide IsStream, Settles, Recognizes, H264.CODEC, SendAll, Arrivals, Frames, AllValid, StartWithHeads;
    SentIsStream(isAvc, sets, frames, mtu, base);
  }

  /**
   End to end over a stream: frames are packetized one after the other, and their packets come in, in any order, with
   repeats, with pops in between. Then what comes out is, in order, each once, the frames with the units that were sent, if
   and only if no pop skips a frame, and none gives a frame out of the cache after a push at or before the end of it.
   */
  lemma StreamSurvivesIff(
    isAvc: bool, holdBack: nat, lastEmitted: Option<nat>, sets: H264.ParameterSets, frames: seq<SentFrame>, mtu: nat,
    base: nat, ops: seq<Op>)
    requires sets.Valid() && AllValid(frames) && 3 <= mtu < 0x1_0000 && StartWithHeads(sets, frames, mtu)
    requires holdBack > 0 && (lastEmitted.Some? ==> base == lastEmitted.value + 1)
    requires AllExpected(ops, SendAll(sets, frames, mtu, base), lastEmitted)
    ensures var b, t := Receiver(isAvc, holdBack, lastEmitted), SendAll(sets, frames, mtu, base);
            Delivered(Outputs(H264.CODEC, b, ops)) <= Arrivals(isAvc, sets, frames, mtu, base) <==>
            NeverSkips(H264.CODEC, b, t, ops) && NeverStale(H264.CODEC, b, ops, true)
  {
    hide H264.CODEC, Arrivals, AllExpected, NeverStale, NeverSkips, Receives, CleanIff, SendAll, AllValid, StartWithHeads;
    var b, t := Receiver(isAvc, holdBack, lastEmitted), SendAll(sets, frames, mtu, base);
    SentIsStream(isAvc, sets, frames, mtu, base);
    ReceiverReceives(isAvc, holdBack, lastEmitted, sets, frames, mtu, base);
    StreamArrivesIff(H264.CODEC, b.depack, b, t, base, true, ops);
  }

  /** And when all packets have come in, as many pops as there are frames complete the stream, on the same condition. */
  lemma StreamIsComplete(
    isAvc: bool, holdBack: nat, lastEmitted: Option<nat>, sets: H264.ParameterSets, frames: seq<SentFrame>, mtu: nat,
    base: nat, ops: seq<Op>, n: nat)
    requires sets.Valid() && AllValid(frames) && 3 <= mtu < 0x1_0000 && StartWithHeads(sets, frames, mtu)
    requires holdBack > 0 && (lastEmitted.Some? ==> base == lastEmitted.value + 1)
    requires AllExpected(ops, SendAll(sets, frames, mtu, base), lastEmitted)
    requires forall x | x in SendAll(sets, frames, mtu, base) :: DoPush(x.meta, x.data) in ops
    requires n >= |Arrivals(isAvc, sets, frames, mtu, base)|
    ensures var b, t := Receiver(isAvc, holdBack, lastEmitted), SendAll(sets, frames, mtu, base);
            Delivered(Outputs(H264.CODEC, b, ops + Pops(n))) == Arrivals(isAvc, sets, frames, mtu, base) <==>
            NeverSkips(H264.CODEC, b, t, ops) && NeverStale(H264.CODEC, b, ops + Pops(n), true)
  {
    hide H264.CODEC, Arrivals, AllExpected, NeverStale, NeverSkips, Receives, CleanIff, SendAll, AllValid, StartWithHeads;
    var b, t := Receiver(isAvc, holdBack, lastEmitted), SendAll(sets, frames, mtu, base);
    SentIsStream(isAvc, sets, frames, mtu, base);
    ReceiverReceives(isAvc, holdBack, lastEmitted, sets, frames, mtu, base);
    assert Coming(t, b.core.queue, ops);
    AllFramesArrive(H264.CODEC, b.depack, b, t, base, true, ops, n);
  }

  /**
   A frame that starts with a unit of one byte cannot be told to start there: with that packet in front of the queue, no
   frame follows the last one, so that any waits until enough frames are held back.
   */
  lemma OneByteStartWaits(c: Core)
    requires c.lastEmitted.Some? && SegmentsOf(c.queue) != [] && |c.queue[0].data| == 1
    requires c.queue[0].head == H264.IsPartitionHead(c.queue[0].data) && c.queue[0].Seq() == c.lastEmitted.value + 1
    ensures Waits(c) <==> |SegmentsOf(c.queue)| < c.holdBack
  {
    SegmentsAreInRange(c.queue);
    var (start, stop) := SegmentsOf(c.queue)[0];
    assert IsSegment(c.queue, start, stop);
  }
}
