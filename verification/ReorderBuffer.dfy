/**
 The reordering and depacketizing buffer of packet/buffer_rx.rs: packets come in in any order, complete frames go
 out in order, after a hold-back of a number of frames where packets are missing.
 */
module ReorderBuffer {
  import opened Bytes
  import opened Codec
  import opened Segments
  import opened Contiguity

  /** A frame put together from consecutive packets. */
  datatype Depacketized = Depacketized(time: int, contiguous: bool, metas: seq<Meta>, data: Bytes, extra: CodecExtra)

  /** The frame found at index range start..stop and not given out yet. */
  datatype Cached = Cached(start: nat, stop: nat, frame: Depacketized)

  datatype PopResult = Nothing | Popped(frame: Depacketized) | PopFailed(error: PacketError)

  /** All that decides what a buffer gives out, but for the codec's state and the look-ahead cache. */
  datatype Core = Core(holdBack: nat, queue: seq<Entry>, lastEmitted: Option<nat>, maxTime: Option<int>, filter: Filter)
  {
    /** The queue is in order, and holds nothing that came out before (unless nothing is held back at all). */
    predicate Valid() {
      && Sorted(queue)
      && (holdBack > 0 && lastEmitted.Some? ==> forall k | 0 <= k < |queue| :: queue[k].Seq() > lastEmitted.value)
    }
  }

  datatype State<!S> = State(core: Core, depack: S, cache: Option<Cached>)

  // ---------- Push ----------

  /** How many entries of a sorted queue come before a sequence number. */
  function Position(q: seq<Entry>, seqNo: nat): (p: nat)
    ensures p <= |q|
    ensures p < |q| ==> q[p].Seq() >= seqNo
    ensures Sorted(q) ==> forall k | 0 <= k < p :: q[k].Seq() < seqNo
  {
    if q == [] then 0
    else if q[0].Seq() >= seqNo then 0
    else 1 + Position(q[1..], seqNo)
  }

  predicate Contains(q: seq<Entry>, seqNo: nat) {
    exists k :: 0 <= k < |q| && q[k].Seq() == seqNo
  }

  function Inserted(q: seq<Entry>, e: Entry): seq<Entry> {
    var p := Position(q, e.Seq());
    q[..p] + [e] + q[p..]
  }

  function PushSpec<S>(codec: Codec<S>, c: Core, meta: Meta, data: Bytes): Core {
    if c.lastEmitted.Some? && meta.seqNo <= c.lastEmitted.value && c.holdBack > 0 then c
    else
      var c1 := c.(maxTime := if c.maxTime.Some? && c.maxTime.value > meta.time then c.maxTime else Some(meta.time));
      if Contains(c.queue, meta.seqNo) then c1
      else c1.(queue := Inserted(c.queue, Entry(meta, data, codec.isHead(data), codec.isTail(meta.marker, data))))
  }

  // ---------- Pop ----------

  function Metas(entries: seq<Entry>): seq<Meta> {
    seq(|entries|, k requires 0 <= k < |entries| => entries[k].meta)
  }

  function Payloads(entries: seq<Entry>): seq<Bytes> {
    if entries == [] then [] else [entries[0].data] + Payloads(entries[1..])
  }

  datatype Attempt = Made(frame: Depacketized) | Failed(error: PacketError)

  /** The codec's state and the outcome after depacketizing the entries of one frame. */
  function DepacketizeEntries<S>(codec: Codec<S>, s: S, entries: seq<Entry>): (S, Attempt)
    requires |entries| > 0
  {
    var d := codec.DepacketizeAll(s, Payloads(entries), [], NoExtra);
    (d.state,
     if d.error.Some? then Failed(d.error.value)
     else Made(Depacketized(entries[0].Time(), true, Metas(entries), d.out, d.extra)))
  }

  predicate IsPadding(e: Entry) {
    e.data == [] && !e.head && !e.tail
  }

  /** Nothing is missing between what came out last and the frame that starts at start. */
  predicate FollowsLast(q: seq<Entry>, lastEmitted: Option<nat>, start: nat)
    requires start < |q|
  {
    lastEmitted.Some? ==>
      && (forall k | 0 <= k <= start :: q[k].Seq() == lastEmitted.value + 1 + k)
      && forall k | 0 <= k < start :: IsPadding(q[k])
  }

  /** Whether the frame at hand has to wait for packets that are missing before it. */
  ghost predicate Waits(c: Core)
    requires SegmentsOf(c.queue) != []
  {
    !FollowsLast(c.queue, c.lastEmitted, SegmentsOf(c.queue)[0].0) && |SegmentsOf(c.queue)| < c.holdBack
  }

  /** What pop does to the core, given what depacketizing the first complete frame gave. */
  ghost function PopCore(c: Core, attempt: Attempt): (Core, PopResult)
    requires SegmentsOf(c.queue) != []
  {
    var (start, stop) := SegmentsOf(c.queue)[0];
    var last := c.queue[stop].Seq();
    var rest := c.queue[stop + 1..];
    if attempt.Failed? then (c.(lastEmitted := Some(last), queue := rest), PopFailed(attempt.error))
    else if Waits(c) then (c, Nothing)
    else
      var (filter, v) := Check(c.filter, attempt.frame.extra, FollowsLast(c.queue, c.lastEmitted, start));
      if v.emit then
        (c.(lastEmitted := Some(last), queue := rest, filter := filter),
         Popped(attempt.frame.(contiguous := v.contiguous)))
      else (c.(queue := rest, filter := filter), Nothing)
  }

  /** The first complete frame: from the cache if it is for the same index range, else made afresh. */
  ghost function FirstFrame<S>(codec: Codec<S>, b: State<S>): (S, Attempt)
    requires SegmentsOf(b.core.queue) != []
  {
    var (start, stop) := SegmentsOf(b.core.queue)[0];
    if b.cache.Some? && b.cache.value.start == start && b.cache.value.stop == stop then
      (b.depack, Made(b.cache.value.frame))
    else DepacketizeEntries(codec, b.depack, b.core.queue[start..stop + 1])
  }

  ghost function PopSpec<S>(codec: Codec<S>, b: State<S>): (State<S>, PopResult) {
    if SegmentsOf(b.core.queue) == [] then (b, Nothing)
    else
      var (start, stop) := SegmentsOf(b.core.queue)[0];
      var (depack, attempt) := FirstFrame(codec, b);
      var (core, result) := PopCore(b.core, attempt);
      var cache := if attempt.Made? && Waits(b.core) then Some(Cached(start, stop, attempt.frame)) else None;
      (State(core, depack, cache), result)
  }

  class DepacketizingBuffer<S> {
    const holdBack: nat
    const codec: Codec<S>
    var depack: S
    var queue: seq<Entry>
    var segments: seq<(nat, nat)>
    var lastEmitted: Option<nat>
    var maxTime: Option<int>
    var depackCache: Option<Cached>
    var filter: Filter

    constructor (codec: Codec<S>, depack: S, filter: Filter, holdBack: nat)
      ensures this.codec == codec
      ensures View() == State(Core(holdBack, [], None, None, filter), depack, None)
    {
      this.codec, this.depack, this.filter, this.holdBack := codec, depack, filter, holdBack;
      queue, segments, lastEmitted, maxTime, depackCache := [], [], None, None, None;
    }

    ghost function View(): State<S>
      reads this
    {
      State(Core(holdBack, queue, lastEmitted, maxTime, filter), depack, depackCache)
    }

    method Push(meta: Meta, data: Bytes)
      requires View().core.Valid()
      modifies this
      ensures View() == old(View()).(core := PushSpec(codec, old(View()).core, meta, data))
    {
      if lastEmitted.Some? {
        if meta.seqNo <= lastEmitted.value && holdBack > 0 {
          return;
        }
      }
      maxTime := Some(if maxTime.Some? && maxTime.value > meta.time then maxTime.value else meta.time);
      var i := Position(queue, meta.seqNo);
      PositionFinds(queue, meta.seqNo);
      if i < |queue| && queue[i].Seq() == meta.seqNo {
        return;
      }
      var head := codec.isHead(data);
      var tail := codec.isTail(meta.marker, data);
      queue := queue[..i] + [Entry(meta, data, head, tail)] + queue[i..];
    }

    method Pop() returns (r: PopResult)
      modifies this
      ensures (View(), r) == PopSpec(codec, old(View()))
    {
      hide SegmentsOf, IsScan, IsSegment, FollowsLast, DepacketizeEntries, Check;
      SegmentsAreInRange(queue);
      UpdateSegments();
      if segments == [] {
        return Nothing;
      }
      var (start, stop) := segments[0];
      var seqNo := queue[stop].Seq();

      var attempt := Depacketize(start, stop);
      if attempt.Failed? {
        lastEmitted := Some(seqNo);
        queue := queue[stop + 1..];
        return PopFailed(attempt.error);
      }
      var frame := attempt.frame;

      var moreThanHoldBack := |segments| >= holdBack;
      var contiguousSeq := IsFollowingLast(start);
      if !contiguousSeq && !moreThanHoldBack {
        depackCache := Some(Cached(start, stop, frame));
        return Nothing;
      }

      var (filter', verdict) := Check(filter, frame.extra, contiguousSeq);
      filter := filter';
      frame := frame.(contiguous := verdict.contiguous);
      var last := queue[stop].Seq();
      queue := queue[stop + 1..];
      if !verdict.emit {
        return Nothing;
      }
      lastEmitted := Some(last);
      return Popped(frame);
    }

    /** Takes the cache, and depacketizes the entries start..=stop unless the cache is for them. */
    method Depacketize(start: nat, stop: nat) returns (r: Attempt)
      requires start <= stop < |queue|
      modifies this`depack, this`depackCache
      ensures depackCache == None
      ensures var hit := old(depackCache).Some? && old(depackCache).value.start == start && old(depackCache).value.stop == stop;
              (depack, r) == if hit then (old(depack), Made(old(depackCache).value.frame))
                             else DepacketizeEntries(codec, old(depack), queue[start..stop + 1])
    {
      if depackCache.Some? {
        var cached := depackCache.value;
        depackCache := None;
        if cached.start == start && cached.stop == stop {
          return Made(cached.frame);
        }
      }
      var data: Bytes := [];
      var extra := NoExtra;
      var time := queue[start].Time();
      var metas: seq<Meta> := [];
      var i := start;
      ghost var entries := queue[start..stop + 1];
      assert entries[0..] == entries;
      hide Metas;
      MetasOfPrefixes(entries);
      while i <= stop
        invariant start <= i <= stop + 1
        invariant depackCache == None
        invariant metas == Metas(entries[..i - start])
        invariant codec.DepacketizeAll(depack, Payloads(entries[i - start..]), data, extra) ==
                  codec.DepacketizeAll(old(depack), Payloads(entries), [], NoExtra)
      {
        assert entries[i - start..][1..] == entries[i - start + 1..];
        assert entries[i - start..][0] == queue[i];
        var d := codec.depacketize(depack, queue[i].data, data, extra);
        depack, data, extra := d.state, d.out, d.extra;
        if d.error.Some? {
          return Failed(d.error.value);
        }
        metas := metas + [queue[i].meta];
        i := i + 1;
      }
      assert entries[..stop + 1 - start] == entries;
      return Made(Depacketized(time, true, metas, data, extra));
    }

    /** Finds the complete frames in one pass over the queue. */
    method UpdateSegments()
      modifies this`segments
      ensures segments == SegmentsOf(queue)
    {
      segments := [];
      var start: Option<Start> := None;
      var index := 0;
      while index < |queue|
        invariant 0 <= index <= |queue|
        invariant index > 0 ==> ScanState(queue, index - 1, start, segments)
        invariant index == 0 ==> start == None && segments == []
      {
        var entry := queue[index];
        ReachesStep(queue, index);
        var iseq := entry.Seq();
        var isExpectedSeq := start.Some? && start.value.offset + index == iseq;
        var isSameTimestamp := start.Some? && start.value.time == entry.Time();
        var isDefactoTail := isExpectedSeq && !isSameTimestamp;

        if start.Some? && isDefactoTail {
          segments := segments + [(start.value.index, index - 1)];
          start := None;
        }
        if start.Some? && (!isExpectedSeq || !isSameTimestamp) {
          start := None;
        }
        if start.None? && entry.head {
          start := Some(Start(index, entry.Time(), iseq - index));
        }
        if start.Some? && entry.tail {
          segments := segments + [(start.value.index, index)];
          start := None;
        }
        index := index + 1;
      }
    }

    method IsFollowingLast(start: nat) returns (r: bool)
      requires start < |queue|
      ensures r == FollowsLast(queue, lastEmitted, start)
    {
      if lastEmitted.None? {
        return true;
      }
      var seqNo := lastEmitted.value;
      var k := 0;
      while k < start
        invariant 0 <= k <= start
        invariant seqNo == lastEmitted.value + k
        invariant forall j | 0 <= j < k :: queue[j].Seq() == lastEmitted.value + 1 + j && IsPadding(queue[j])
      {
        if seqNo >= queue[k].Seq() || queue[k].Seq() - seqNo != 1 {
          return false;
        }
        seqNo := queue[k].Seq();
        if !IsPadding(queue[k]) {
          return false;
        }
        k := k + 1;
      }
      return seqNo < queue[start].Seq() && queue[start].Seq() - seqNo == 1;
    }
  }

  lemma MetasOfPrefixes(entries: seq<Entry>)
    ensures Metas(entries[..0]) == []
    ensures forall k | 0 <= k < |entries| :: Metas(entries[..k + 1]) == Metas(entries[..k]) + [entries[k].meta]
  {
  }

  /** The head of a run under way: its index, timestamp, and sequence number minus index. */
  datatype Start = Start(index: nat, time: int, offset: int)

  /** The scan after entry e: a run under way at e that e does not end, and the frames known so far. */
  ghost predicate ScanState(q: seq<Entry>, e: nat, start: Option<Start>, segments: seq<(nat, nat)>)
    requires e < |q|
  {
    && (start.Some? <==> Reaches(q, e) && !q[e].tail)
    && (start.Some? ==>
          start.value == Start(LeftmostStart(q, e), q[e].Time(), q[e].Seq() - e))
    && segments == SegmentsTo(q, if q[e].tail then e + 1 else e)
  }

  lemma {:induction false} PositionFinds(q: seq<Entry>, seqNo: nat)
    requires Sorted(q)
    ensures var p := Position(q, seqNo);
            Contains(q, seqNo) <==> p < |q| && q[p].Seq() == seqNo
  {
    var p := Position(q, seqNo);
    if p < |q| && q[p].Seq() > seqNo {
      forall k | 0 <= k < |q| ensures q[k].Seq() != seqNo {
      }
    }
  }
}
