/**
 What holds over whole runs of the reordering buffer: frames come out in order, draining stops, waiting is bounded,
 and exactly when the look-ahead cache gives what depacketizing afresh would give.
 */
module BufferRuns {
  import opened Bytes
  import opened Codec
  import opened Segments
  import opened Contiguity
  import opened ReorderBuffer

  // ---------- Order ----------

  /** A push adds at most the one entry, in its place. */
  lemma PushKeepsValid<S>(codec: Codec<S>, c: Core, meta: Meta, data: Bytes)
    requires c.Valid()
    ensures var c' := PushSpec(codec, c, meta, data);
            && c'.Valid()
            && c'.holdBack == c.holdBack && c'.lastEmitted == c.lastEmitted && c'.filter == c.filter
            && (c'.queue == c.queue ||
                (!Contains(c.queue, meta.seqNo) &&
                 c'.queue == Inserted(c.queue, Entry(meta, data, codec.isHead(data), codec.isTail(meta.marker, data)))))
  {
    if !Contains(c.queue, meta.seqNo) {
      InsertKeepsSorted(c.queue, Entry(meta, data, codec.isHead(data), codec.isTail(meta.marker, data)));
    }
  }

  /** A packet is in the queue afterwards unless it comes too late, which only a buffer that holds something back minds. */
  lemma PushTakesInIff<S>(codec: Codec<S>, c: Core, meta: Meta, data: Bytes)
    requires c.Valid()
    ensures Contains(PushSpec(codec, c, meta, data).queue, meta.seqNo) <==>
            Contains(c.queue, meta.seqNo) || c.holdBack == 0 || c.lastEmitted.None? || meta.seqNo > c.lastEmitted.value
  {
    if !Contains(c.queue, meta.seqNo) {
      var e := Entry(meta, data, codec.isHead(data), codec.isTail(meta.marker, data));
      InsertKeepsSorted(c.queue, e);
      var r := Inserted(c.queue, e);
      assert exists k :: 0 <= k < |r| && r[k] == e;
    }
  }

  lemma InsertKeepsSorted(q: seq<Entry>, e: Entry)
    requires Sorted(q) && !Contains(q, e.Seq())
    ensures Sorted(Inserted(q, e))
    ensures forall x | x in Inserted(q, e) :: x == e || x in q
    ensures forall x | x in q :: x in Inserted(q, e)
    ensures e in Inserted(q, e)
  {
    var p := Position(q, e.Seq());
    var r := Inserted(q, e);
    assert forall k | p <= k < |q| :: q[k].Seq() > e.Seq();
    assert r[p] == e;
    forall x | x in q ensures x in r {
      var k :| 0 <= k < |q| && q[k] == x;
      assert r[if k < p then k else k + 1] == x;
    }
  }

  /** A result takes entries out and moves lastEmitted up. */
  lemma PopTakes<S>(codec: Codec<S>, b: State<S>)
    requires b.core.Valid()
    ensures var (b', r) := PopSpec(codec, b);
            && b'.core.Valid()
            && b'.core.holdBack == b.core.holdBack
            && (r != Nothing ==>
                  && |b'.core.queue| < |b.core.queue|
                  && b'.core.lastEmitted.Some?
                  && (b.core.holdBack > 0 && b.core.lastEmitted.Some? ==>
                        b'.core.lastEmitted.value > b.core.lastEmitted.value)
                  && b'.cache == None)
            && (r == Nothing ==> b'.core.lastEmitted == b.core.lastEmitted)
  {
    hide Core.Valid, FirstFrame, Check, FollowsLast, SegmentsOf;
    SegmentsAreInRange(b.core.queue);
    if SegmentsOf(b.core.queue) != [] {
      TakenOut(b.core, SegmentsOf(b.core.queue)[0].1, PopSpec(codec, b).0.core);
    }
  }

  /** No result, and nothing taken out, means that there is no frame, or a gap and not enough frames to skip it. */
  lemma PopWaits<S>(codec: Codec<S>, b: State<S>)
    requires PopSpec(codec, b).1 == Nothing && PopSpec(codec, b).0.core.queue == b.core.queue
    ensures var segments := SegmentsOf(b.core.queue);
            segments == [] ||
            (|segments| < b.core.holdBack && !FollowsLast(b.core.queue, b.core.lastEmitted, segments[0].0))
  {
    hide FirstFrame, Check, FollowsLast, SegmentsOf;
    SegmentsAreInRange(b.core.queue);
  }

  /**
   One pop: the buffer stays valid, a result other than Nothing takes entries out and moves lastEmitted up, and
   Nothing with a complete frame still in the queue means a gap before it and fewer than holdBack frames.
   */
  lemma PopStep<S>(codec: Codec<S>, b: State<S>)
    requires b.core.Valid()
    ensures var (b', r) := PopSpec(codec, b);
            && b'.core.Valid()
            && b'.core.holdBack == b.core.holdBack
            && (r != Nothing ==>
                  && |b'.core.queue| < |b.core.queue|
                  && b'.core.lastEmitted.Some?
                  && (b.core.holdBack > 0 && b.core.lastEmitted.Some? ==>
                        b'.core.lastEmitted.value > b.core.lastEmitted.value)
                  && b'.cache == None)
            && (r == Nothing ==> b'.core.lastEmitted == b.core.lastEmitted)
            && (r == Nothing && b'.core.queue == b.core.queue ==>
                  var segments := SegmentsOf(b.core.queue);
                  segments == [] ||
                  (|segments| < b.core.holdBack && !FollowsLast(b.core.queue, b.core.lastEmitted, segments[0].0)))
  {
    SegmentsAreInRange(b.core.queue);
    PopTakes(codec, b);
    hide PopSpec, Core.Valid, FollowsLast, SegmentsOf;
    var (b', r) := PopSpec(codec, b);
    if r == Nothing && b'.core.queue == b.core.queue {
      PopWaits(codec, b);
    }
  }

  /** What is left behind a place is in order, and after what was there. */
  lemma TakenOut(c: Core, stop: nat, c': Core)
    requires c.Valid() && stop < |c.queue|
    ensures (&& c'.queue == c.queue[stop + 1..] && c'.holdBack == c.holdBack
             && (c'.lastEmitted == c.lastEmitted || c'.lastEmitted == Some(c.queue[stop].Seq()))) ==>
              c'.Valid()
    ensures c.holdBack > 0 && c.lastEmitted.Some? ==> c.queue[stop].Seq() > c.lastEmitted.value
  {
  }

  datatype Op = DoPush(meta: Meta, data: Bytes) | DoPop

  ghost function Step<S>(codec: Codec<S>, b: State<S>, op: Op): (State<S>, PopResult) {
    match op
    case DoPush(meta, data) => (b.(core := PushSpec(codec, b.core, meta, data)), Nothing)
    case DoPop => PopSpec(codec, b)
  }

  /** The value of lastEmitted after each pop of a run that gave something. */
  ghost function EmittedSeqs<S>(codec: Codec<S>, b: State<S>, ops: seq<Op>): seq<nat>
    requires b.core.Valid()
    decreases |ops|
  {
    if ops == [] then []
    else
      StepKeepsValid(codec, b, ops[0]);
      var (b', r) := Step(codec, b, ops[0]);
      var rest := EmittedSeqs(codec, b', ops[1..]);
      if r == Nothing then rest else [b'.core.lastEmitted.value] + rest
  }

  lemma StepKeepsValid<S>(codec: Codec<S>, b: State<S>, op: Op)
    requires b.core.Valid()
    ensures var (b', r) := Step(codec, b, op);
            && b'.core.Valid() && b'.core.holdBack == b.core.holdBack
            && (r != Nothing ==>
                  && b'.core.lastEmitted.Some?
                  && (b.core.holdBack > 0 && b.core.lastEmitted.Some? ==>
                        b'.core.lastEmitted.value > b.core.lastEmitted.value))
            && (r == Nothing ==> b'.core.lastEmitted == b.core.lastEmitted)
  {
    match op
    case DoPush(meta, data) => PushKeepsValid(codec, b.core, meta, data);
    case DoPop => PopStep(codec, b);
  }

  predicate Increasing(s: seq<nat>) {
    forall i, j | 0 <= i < j < |s| :: s[i] < s[j]
  }

  /** Over every run that holds something back, what comes out (errors included) moves strictly forward. */
  lemma {:induction false} EmissionIsOrdered<S>(codec: Codec<S>, b: State<S>, ops: seq<Op>)
    requires b.core.Valid() && b.core.holdBack > 0
    ensures Increasing(EmittedSeqs(codec, b, ops))
    ensures b.core.lastEmitted.Some? ==> forall x | x in EmittedSeqs(codec, b, ops) :: x > b.core.lastEmitted.value
    decreases |ops|
  {
    hide Step, Core.Valid;
    if ops != [] {
      StepKeepsValid(codec, b, ops[0]);
      var (b', r) := Step(codec, b, ops[0]);
      EmissionIsOrdered(codec, b', ops[1..]);
      var rest := EmittedSeqs(codec, b', ops[1..]);
      assert r != Nothing ==> forall j | 0 <= j < |rest| :: rest[j] in rest && rest[j] > b'.core.lastEmitted.value;
    }
  }

  /** Popping until nothing comes: it ends, since every result takes entries out. */
  ghost function Drained<S>(codec: Codec<S>, b: State<S>): (r: State<S>)
    requires b.core.Valid()
    ensures r.core.Valid()
    ensures PopSpec(codec, r).1 == Nothing
    decreases |b.core.queue|
  {
    PopStep(codec, b);
    if PopSpec(codec, b).1 == Nothing then b else Drained(codec, PopSpec(codec, b).0)
  }

  // ---------- The look-ahead cache ----------

  /** A codec whose output for a frame depends on the packets of the frame only. */
  ghost predicate FrameLocal<S(!new)>(codec: Codec<S>) {
    forall s, s', packets ::
      var d := codec.DepacketizeAll(s, packets, [], NoExtra);
      var d' := codec.DepacketizeAll(s', packets, [], NoExtra);
      d.out == d'.out && d.extra == d'.extra && d.error == d'.error
  }

  /** A codec that looks at no state of its own, as those whose packets can each be depacketized alone. */
  ghost predicate Stateless<S(!new)>(codec: Codec<S>) {
    forall s, s', packet, out, extra ::
      var d := codec.depacketize(s, packet, out, extra);
      var d' := codec.depacketize(s', packet, out, extra);
      d.out == d'.out && d.extra == d'.extra && d.error == d'.error
  }

  lemma {:induction false} StatelessRuns<S(!new)>(codec: Codec<S>, s: S, s': S, packets: seq<Bytes>, out: Bytes, extra: CodecExtra)
    requires Stateless(codec)
    ensures var d := codec.DepacketizeAll(s, packets, out, extra);
            var d' := codec.DepacketizeAll(s', packets, out, extra);
            d.out == d'.out && d.extra == d'.extra && d.error == d'.error
    decreases |packets|
  {
    if packets != [] {
      var d, d' := codec.depacketize(s, packets[0], out, extra), codec.depacketize(s', packets[0], out, extra);
      assert d.out == d'.out && d.extra == d'.extra && d.error == d'.error;
      if d.error.None? {
        StatelessRuns(codec, d.state, d'.state, packets[1..], d.out, d.extra);
      }
    }
  }

  lemma StatelessIsFrameLocal<S(!new)>(codec: Codec<S>)
    requires Stateless(codec)
    ensures FrameLocal(codec)
  {
    forall s, s', packets
      ensures var d := codec.DepacketizeAll(s, packets, [], NoExtra);
              var d' := codec.DepacketizeAll(s', packets, [], NoExtra);
              d.out == d'.out && d.extra == d'.extra && d.error == d'.error
    {
      StatelessRuns(codec, s, s', packets, [], NoExtra);
    }
  }

  /** The first complete frame of a queue, depacketized afresh. */
  ghost function FreshFrame<S>(codec: Codec<S>, s: S, q: seq<Entry>): Attempt
    requires SegmentsOf(q) != []
  {
    SegmentsAreInRange(q);
    var (start, stop) := SegmentsOf(q)[0];
    DepacketizeEntries(codec, s, q[start..stop + 1]).1
  }

  /** The cached frame is the first frame of an earlier queue, whose entries are all still there. */
  ghost predicate CachedAt<S>(codec: Codec<S>, s: S, b: State<S>, at: seq<Entry>)
    requires b.cache.Some?
  {
    && Sorted(at) && SegmentsOf(at) != []
    && (forall x | x in at :: x in b.core.queue)
    && SegmentsOf(at)[0] == (b.cache.value.start, b.cache.value.stop)
    && FreshFrame(codec, s, at) == Made(b.cache.value.frame)
  }

  ghost predicate CacheInv<S>(codec: Codec<S>, s: S, b: State<S>) {
    b.cache.Some? ==> exists at :: CachedAt(codec, s, b, at)
  }

  ghost predicate Hit<S>(b: State<S>) {
    b.cache.Some? && SegmentsOf(b.core.queue) != [] &&
    SegmentsOf(b.core.queue)[0] == (b.cache.value.start, b.cache.value.stop)
  }

  /** The entry where the cached frame ended is still at the index where it was. */
  predicate Undisturbed<S>(b: State<S>)
    requires b.cache.Some?
  {
    var c := b.cache.value;
    && c.stop < |b.core.queue| && c.frame.metas != []
    && b.core.queue[c.stop].Seq() == c.frame.metas[|c.frame.metas| - 1].seqNo
  }

  lemma {:induction false} PlaceInLarger(at: seq<Entry>, q: seq<Entry>, k: nat) returns (p: nat)
    requires Sorted(at) && Sorted(q) && k < |at| && forall x | x in at :: x in q
    ensures k <= p < |q| && q[p] == at[k]
    ensures p == k ==> at[..k + 1] == q[..k + 1]
  {
    assert at[k] in q;
    p :| 0 <= p < |q| && q[p] == at[k];
    if k > 0 {
      var r := PlaceInLarger(at, q, k - 1);
      assert r < p;
      if p == k {
        assert at[..k + 1] == at[..k] + [at[k]] && q[..k + 1] == q[..k] + [q[k]];
      }
    } else if p == 0 {
      assert at[..1] == [at[0]] && q[..1] == [q[0]];
    }
  }

  lemma FrameMetas<S>(codec: Codec<S>, s: S, q: seq<Entry>)
    requires SegmentsOf(q) != [] && FreshFrame(codec, s, q).Made?
    ensures var (start, stop) := SegmentsOf(q)[0];
            && stop < |q|
            && FreshFrame(codec, s, q).frame.metas == Metas(q[start..stop + 1])
            && |FreshFrame(codec, s, q).frame.metas| == stop + 1 - start > 0
            && FreshFrame(codec, s, q).frame.metas[stop - start] == q[stop].meta
  {
    SegmentsAreInRange(q);
  }

  /**
   A cache hit gives what depacketizing afresh would give if and only if the cached frame is undisturbed: nothing
   was put into the queue at or before the place where it ends.
   */
  lemma HitIsFreshIffUndisturbed<S>(codec: Codec<S>, s: S, b: State<S>)
    requires b.core.Valid() && CacheInv(codec, s, b) && Hit(b)
    ensures FreshFrame(codec, s, b.core.queue) == Made(b.cache.value.frame) <==> Undisturbed(b)
  {
    hide SegmentsOf, FreshFrame, CacheInv, Core.Valid;
    if Undisturbed(b) {
      UndisturbedHitIsFresh(codec, s, b);
    }
    if FreshFrame(codec, s, b.core.queue) == Made(b.cache.value.frame) {
      FrameMetas(codec, s, b.core.queue);
    }
  }

  lemma UndisturbedHitIsFresh<S>(codec: Codec<S>, s: S, b: State<S>)
    requires b.core.Valid() && CacheInv(codec, s, b) && Hit(b) && Undisturbed(b)
    ensures FreshFrame(codec, s, b.core.queue) == Made(b.cache.value.frame)
  {
    hide DepacketizeEntries, SegmentsOf;
    var at: seq<Entry> :| CachedAt(codec, s, b, at);
    var (start, stop) := SegmentsOf(at)[0];
    var q := b.core.queue;
    FrameMetas(codec, s, at);
    FrameRange(q);
    var p := PlaceInLarger(at, q, stop);
    assert p == stop;
    SamePrefix(at, q, start, stop + 1);
  }

  lemma FrameRange(q: seq<Entry>)
    requires SegmentsOf(q) != []
    ensures SegmentsOf(q)[0].0 <= SegmentsOf(q)[0].1 < |q|
  {
    SegmentsAreInRange(q);
  }

  lemma SamePrefix(a: seq<Entry>, b: seq<Entry>, start: nat, end: nat)
    requires start <= end <= |a| && end <= |b| && a[..end] == b[..end]
    ensures a[start..end] == b[start..end]
  {
    assert a[start..end] == a[..end][start..] && b[start..end] == b[..end][start..];
  }

  lemma PushKeepsCacheInv<S>(codec: Codec<S>, s: S, b: State<S>, meta: Meta, data: Bytes)
    requires b.core.Valid() && CacheInv(codec, s, b)
    ensures CacheInv(codec, s, b.(core := PushSpec(codec, b.core, meta, data)))
  {
    var b' := b.(core := PushSpec(codec, b.core, meta, data));
    PushKeepsValid(codec, b.core, meta, data);
    if b.cache.Some? {
      var at: seq<Entry> :| CachedAt(codec, s, b, at);
      if b'.core.queue != b.core.queue {
        InsertKeepsSorted(b.core.queue, Entry(meta, data, codec.isHead(data), codec.isTail(meta.marker, data)));
      }
      assert CachedAt(codec, s, b', at);
    }
  }

  /** What pop depacketizes, it does as a codec in state s would. */
  ghost predicate LooksAfresh<S>(codec: Codec<S>, s: S, b: State<S>) {
    SegmentsOf(b.core.queue) != [] && !Hit(b) ==> FirstFrame(codec, b).1 == FreshFrame(codec, s, b.core.queue)
  }

  lemma FrameLocalLooksAfresh<S(!new)>(codec: Codec<S>, s: S, b: State<S>)
    requires FrameLocal(codec) && SegmentsOf(b.core.queue) != []
    ensures LooksAfresh(codec, s, b)
  {
    FrameRange(b.core.queue);
    var (start, stop) := SegmentsOf(b.core.queue)[0];
    var entries := b.core.queue[start..stop + 1];
    var d := codec.DepacketizeAll(s, Payloads(entries), [], NoExtra);
    var d' := codec.DepacketizeAll(b.depack, Payloads(entries), [], NoExtra);
    assert d.out == d'.out && d.extra == d'.extra && d.error == d'.error;
  }

  lemma AlwaysLooksAfresh<S(!new)>(codec: Codec<S>, s: S, b: State<S>)
    requires FrameLocal(codec)
    ensures LooksAfresh(codec, s, b)
  {
    hide FrameLocal, FirstFrame;
    if SegmentsOf(b.core.queue) != [] {
      FrameLocalLooksAfresh(codec, s, b);
    }
  }

  lemma PopKeepsCacheInv<S>(codec: Codec<S>, s: S, b: State<S>)
    requires LooksAfresh(codec, s, b) && b.core.Valid() && CacheInv(codec, s, b)
    ensures CacheInv(codec, s, PopSpec(codec, b).0)
  {
    hide DepacketizeEntries, SegmentsOf;
    var b' := PopSpec(codec, b).0;
    if SegmentsOf(b.core.queue) != [] && b'.cache.Some? {
      FrameRange(b.core.queue);
      assert Waits(b.core) && b'.core == b.core;
      if Hit(b) {
        var at: seq<Entry> :| CachedAt(codec, s, b, at);
        assert CachedAt(codec, s, b', at);
      } else {
        assert CachedAt(codec, s, b', b.core.queue);
      }
    }
  }

  /** A push that is taken in undoes the agreement exactly when its packet goes before the end of the cached frame. */
  lemma PushDisturbsIffBefore<S>(codec: Codec<S>, b: State<S>, meta: Meta, data: Bytes)
    requires b.core.Valid() && b.cache.Some? && Undisturbed(b)
    ensures var b' := b.(core := PushSpec(codec, b.core, meta, data));
            Undisturbed(b') <==>
            b'.core.queue == b.core.queue || meta.seqNo > b.core.queue[b.cache.value.stop].Seq()
  {
    PushKeepsValid(codec, b.core, meta, data);
  }

  /** Once undone, no push brings the agreement back. */
  lemma PushKeepsDisturbed<S>(codec: Codec<S>, s: S, b: State<S>, meta: Meta, data: Bytes)
    requires b.core.Valid() && b.cache.Some? && CacheInv(codec, s, b) && !Undisturbed(b)
    ensures !Undisturbed(b.(core := PushSpec(codec, b.core, meta, data)))
  {
    var at: seq<Entry> :| CachedAt(codec, s, b, at);
    var stop := b.cache.value.stop;
    FrameMetas(codec, s, at);
    var p := PlaceInLarger(at, b.core.queue, stop);
    hide SegmentsOf, FreshFrame, CachedAt;
    assert b.core.queue[stop].Seq() < at[stop].Seq();
    PushKeepsValid(codec, b.core, meta, data);
  }

  ghost predicate Agrees<S>(b: State<S>) {
    Hit(b) ==> Undisturbed(b)
  }

  /** Pop without a cache, always depacketizing from the same codec state. */
  ghost function PopFresh<S>(codec: Codec<S>, s: S, c: Core): (Core, PopResult) {
    if SegmentsOf(c.queue) == [] then (c, Nothing) else PopCore(c, FreshFrame(codec, s, c.queue))
  }

  /** With the cache, pop does what it would do without, if and (when a frame comes out) only if the cache agrees. */
  lemma PopRefinesFresh<S>(codec: Codec<S>, s: S, b: State<S>)
    requires LooksAfresh(codec, s, b) && b.core.Valid() && CacheInv(codec, s, b)
    ensures var (b', r) := PopSpec(codec, b);
            && (Agrees(b) ==> (b'.core, r) == PopFresh(codec, s, b.core))
            && (r.Popped? && (b'.core, r) == PopFresh(codec, s, b.core) ==> Agrees(b))
  {
    hide DepacketizeEntries, SegmentsOf, Check, FollowsLast, CacheInv;
    if SegmentsOf(b.core.queue) != [] {
      FrameRange(b.core.queue);
      if Hit(b) {
        HitIsFreshIffUndisturbed(codec, s, b);
        CachedMetas(codec, s, b);
        if FreshFrame(codec, s, b.core.queue).Made? {
          FrameMetas(codec, s, b.core.queue);
        }
      }
    }
  }

  lemma CachedMetas<S>(codec: Codec<S>, s: S, b: State<S>)
    requires b.cache.Some? && CacheInv(codec, s, b)
    ensures |b.cache.value.frame.metas| == b.cache.value.stop + 1 - b.cache.value.start > 0
  {
    var at: seq<Entry> :| CachedAt(codec, s, b, at);
    FrameMetas(codec, s, at);
  }

  /** A frame that was made follows the last one: it comes out. */
  lemma MadeFrameComesOut(c: Core, n: nat, frame: Depacketized)
    requires 0 < n <= |c.queue| && SegmentsOf(c.queue) != [] && SegmentsOf(c.queue)[0] == (0, n - 1)
    requires FollowsLast(c.queue, c.lastEmitted, 0) && c.filter.Unlayered? && frame.contiguous
    ensures PopCore(c, Made(frame)) ==
            (c.(lastEmitted := Some(c.queue[n - 1].Seq()), queue := c.queue[n..]), Popped(frame))
  {
    hide SegmentsOf, FollowsLast;
  }

  // ---------- The cache over whole runs ----------

  ghost function Outputs<S>(codec: Codec<S>, b: State<S>, ops: seq<Op>): seq<PopResult>
    decreases |ops|
  {
    if ops == [] then []
    else [Step(codec, b, ops[0]).1] + Outputs(codec, Step(codec, b, ops[0]).0, ops[1..])
  }

  ghost function FreshStep<S>(codec: Codec<S>, s: S, c: Core, op: Op): (Core, PopResult) {
    match op
    case DoPush(meta, data) => (PushSpec(codec, c, meta, data), Nothing)
    case DoPop => PopFresh(codec, s, c)
  }

  ghost function FreshOutputs<S>(codec: Codec<S>, s: S, c: Core, ops: seq<Op>): seq<PopResult>
    decreases |ops|
  {
    if ops == [] then []
    else [FreshStep(codec, s, c, ops[0]).1] + FreshOutputs(codec, s, FreshStep(codec, s, c, ops[0]).0, ops[1..])
  }

  /** The cache agrees at every pop of the run. */
  ghost predicate AlwaysAgrees<S>(codec: Codec<S>, b: State<S>, ops: seq<Op>)
    decreases |ops|
  {
    ops == [] ||
    ((ops[0].DoPop? ==> Agrees(b)) && AlwaysAgrees(codec, Step(codec, b, ops[0]).0, ops[1..]))
  }

  lemma {:induction false} RunRefinesFresh<S(!new)>(codec: Codec<S>, s: S, b: State<S>, ops: seq<Op>)
    requires FrameLocal(codec) && b.core.Valid() && CacheInv(codec, s, b) && AlwaysAgrees(codec, b, ops)
    ensures Outputs(codec, b, ops) == FreshOutputs(codec, s, b.core, ops)
    decreases |ops|
  {
    if ops != [] {
      hide FrameLocal, CacheInv, Core.Valid, PopSpec, PopFresh, PushSpec, Agrees, LooksAfresh;
      StepKeepsValid(codec, b, ops[0]);
      match ops[0]
      case DoPush(meta, data) =>
        PushKeepsCacheInv(codec, s, b, meta, data);
      case DoPop =>
        AlwaysLooksAfresh(codec, s, b);
        PopKeepsCacheInv(codec, s, b);
        PopRefinesFresh(codec, s, b);
    }
    if ops != [] {
      StepKeepsValid(codec, b, ops[0]);
      RunRefinesFresh(codec, s, Step(codec, b, ops[0]).0, ops[1..]);
    }
  }

  // ---------- Which pushes make a run go wrong ----------

  /** A push leaves the cached frame where it is: it is not taken in, or its packet goes behind the end of the frame. */
  predicate GoesBehind<S>(codec: Codec<S>, b: State<S>, meta: Meta, data: Bytes) {
    b.cache.Some? && PushSpec(codec, b.core, meta, data).queue != b.core.queue ==>
      b.cache.value.stop < |b.core.queue| && meta.seqNo > b.core.queue[b.cache.value.stop].Seq()
  }

  /**
   At every pop that finds the first frame at the cached index range, all pushes since the cache was filled have gone
   behind the end of the cached frame; clean says whether they have so far.
   */
  ghost predicate PushesGoBehind<S>(codec: Codec<S>, b: State<S>, ops: seq<Op>, clean: bool)
    decreases |ops|
  {
    ops == [] ||
    match ops[0]
    case DoPush(meta, data) =>
      PushesGoBehind(codec, Step(codec, b, ops[0]).0, ops[1..], clean && GoesBehind(codec, b, meta, data))
    case DoPop =>
      && (Hit(b) ==> clean)
      && PushesGoBehind(codec, Step(codec, b, ops[0]).0, ops[1..], clean || SegmentsOf(b.core.queue) != [])
  }

  /** A pop takes out what is cached, and looks at the first frame itself. */
  ghost predicate Refills<S>(b: State<S>) {
    SegmentsOf(b.core.queue) != [] && !Hit(b)
  }

  /** Whether the cached frame is where it was. */
  ghost predicate CleanIff<S>(b: State<S>, clean: bool) {
    b.cache.Some? ==> (Undisturbed(b) <==> clean)
  }

  lemma PushKeepsClean<S>(codec: Codec<S>, s: S, b: State<S>, meta: Meta, data: Bytes, clean: bool)
    requires b.core.Valid() && CacheInv(codec, s, b) && CleanIff(b, clean)
    ensures CleanIff(b.(core := PushSpec(codec, b.core, meta, data)), clean && GoesBehind(codec, b, meta, data))
  {
    if b.cache.Some? {
      if clean {
        PushDisturbsIffBefore(codec, b, meta, data);
      } else {
        PushKeepsDisturbed(codec, s, b, meta, data);
      }
    }
  }

  /** A pop that fills the cache leaves it right; one that hits leaves it as it was, or empty. */
  lemma PopKeepsClean<S>(codec: Codec<S>, s: S, b: State<S>, clean: bool)
    requires LooksAfresh(codec, s, b) && b.core.Valid() && CacheInv(codec, s, b) && CleanIff(b, clean)
    ensures CleanIff(PopSpec(codec, b).0, clean || Refills(b))
  {
    hide DepacketizeEntries, SegmentsOf;
    var b' := PopSpec(codec, b).0;
    if SegmentsOf(b.core.queue) != [] && b'.cache.Some? && !Hit(b) {
      FrameMetas(codec, s, b.core.queue);
    }
  }

  /** The cache agrees throughout a run if and only if the pushes of the run go behind what is cached, where it counts. */
  lemma {:induction false} AgreesIffPushesGoBehind<S(!new)>(codec: Codec<S>, s: S, b: State<S>, ops: seq<Op>, clean: bool)
    requires FrameLocal(codec) && b.core.Valid() && CacheInv(codec, s, b) && CleanIff(b, clean)
    ensures AlwaysAgrees(codec, b, ops) <==> PushesGoBehind(codec, b, ops, clean)
    decreases |ops|
  {
    hide FrameLocal, CacheInv, Core.Valid, PopSpec, PushSpec, Undisturbed, LooksAfresh;
    if ops != [] {
      StepKeepsValid(codec, b, ops[0]);
      match ops[0]
      case DoPush(meta, data) =>
        PushKeepsCacheInv(codec, s, b, meta, data);
        PushKeepsClean(codec, s, b, meta, data, clean);
        AgreesIffPushesGoBehind(codec, s, Step(codec, b, ops[0]).0, ops[1..], clean && GoesBehind(codec, b, meta, data));
      case DoPop =>
        AlwaysLooksAfresh(codec, s, b);
        PopKeepsCacheInv(codec, s, b);
        if Hit(b) ==> clean {
          PopKeepsClean(codec, s, b, clean);
          assert (clean || Refills(b)) == (clean || SegmentsOf(b.core.queue) != []);
          AgreesIffPushesGoBehind(codec, s, Step(codec, b, ops[0]).0, ops[1..], clean || SegmentsOf(b.core.queue) != []);
        }
    }
  }

  /**
   At every pop that gives something out of the cache, all pushes since the cache was filled have gone behind the end of
   the cached frame; clean says whether they have so far. What a pop that waits finds in the cache does not matter.
   */
  ghost predicate NeverStale<S>(codec: Codec<S>, b: State<S>, ops: seq<Op>, clean: bool)
    decreases |ops|
  {
    ops == [] ||
    match ops[0]
    case DoPush(meta, data) =>
      NeverStale(codec, Step(codec, b, ops[0]).0, ops[1..], clean && GoesBehind(codec, b, meta, data))
    case DoPop =>
      && (Hit(b) && PopSpec(codec, b).1 != Nothing ==> clean)
      && NeverStale(codec, Step(codec, b, ops[0]).0, ops[1..], clean || Refills(b))
  }

  /** Pushes that go behind what is cached at every hit do so at those that give something. */
  lemma {:induction false} GoingBehindIsNeverStale<S>(codec: Codec<S>, b: State<S>, ops: seq<Op>, clean: bool)
    requires PushesGoBehind(codec, b, ops, clean)
    ensures NeverStale(codec, b, ops, clean)
    decreases |ops|
  {
    hide PopSpec, PushSpec, SegmentsOf;
    if ops != [] {
      match ops[0]
      case DoPush(meta, data) =>
        GoingBehindIsNeverStale(codec, Step(codec, b, ops[0]).0, ops[1..], clean && GoesBehind(codec, b, meta, data));
      case DoPop =>
        GoingBehindIsNeverStale(codec, Step(codec, b, ops[0]).0, ops[1..], clean || SegmentsOf(b.core.queue) != []);
    }
  }

  /** Every frame that comes out ends with the packet that the buffer takes to be the last one given out. */
  ghost predicate RecordsWhatItGives<S>(codec: Codec<S>, b: State<S>, ops: seq<Op>)
    decreases |ops|
  {
    ops == [] ||
    var (b', r) := Step(codec, b, ops[0]);
    && (r.Popped? ==>
          && r.frame.metas != []
          && b'.core.lastEmitted == Some(r.frame.metas[|r.frame.metas| - 1].seqNo))
    && RecordsWhatItGives(codec, b', ops[1..])
  }

  /** One pop gives the frame that it records if and only if the cache agrees. */
  lemma GivesRecordedIff<S>(codec: Codec<S>, s: S, b: State<S>)
    requires LooksAfresh(codec, s, b) && b.core.Valid() && CacheInv(codec, s, b)
    ensures var (b', r) := PopSpec(codec, b);
            && (r.Popped? ==>
                  (Agrees(b) <==>
                   && r.frame.metas != []
                   && b'.core.lastEmitted == Some(r.frame.metas[|r.frame.metas| - 1].seqNo)))
            && (r.PopFailed? ==> !Hit(b))
  {
    hide DepacketizeEntries, SegmentsOf, Check, FollowsLast, CacheInv, FreshFrame;
    if SegmentsOf(b.core.queue) != [] {
      FrameRange(b.core.queue);
      if Hit(b) {
        CachedMetas(codec, s, b);
      } else if FreshFrame(codec, s, b.core.queue).Made? {
        FrameMetas(codec, s, b.core.queue);
      }
    }
  }

  /** Over every run, each frame that comes out is the one that the buffer records if and only if none is stale. */
  lemma {:induction false} RecordsIffNeverStale<S(!new)>(codec: Codec<S>, s: S, b: State<S>, ops: seq<Op>, clean: bool)
    requires FrameLocal(codec) && b.core.Valid() && CacheInv(codec, s, b) && CleanIff(b, clean)
    ensures RecordsWhatItGives(codec, b, ops) <==> NeverStale(codec, b, ops, clean)
    decreases |ops|
  {
    hide FrameLocal, CacheInv, Core.Valid, PopSpec, PushSpec, Undisturbed, LooksAfresh, SegmentsOf;
    if ops != [] {
      StepKeepsValid(codec, b, ops[0]);
      match ops[0]
      case DoPush(meta, data) =>
        PushKeepsCacheInv(codec, s, b, meta, data);
        PushKeepsClean(codec, s, b, meta, data, clean);
        RecordsIffNeverStale(codec, s, Step(codec, b, ops[0]).0, ops[1..], clean && GoesBehind(codec, b, meta, data));
      case DoPop =>
        AlwaysLooksAfresh(codec, s, b);
        PopKeepsCacheInv(codec, s, b);
        PopKeepsClean(codec, s, b, clean);
        GivesRecordedIff(codec, s, b);
        RecordsIffNeverStale(codec, s, Step(codec, b, ops[0]).0, ops[1..], clean || Refills(b));
    }
  }

  // ---------- What a push can and cannot change ----------

  /** A packet that goes in after the first complete frame changes neither that frame nor its being first. */
  lemma InsertAfterKeepsFirst(q: seq<Entry>, e: Entry)
    requires Sorted(q) && !Contains(q, e.Seq()) && SegmentsOf(q) != []
    requires SegmentsOf(q)[0].1 < |q| && e.Seq() > q[SegmentsOf(q)[0].1].Seq()
    ensures var q' := Inserted(q, e);
            var (start, stop) := SegmentsOf(q)[0];
            SegmentsOf(q') != [] && SegmentsOf(q')[0] == (start, stop) && q'[..stop + 1] == q[..stop + 1]
  {
    var q' := Inserted(q, e);
    var p := Position(q, e.Seq());
    var (start, stop) := SegmentsOf(q)[0];
    assert IsSegment(q, start, stop);
    assert p > stop;
    assert forall k | 0 <= k < p :: q'[k] == q[k];
    SameRunsBefore(q, q', p);
    assert IsSegment(q', start, stop) by {
      assert !q[stop].tail ==> p > stop + 1;
    }
    assert (start, stop) in SegmentsOf(q');
    var first := SegmentsOf(q')[0];
    assert IsSegment(q', first.0, first.1);
    assert first == (start, stop) || first.1 < start;
    assert first.1 < start ==> IsSegment(q, first.0, first.1);
  }

  /** Queues that agree before p have the same runs there. */
  lemma SameRunsBefore(q: seq<Entry>, q': seq<Entry>, p: nat)
    requires p <= |q| && p <= |q'| && forall k | 0 <= k < p :: q'[k] == q[k]
    ensures forall s, e | e < p :: Run(q, s, e) <==> Run(q', s, e)
  {
    assert forall i | 0 <= i < p - 1 :: Linked(q, i) <==> Linked(q', i);
  }

  /** Packets that are frames of their own. */
  lemma SinglePacketFrames(q: seq<Entry>)
    requires forall k | 0 <= k < |q| :: q[k].head && q[k].tail
    ensures SegmentsOf(q) == seq(|q|, k requires 0 <= k < |q| => (k, k))
  {
    var r: seq<(nat, nat)> := seq(|q|, k requires 0 <= k < |q| => (k, k));
    forall k | 0 <= k < |q| ensures IsSegment(q, k, k) {
      forall s | 0 <= s < k ensures !Run(q, s, k) {
        assert !Linked(q, s);
      }
    }
    forall s: nat, e: nat | e < |q| && IsSegment(q, s, e) ensures (s, e) in r {
      assert s < e ==> !Linked(q, s);
      assert r[e] == (e, e);
    }
    ScanIsUnique(q, SegmentsOf(q), r);
  }

  const WHOLE_PACKETS: Codec<bool> := Codec(
    data => data != [],
    (marker, data) => marker,
    (s, packet, out, extra) => Depacked(s, out + packet, extra, None))

  function WholePacket(seqNo: nat, b: byte): Entry {
    Entry(Meta(seqNo, seqNo, true), [b], true, true)
  }

  /** A buffer that has given out packet 1, holds back 3 frames, and has the given single-packet frames. */
  function Held(q: seq<Entry>, cache: Option<Cached>): State<bool> {
    State(Core(3, q, Some(1), Some(10), Unlayered), true, cache)
  }

  const FRAME_10 := Depacketized(10, true, [Meta(10, 10, true)], [1], NoExtra)

  lemma GapIsCached()
    ensures PopSpec(WHOLE_PACKETS, Held([WholePacket(10, 1)], None)) ==
            (Held([WholePacket(10, 1)], Some(Cached(0, 0, FRAME_10))), Nothing)
  {
    var q := [WholePacket(10, 1)];
    SinglePacketFrames(q);
    assert q[0..1] == q;
    assert Payloads(q) == [[1]];
    assert Metas(q) == [Meta(10, 10, true)];
    assert WHOLE_PACKETS.DepacketizeAll(true, [[1]], [], NoExtra).out == [1];
  }

  lemma PushGoesBefore(q: seq<Entry>, cache: Option<Cached>, n: nat, b: byte)
    requires 1 < n <= 10 && forall k | 0 <= k < |q| :: n != q[k].Seq()
    ensures Step(WHOLE_PACKETS, Held(q, cache), DoPush(Meta(n, n, true), [b])).0 ==
            Held(Inserted(q, WholePacket(n, b)), cache)
  {
  }

  lemma ThreeFramesRelease()
    ensures var q := [WholePacket(5, 2), WholePacket(7, 3), WholePacket(10, 1)];
            var (b, r) := PopSpec(WHOLE_PACKETS, Held(q, Some(Cached(0, 0, FRAME_10))));
            && b.core.queue == [WholePacket(7, 3), WholePacket(10, 1)]
            && b.core.lastEmitted == Some(5)
            && r == Popped(FRAME_10.(contiguous := false))
  {
    SinglePacketFrames([WholePacket(5, 2), WholePacket(7, 3), WholePacket(10, 1)]);
  }

  /**
   The cache does go wrong: after a gap, packet 10 is looked at and cached; packets 5 and 7 arrive; then the pop
   that takes out packet 5 gives out the contents of packet 10.
   */
  lemma StaleHit()
    ensures var b0 := Held([WholePacket(10, 1)], None);
            var b1 := PopSpec(WHOLE_PACKETS, b0).0;
            var b2 := Step(WHOLE_PACKETS, b1, DoPush(Meta(5, 5, true), [2])).0;
            var b3 := Step(WHOLE_PACKETS, b2, DoPush(Meta(7, 7, true), [3])).0;
            var (b4, r) := PopSpec(WHOLE_PACKETS, b3);
            && b3.core.queue == [WholePacket(5, 2), WholePacket(7, 3), WholePacket(10, 1)]
            && b4.core.queue == [WholePacket(7, 3), WholePacket(10, 1)]
            && b4.core.lastEmitted == Some(5)
            && r.Popped? && r.frame.data == [1] && r.frame.metas == [Meta(10, 10, true)]
  {
    hide PopSpec, Step, Inserted;
    var cache := Some(Cached(0, 0, FRAME_10));
    GapIsCached();
    PushGoesBefore([WholePacket(10, 1)], cache, 5, 2);
    InsertBefore(WholePacket(5, 2), WholePacket(10, 1));
    PushGoesBefore([WholePacket(5, 2), WholePacket(10, 1)], cache, 7, 3);
    InsertBetween(WholePacket(5, 2), WholePacket(7, 3), WholePacket(10, 1));
    ThreeFramesRelease();
  }

  lemma InsertBefore(a: Entry, c: Entry)
    requires a.Seq() < c.Seq()
    ensures Inserted([c], a) == [a, c]
  {
  }

  lemma InsertBetween(a: Entry, b: Entry, c: Entry)
    requires a.Seq() < b.Seq() < c.Seq()
    ensures Inserted([a, c], b) == [a, b, c]
  {
    assert [a, c][1..] == [c];
    assert Position([c], b.Seq()) == 0;
  }
}
