/**
 Many frames in flight: what the reordering buffer gives out when the packets of a whole stream come in any order,
 with repeats, while frames are popped in between.
 */
module StreamDelivery {
  import opened Bytes
  import opened Codec
  import opened Segments
  import opened Contiguity
  import opened ReorderBuffer
  import opened BufferRuns
  import opened Sets

  // ---------- Streams ----------

  /** The number of entries in the first frame of a stream: it ends with the first tail. */
  function FrameEnd(t: seq<Entry>): (n: nat)
    ensures n <= |t| && (|t| > 0 ==> n > 0)
    ensures forall k | 0 <= k < n - 1 :: !t[k].tail
    ensures 0 < n && (n < |t| || t[|t| - 1].tail) ==> t[n - 1].tail
    decreases |t|
  {
    if |t| == 0 then 0
    else if t[0].tail then 1
    else 1 + FrameEnd(t[1..])
  }

  /** Entry k + 1 goes on with the frame of entry k, or starts a new one behind a tail. */
  predicate Joined(t: seq<Entry>, k: nat)
    requires k + 1 < |t|
  {
    if t[k].tail then t[k + 1].head else t[k].Time() == t[k + 1].Time()
  }

  /** A stream as it is sent: consecutive numbers, whole frames, each with one timestamp, from a head to a tail. */
  predicate IsStream(t: seq<Entry>, base: nat) {
    && (forall k | 0 <= k < |t| :: t[k].Seq() == base + k)
    && (|t| > 0 ==> t[0].head && t[|t| - 1].tail)
    && (forall k | 0 <= k < |t| - 1 :: Joined(t, k))
  }

  /** The entries from a place on up to the end of the frame there. */
  function FrameFrom(t: seq<Entry>, k: nat): seq<Entry>
    requires k <= |t|
  {
    t[k..][..FrameEnd(t[k..])]
  }

  /** From whatever head a frame is depacketized on, there is no error, and the codec is left as it was. */
  ghost predicate Settles<S>(codec: Codec<S>, s: S, t: seq<Entry>) {
    forall k | 0 <= k < |t| && t[k].head ::
      var d := codec.DepacketizeAll(s, Payloads(FrameFrom(t, k)), [], NoExtra);
      d.error == None && d.state == s
  }

  /** The codec tells heads and tails as the stream has them. */
  ghost predicate Recognizes<S>(codec: Codec<S>, t: seq<Entry>) {
    forall x | x in t :: x.head == codec.isHead(x.data) && x.tail == codec.isTail(x.meta.marker, x.data)
  }

  /** What a pop gives for a frame that follows the last one. */
  function Given<S>(codec: Codec<S>, s: S, frame: seq<Entry>): PopResult
    requires |frame| > 0
  {
    var d := codec.DepacketizeAll(s, Payloads(frame), [], NoExtra);
    Popped(Depacketized(frame[0].Time(), true, Metas(frame), d.out, d.extra))
  }

  /** All the frames of a stream, in order. */
  function Frames<S>(codec: Codec<S>, s: S, t: seq<Entry>): seq<PopResult>
    decreases |t|
  {
    if |t| == 0 then [] else [Given(codec, s, FrameFrom(t, 0))] + Frames(codec, s, t[FrameEnd(t)..])
  }

  lemma FirstFrameEnds(t: seq<Entry>, base: nat)
    requires IsStream(t, base) && |t| > 0
    ensures var n := FrameEnd(t);
            && 0 < n <= |t| && t[n - 1].tail && FrameFrom(t, 0) == t[..n]
            && IsStream(t[n..], base + n)
  {
    hide FrameEnd, IsStream;
    LastIsTail(t, base);
    var n := FrameEnd(t);
    assert t[0..] == t;
    assert t[n - 1].tail;
    StreamAfter(t, base, n);
  }

  lemma LastIsTail(t: seq<Entry>, base: nat)
    requires IsStream(t, base) && |t| > 0
    ensures t[|t| - 1].tail
  {
  }

  lemma StreamAfter(t: seq<Entry>, base: nat, n: nat)
    requires IsStream(t, base) && 0 < n <= |t| && t[n - 1].tail
    ensures IsStream(t[n..], base + n)
  {
    var rest := t[n..];
    forall k | 0 <= k < |rest|
      ensures rest[k].Seq() == base + n + k
      ensures k < |rest| - 1 ==> Joined(rest, k)
    {
      assert rest[k] == t[n + k] && (k < |rest| - 1 ==> Joined(t, n + k));
    }
    if n < |t| {
      assert Joined(t, n - 1);
    }
  }

  /** The end of a frame is the only place that closes it. */
  lemma {:induction false} FrameEndIs(t: seq<Entry>, n: nat)
    requires 0 < n <= |t| && t[n - 1].tail && forall k | 0 <= k < n - 1 :: !t[k].tail
    ensures FrameEnd(t) == n
  {
    if |t| > 0 && !t[0].tail {
      FrameEndIs(t[1..], n - 1);
    }
  }

  lemma RestSettles<S>(codec: Codec<S>, s: S, t: seq<Entry>, n: nat)
    requires Settles(codec, s, t) && n <= |t|
    ensures Settles(codec, s, t[n..])
  {
    var rest := t[n..];
    forall k | 0 <= k < |rest| && rest[k].head
      ensures var d := codec.DepacketizeAll(s, Payloads(FrameFrom(rest, k)), [], NoExtra);
              d.error == None && d.state == s
    {
      assert rest[k..] == t[n + k..] && rest[k] == t[n + k];
    }
  }

  // ---------- One more frame in front ----------

  predicate IsFrame(a: seq<Entry>, base: nat) {
    && |a| > 0 && a[0].head && a[|a| - 1].tail
    && (forall k | 0 <= k < |a| :: a[k].Seq() == base + k && a[k].Time() == a[0].Time())
    && (forall k | 0 <= k < |a| - 1 :: !a[k].tail)
  }

  lemma InFront(a: seq<Entry>, t: seq<Entry>, base: nat)
    requires IsFrame(a, base) && IsStream(t, base + |a|)
    ensures IsStream(a + t, base)
  {
    var all := a + t;
    forall k | 0 <= k < |all| - 1 ensures Joined(all, k) {
      assert k >= |a| ==> Joined(t, k - |a|);
    }
  }

  lemma FrontEnds(a: seq<Entry>, t: seq<Entry>, base: nat, k: nat)
    requires IsFrame(a, base) && k < |a|
    ensures FrameEnd((a + t)[k..]) == |a| - k && FrameFrom(a + t, k) == a[k..]
  {
    FrameEndIs((a + t)[k..], |a| - k);
  }

  /** From whatever head of the frame on, the codec is left as it was. */
  ghost predicate SettlesToEnd<S>(codec: Codec<S>, s: S, a: seq<Entry>) {
    forall k | 0 <= k < |a| && a[k].head ::
      var d := codec.DepacketizeAll(s, Payloads(a[k..]), [], NoExtra);
      d.error == None && d.state == s
  }

  lemma FrontSettles<S>(codec: Codec<S>, s: S, a: seq<Entry>, t: seq<Entry>, base: nat)
    requires IsFrame(a, base) && Settles(codec, s, t) && SettlesToEnd(codec, s, a)
    ensures Settles(codec, s, a + t)
  {
    var all := a + t;
    forall k | 0 <= k < |all| && all[k].head
      ensures var d := codec.DepacketizeAll(s, Payloads(FrameFrom(all, k)), [], NoExtra);
              d.error == None && d.state == s
    {
      if k < |a| {
        FrontEnds(a, t, base, k);
      } else {
        assert all[k..] == t[k - |a|..] && all[k] == t[k - |a|];
      }
    }
  }

  lemma FrontComesFirst<S>(codec: Codec<S>, s: S, a: seq<Entry>, t: seq<Entry>, base: nat)
    requires IsFrame(a, base)
    ensures Frames(codec, s, a + t) == [Given(codec, s, a)] + Frames(codec, s, t)
  {
    FrontEnds(a, t, base, 0);
    assert (a + t)[0..] == a + t && a[0..] == a && (a + t)[|a|..] == t;
    hide FrameEnd, Given;
  }

  // ---------- Frames in the queue ----------

  predicate AllIn(q: seq<Entry>, t: seq<Entry>) {
    forall x | x in q :: x in t
  }

  /** What there is of t in one queue is in the other. */
  predicate Keeps(t: seq<Entry>, q: seq<Entry>, q': seq<Entry>) {
    forall x | x in t && x in q :: x in q'
  }

  /** Entries of a stream are told apart by their numbers. */
  lemma EntryAt(t: seq<Entry>, base: nat, x: Entry)
    requires IsStream(t, base) && x in t
    ensures base <= x.Seq() < base + |t| && t[x.Seq() - base] == x
  {
    var k :| 0 <= k < |t| && t[k] == x;
  }

  /** A run in the queue is one in the stream. */
  lemma RunIsInStream(q: seq<Entry>, t: seq<Entry>, base: nat, start: nat, stop: nat)
    requires IsStream(t, base) && AllIn(q, t) && Run(q, start, stop)
    ensures base <= q[start].Seq()
    ensures var k := q[start].Seq() - base;
            k + (stop - start) < |t| && q[start..stop + 1] == t[k..k + (stop - start) + 1]
  {
    var k := q[start].Seq() - base;
    EntryAt(t, base, q[start]);
    EntryAt(t, base, q[stop]);
    RunIsConsecutive(q, start, stop, stop);
    forall j | start <= j <= stop ensures k + (j - start) < |t| && t[k + (j - start)] == q[j] {
      RunIsConsecutive(q, start, stop, j);
      EntryAt(t, base, q[j]);
    }
    hide IsStream;
    var a, b := q[start..stop + 1], t[k..k + (stop - start) + 1];
    forall i | 0 <= i < |a| ensures a[i] == b[i] {
      assert a[i] == q[start + i];
    }
  }

  /** A complete frame in the queue is one of the stream, from some head of it on. */
  lemma SegmentIsFrame(q: seq<Entry>, t: seq<Entry>, base: nat, start: nat, stop: nat)
    requires IsStream(t, base) && AllIn(q, t) && IsSegment(q, start, stop)
    ensures start <= stop < |q| && base <= q[start].Seq()
    ensures var k := q[start].Seq() - base;
            k < |t| && t[k].head && t[k] == q[start] && q[start..stop + 1] == FrameFrom(t, k)
  {
    var k := q[start].Seq() - base;
    var n := stop + 1 - start;
    RunIsInStream(q, t, base, start, stop);
    SegmentEndsAtTail(q, t, base, start, stop);
    hide IsStream, IsSegment;
    var rest := t[k..];
    SliceOfRest(t, k, n);
    assert rest[..n] == q[start..stop + 1];
    assert q[start] == rest[..n][0] && q[stop] == rest[..n][n - 1];
    forall i | 0 <= i < n - 1 ensures !rest[i].tail {
      assert rest[..n][i] == q[start + i];
      NoTailInside(q, start, stop, start + i);
    }
    FrameEndIs(rest, n);
    assert t[k] == q[start];
    HeadOfSegment(q, start, stop);
  }

  lemma SliceOfRest(t: seq<Entry>, k: nat, n: nat)
    requires k + n <= |t|
    ensures t[k..][..n] == t[k..k + n]
  {
  }

  lemma NoTailInside(q: seq<Entry>, start: int, stop: nat, i: int)
    requires IsSegment(q, start, stop) && start <= i < stop
    ensures !q[i].tail
  {
    assert Linked(q, i);
  }

  lemma HeadOfSegment(q: seq<Entry>, start: int, stop: nat)
    requires IsSegment(q, start, stop)
    ensures q[start].head
  {
  }

  lemma SegmentEndsAtTail(q: seq<Entry>, t: seq<Entry>, base: nat, start: nat, stop: nat)
    requires IsStream(t, base) && AllIn(q, t) && IsSegment(q, start, stop)
    ensures q[stop].tail
  {
    EntryAt(t, base, q[stop]);
    if !q[stop].tail {
      EntryAt(t, base, q[stop + 1]);
      JoinedAt(t, base, q[stop].Seq() - base);
    }
  }

  lemma JoinedAt(t: seq<Entry>, base: nat, k: nat)
    requires IsStream(t, base) && k + 1 < |t|
    ensures Joined(t, k)
  {
  }

  /** All of the next frame has arrived. */
  predicate NextIsThere(q: seq<Entry>, t: seq<Entry>) {
    forall k | 0 <= k < FrameEnd(t) :: t[k] in q
  }

  /** Then it stands at the front of the queue. */
  lemma NextIsInFront(q: seq<Entry>, t: seq<Entry>, base: nat)
    requires IsStream(t, base) && Sorted(q) && AllIn(q, t) && |t| > 0 && NextIsThere(q, t)
    ensures FrameEnd(t) <= |q| && q[..FrameEnd(t)] == t[..FrameEnd(t)]
  {
    var n := FrameEnd(t);
    assert forall k | 0 <= k < n :: t[k] in q;
    hide FrameEnd, NextIsThere;
    SmallestInFront(q, t, base, n);
  }

  lemma {:induction false} SmallestInFront(q: seq<Entry>, t: seq<Entry>, base: nat, n: nat)
    requires IsStream(t, base) && Sorted(q) && AllIn(q, t) && n <= |t|
    requires forall k | 0 <= k < n :: t[k] in q
    ensures n <= |q| && q[..n] == t[..n]
  {
    hide IsStream, Sorted, AllIn;
    if n > 0 {
      SmallestInFront(q, t, base, n - 1);
      SamePlaces(q, t, n - 1);
      assert t[n - 1] in q;
      var p :| 0 <= p < |q| && q[p] == t[n - 1];
      SmallestIsNext(q, t, base, n - 1, p);
      assert q[..n] == q[..n - 1] + [q[n - 1]] && t[..n] == t[..n - 1] + [t[n - 1]];
    }
  }

  lemma SamePlaces(q: seq<Entry>, t: seq<Entry>, n: nat)
    requires n <= |q| && n <= |t| && q[..n] == t[..n]
    ensures forall j | 0 <= j < n :: q[j] == t[j]
  {
    forall j | 0 <= j < n ensures q[j] == t[j] {
      assert q[..n][j] == t[..n][j];
    }
  }

  lemma SmallestIsNext(q: seq<Entry>, t: seq<Entry>, base: nat, n: nat, p: nat)
    requires IsStream(t, base) && Sorted(q) && AllIn(q, t) && n < |t| && n <= |q| && p < |q| && q[p] == t[n]
    requires forall j | 0 <= j < n :: q[j] == t[j]
    ensures n < |q| && q[n] == t[n]
  {
    assert p >= n;
    EntryAt(t, base, q[n]);
  }

  lemma NextIsFirst(q: seq<Entry>, t: seq<Entry>, base: nat)
    requires IsStream(t, base) && Sorted(q) && AllIn(q, t) && |t| > 0 && NextIsThere(q, t)
    ensures SegmentsOf(q) != [] && SegmentsOf(q)[0] == (0, FrameEnd(t) - 1)
  {
    LastIsTail(t, base);
    hide IsStream, Sorted, AllIn, NextIsThere, SegmentsOf, IsScan, IsSegment;
    var n := FrameEnd(t);
    NextIsInFront(q, t, base);
    FrontIsSegment(q, t, base, n);
    FirstSegmentIs(q, n - 1);
  }

  lemma FirstSegmentIs(q: seq<Entry>, stop: nat)
    requires IsSegment(q, 0, stop)
    ensures SegmentsOf(q) != [] && SegmentsOf(q)[0] == (0, stop)
  {
    hide SegmentsOf, IsSegment;
    assert stop < |q| by {
      SegmentIsInside(q, 0, stop);
    }
    var k :| 0 <= k < |SegmentsOf(q)| && SegmentsOf(q)[k] == (0, stop);
  }

  lemma SegmentIsInside(q: seq<Entry>, start: int, stop: int)
    requires IsSegment(q, start, stop)
    ensures 0 <= start <= stop < |q|
  {
  }

  lemma FrontIsSegment(q: seq<Entry>, t: seq<Entry>, base: nat, n: nat)
    requires IsStream(t, base) && 0 < n <= |t| && n <= |q| && q[..n] == t[..n]
    requires t[n - 1].tail && forall k | 0 <= k < n - 1 :: !t[k].tail
    ensures IsSegment(q, 0, n - 1)
  {
    forall k | 0 <= k < n ensures q[k] == t[k] {
      assert q[..n][k] == t[..n][k];
    }
    forall i | 0 <= i < n - 1 ensures Linked(q, i) {
      JoinedAt(t, base, i);
    }
  }

  /** The frame at hand follows the last one only if it is the next one. */
  lemma OnlyNextFollows(c: Core, t: seq<Entry>, base: nat)
    requires c.Valid() && IsStream(t, base) && AllIn(c.queue, t)
    requires base > 0 && c.lastEmitted == Some(base - 1)
    requires SegmentsOf(c.queue) != []
    ensures var (start, stop) := SegmentsOf(c.queue)[0];
            start < |c.queue| && (FollowsLast(c.queue, c.lastEmitted, start) ==> NextIsThere(c.queue, t))
  {
    var q := c.queue;
    var (start, stop) := SegmentsOf(q)[0];
    SegmentIsFrame(q, t, base, start, stop);
    if FollowsLast(q, c.lastEmitted, start) {
      assert q[0].Seq() == base;
      EntryAt(t, base, q[0]);
      assert start == 0;
      assert t[0..] == t;
      forall k | 0 <= k < FrameEnd(t) ensures t[k] in q {
        assert t[..FrameEnd(t)][k] == q[0..stop + 1][k];
      }
    }
  }

  /** The number of frames whose last packet is in the queue. */
  function Tails(q: seq<Entry>): nat
    decreases |q|
  {
    if |q| == 0 then 0 else Tails(q[..|q| - 1]) + if q[|q| - 1].tail then 1 else 0
  }

  /** There are no more complete frames than last packets. */
  lemma {:induction false} NoMoreThanTails(q: seq<Entry>, t: seq<Entry>, base: nat, n: nat)
    requires IsStream(t, base) && AllIn(q, t) && n <= |q|
    ensures |SegmentsTo(q, n)| <= Tails(q[..n])
  {
    if n > 0 {
      NoMoreThanTails(q, t, base, n - 1);
      assert q[..n][..n - 1] == q[..n - 1];
      if Reaches(q, n - 1) && Ends(q, n - 1) {
        SegmentStartsLeftmost(q, LeftmostStart(q, n - 1), n - 1);
        SegmentEndsAtTail(q, t, base, LeftmostStart(q, n - 1), n - 1);
      }
    }
  }

  // ---------- The receiver ----------

  /** A buffer that has given out all before base, and holds packets of what is left of a stream only. */
  ghost predicate Receives<S>(codec: Codec<S>, s: S, b: State<S>, t: seq<Entry>, base: nat) {
    && b.core.Valid() && b.core.holdBack > 0 && b.core.filter.Unlayered?
    && (b.core.lastEmitted.Some? ==> base == b.core.lastEmitted.value + 1)
    && b.depack == s && CacheInv(codec, s, b)
    && IsStream(t, base) && Recognizes(codec, t) && Settles(codec, s, t)
    && AllIn(b.core.queue, t)
  }

  /** A packet of the stream, or one that came out already. */
  predicate Expected(lastEmitted: Option<nat>, t: seq<Entry>, meta: Meta, data: Bytes) {
    (lastEmitted.Some? && meta.seqNo <= lastEmitted.value) || exists x :: x in t && x.meta == meta && x.data == data
  }

  lemma PushTakesIn<S>(codec: Codec<S>, c: Core, t: seq<Entry>, base: nat, x: Entry)
    requires c.Valid() && IsStream(t, base) && Recognizes(codec, t) && x in t && AllIn(c.queue, t)
    requires c.lastEmitted.Some? ==> base == c.lastEmitted.value + 1
    ensures var c' := PushSpec(codec, c, x.meta, x.data);
            && (forall y | y in c'.queue :: y in t)
            && (forall y | y in c.queue :: y in c'.queue)
            && x in c'.queue
  {
    EntryAt(t, base, x);
    if Contains(c.queue, x.Seq()) {
      var k :| 0 <= k < |c.queue| && c.queue[k].Seq() == x.Seq();
      EntryAt(t, base, c.queue[k]);
    } else {
      InsertKeepsSorted(c.queue, x);
    }
    hide IsStream, Inserted, Contains;
  }

  /** A packet is put into the queue, unless it is there, or late. */
  lemma PushReceives<S>(codec: Codec<S>, s: S, b: State<S>, t: seq<Entry>, base: nat, meta: Meta, data: Bytes)
    requires Receives(codec, s, b, t, base) && Expected(b.core.lastEmitted, t, meta, data)
    ensures var b' := b.(core := PushSpec(codec, b.core, meta, data));
            && Receives(codec, s, b', t, base)
            && b'.core.lastEmitted == b.core.lastEmitted
            && AllIn(b.core.queue, b'.core.queue)
            && (forall x | x in t && x.meta == meta && x.data == data :: x in b'.core.queue)
  {
    var c := b.core;
    PushKeepsValid(codec, c, meta, data);
    PushKeepsCacheInv(codec, s, b, meta, data);
    forall x | x in t && x.meta == meta && x.data == data
      ensures var c' := PushSpec(codec, c, meta, data);
              && (forall y | y in c'.queue :: y in t)
              && (forall y | y in c.queue :: y in c'.queue)
              && x in c'.queue
    {
      PushTakesIn(codec, c, t, base, x);
    }
    hide CacheInv, Settles, IsStream, Recognizes, Core.Valid, Inserted, Contains;
  }

  /** The frame at hand, whichever it is, is one of the stream from a head on. */
  lemma AtHand(q: seq<Entry>, t: seq<Entry>, base: nat)
    requires IsStream(t, base) && AllIn(q, t) && SegmentsOf(q) != []
    ensures var (start, stop) := SegmentsOf(q)[0];
            && start <= stop < |q| && base <= q[start].Seq() < base + |t|
            && t[q[start].Seq() - base].head
            && q[start..stop + 1] == FrameFrom(t, q[start].Seq() - base)
  {
    var (start, stop) := SegmentsOf(q)[0];
    assert IsSegment(q, start, stop);
    SegmentIsFrame(q, t, base, start, stop);
  }

  lemma FromHead<S>(codec: Codec<S>, s: S, t: seq<Entry>, k: nat)
    requires Settles(codec, s, t) && k < |t| && t[k].head
    ensures var entries := FrameFrom(t, k);
            && |entries| > 0
            && DepacketizeEntries(codec, s, entries).0 == s
            && DepacketizeEntries(codec, s, entries).1.Made?
            && Popped(DepacketizeEntries(codec, s, entries).1.frame) == Given(codec, s, entries)
  {
    hide Metas, Payloads;
  }

  /** It is depacketized without an error, and leaves the codec as it was. */
  lemma FrameAtHand<S>(codec: Codec<S>, s: S, b: State<S>, t: seq<Entry>, base: nat)
    requires Receives(codec, s, b, t, base) && SegmentsOf(b.core.queue) != []
    ensures var q := b.core.queue;
            var (start, stop) := SegmentsOf(q)[0];
            && start <= stop < |q| && base <= q[start].Seq() < base + |t|
            && var entries := FrameFrom(t, q[start].Seq() - base);
               && q[start..stop + 1] == entries && |entries| > 0
               && DepacketizeEntries(codec, s, entries).0 == s
               && FreshFrame(codec, s, q).Made?
               && Popped(FreshFrame(codec, s, q).frame) == Given(codec, s, entries)
  {
    hide SegmentsOf, DepacketizeEntries, Settles, Recognizes, Given, FrameFrom, IsStream, CacheInv, Core.Valid;
    var q := b.core.queue;
    AtHand(q, t, base);
    FromHead(codec, s, t, q[SegmentsOf(q)[0].0].Seq() - base);
  }

  lemma LooksFromStart<S>(codec: Codec<S>, s: S, b: State<S>, t: seq<Entry>, base: nat)
    requires Receives(codec, s, b, t, base)
    ensures LooksAfresh(codec, s, b) && PopSpec(codec, b).0.depack == s
    ensures CacheInv(codec, s, PopSpec(codec, b).0)
  {
    hide SegmentsOf, DepacketizeEntries, Settles, Recognizes, Given, FrameFrom, IsStream, CacheInv, Core.Valid;
    if SegmentsOf(b.core.queue) != [] {
      FrameAtHand(codec, s, b, t, base);
    }
    assert LooksAfresh(codec, s, b);
    PopKeepsCacheInv(codec, s, b);
  }

  /** The next frame is not there, but another one is at hand, and nothing holds it back. */
  ghost predicate Skips(c: Core, t: seq<Entry>) {
    && !NextIsThere(c.queue, t)
    && SegmentsOf(c.queue) != []
    && (c.lastEmitted.None? || |SegmentsOf(c.queue)| >= c.holdBack)
  }

  /** Once something came out, it is enough that fewer last packets are in the queue than frames are held back. */
  lemma FewTailsDoNotSkip<S>(codec: Codec<S>, s: S, b: State<S>, t: seq<Entry>, base: nat)
    requires Receives(codec, s, b, t, base) && b.core.lastEmitted.Some? && Tails(b.core.queue) < b.core.holdBack
    ensures !Skips(b.core, t)
  {
    var q := b.core.queue;
    NoMoreThanTails(q, t, base, |q|);
    assert q[..|q|] == q;
  }

  /** A frame waits exactly when the next one is not there, and it is not skipped to. */
  lemma WaitsIff<S>(codec: Codec<S>, s: S, b: State<S>, t: seq<Entry>, base: nat)
    requires Receives(codec, s, b, t, base) && SegmentsOf(b.core.queue) != []
    ensures Waits(b.core) <==> !NextIsThere(b.core.queue, t) && !Skips(b.core, t)
  {
    var c := b.core;
    hide Settles, Recognizes, CacheInv, SegmentsOf, DepacketizeEntries, Given, FrameFrom;
    FrameAtHand(codec, s, b, t, base);
    if NextIsThere(c.queue, t) {
      NextIsFirst(c.queue, t, base);
      NextIsInFront(c.queue, t, base);
      assert c.queue[0] == c.queue[..FrameEnd(t)][0] == t[0];
    } else if c.lastEmitted.Some? {
      OnlyNextFollows(c, t, base);
    }
  }

  lemma NextFollows<S>(codec: Codec<S>, s: S, b: State<S>, t: seq<Entry>, base: nat)
    requires Receives(codec, s, b, t, base) && |t| > 0 && NextIsThere(b.core.queue, t)
    ensures var q := b.core.queue;
            && SegmentsOf(q) != [] && SegmentsOf(q)[0] == (0, FrameEnd(t) - 1)
            && FrameEnd(t) <= |q| && q[..FrameEnd(t)] == t[..FrameEnd(t)]
            && FollowsLast(q, b.core.lastEmitted, 0)
  {
    hide Settles, Recognizes, CacheInv, SegmentsOf;
    var q := b.core.queue;
    NextIsFirst(q, t, base);
    NextIsInFront(q, t, base);
    assert q[0] == q[..FrameEnd(t)][0] == t[0];
  }

  /** What is behind the next frame in the queue is of the rest of the stream. */
  lemma RestIsBehind(q: seq<Entry>, t: seq<Entry>, base: nat, n: nat)
    requires IsStream(t, base) && Sorted(q) && AllIn(q, t)
    requires 0 < n <= |t| && n <= |q| && q[..n] == t[..n]
    ensures AllIn(q[n..], t[n..]) && Keeps(t[n..], q, q[n..])
  {
    forall j | 0 <= j < n ensures q[j] == t[j] {
      assert q[..n][j] == t[..n][j];
    }
    forall x | x in q[n..] ensures x in t[n..] {
      EntryAt(t, base, x);
      assert t[n..][x.Seq() - base - n] == x;
    }
    forall x | x in t[n..] && x in q ensures x in q[n..] {
      var k :| 0 <= k < |t[n..]| && t[n..][k] == x;
      assert t[n + k] == x;
      var j :| 0 <= j < |q| && q[j] == x;
      assert q[n..][j - n] == x;
    }
  }

  lemma ReceivesMeans<S>(codec: Codec<S>, s: S, b: State<S>, t: seq<Entry>, base: nat)
    requires Receives(codec, s, b, t, base)
    ensures b.core.Valid() && CacheInv(codec, s, b) && b.core.filter.Unlayered?
    ensures IsStream(t, base)
  {
  }

  /** Where the next frame is, and what is made of it. */
  lemma NextIsMade<S>(codec: Codec<S>, s: S, b: State<S>, t: seq<Entry>, base: nat)
    requires Receives(codec, s, b, t, base) && |t| > 0 && NextIsThere(b.core.queue, t)
    ensures var n, q := FrameEnd(t), b.core.queue;
            && 0 < n <= |q| && n <= |t| && q[..n] == t[..n]
            && SegmentsOf(q) != [] && SegmentsOf(q)[0] == (0, n - 1)
            && q[n - 1].Seq() == base + n - 1
            && FollowsLast(q, b.core.lastEmitted, 0)
            && FreshFrame(codec, s, q).Made?
            && |FrameFrom(t, 0)| > 0
            && Popped(FreshFrame(codec, s, q).frame) == Given(codec, s, FrameFrom(t, 0))
  {
    hide Settles, Recognizes, CacheInv, SegmentsOf, DepacketizeEntries, FrameFrom, NextIsThere, FollowsLast, FreshFrame, Given,
      Core.Valid;
    var n, q := FrameEnd(t), b.core.queue;
    NextFollows(codec, s, b, t, base);
    FrameAtHand(codec, s, b, t, base);
    hide FrameEnd;
    assert q[0] == q[..n][0] == t[0];
    assert q[n - 1] == q[..n][n - 1] == t[n - 1];
  }

  /** The next frame, once it is there, is what a pop gives, whole and in place. */
  lemma PopGivesNext<S>(codec: Codec<S>, s: S, b: State<S>, t: seq<Entry>, base: nat)
    requires Receives(codec, s, b, t, base) && Agrees(b) && |t| > 0 && NextIsThere(b.core.queue, t)
    ensures var n := FrameEnd(t);
            && 0 < n <= |t| && n <= |b.core.queue|
            && |FrameFrom(t, 0)| > 0
            && PopSpec(codec, b).1.Popped? && PopSpec(codec, b).1 == Given(codec, s, FrameFrom(t, 0))
            && PopSpec(codec, b).0.core == b.core.(lastEmitted := Some(base + n - 1), queue := b.core.queue[n..])
  {
    hide Receives, CacheInv, SegmentsOf, FrameFrom, NextIsThere, FollowsLast, LooksAfresh, FreshFrame, Agrees, PopSpec,
      PopCore, FrameEnd, Core.Valid, Metas, Payloads;
    NextIsMade(codec, s, b, t, base);
    LooksFromStart(codec, s, b, t, base);
    ReceivesMeans(codec, s, b, t, base);
    PopRefinesFresh(codec, s, b);
    MadeFrameComesOut(b.core, FrameEnd(t), FreshFrame(codec, s, b.core.queue).frame);
  }

  lemma RestIsRecognized<S>(codec: Codec<S>, t: seq<Entry>, n: nat)
    requires Recognizes(codec, t) && n <= |t|
    ensures Recognizes(codec, t[n..])
  {
    assert forall x | x in t[n..] :: x in t;
  }

  lemma RestIsReceived<S>(codec: Codec<S>, s: S, b: State<S>, t: seq<Entry>, base: nat, n: nat, b': State<S>)
    requires Receives(codec, s, b, t, base) && 0 < n <= |t| && t[n - 1].tail
    requires n <= |b.core.queue| && b.core.queue[..n] == t[..n]
    requires b'.core == b.core.(lastEmitted := Some(base + n - 1), queue := b.core.queue[n..])
    requires b'.core.Valid() && b'.depack == s && CacheInv(codec, s, b')
    ensures Receives(codec, s, b', t[n..], base + n)
    ensures Keeps(t[n..], b.core.queue, b'.core.queue)
  {
    StreamAfter(t, base, n);
    RestSettles(codec, s, t, n);
    RestIsRecognized(codec, t, n);
    RestIsBehind(b.core.queue, t, base, n);
    hide Settles, Recognizes, CacheInv, IsStream, Core.Valid;
  }

  lemma PopLeaves<S>(codec: Codec<S>, s: S, b: State<S>, t: seq<Entry>, base: nat)
    requires Receives(codec, s, b, t, base)
    ensures var b' := PopSpec(codec, b).0;
            b'.core.Valid() && b'.depack == s && CacheInv(codec, s, b')
  {
    LooksFromStart(codec, s, b, t, base);
    ReceivesMeans(codec, s, b, t, base);
    hide Receives, SegmentsOf, PopSpec, CacheInv, Core.Valid, LooksAfresh, FollowsLast;
    PopTakes(codec, b);
  }

  /** And the buffer goes on with the rest of the stream. */
  lemma PopGoesOn<S>(codec: Codec<S>, s: S, b: State<S>, t: seq<Entry>, base: nat, n: nat)
    requires Receives(codec, s, b, t, base) && Agrees(b) && |t| > 0 && NextIsThere(b.core.queue, t) && n == FrameEnd(t)
    requires 0 < n <= |t| && t[n - 1].tail
    ensures var b' := PopSpec(codec, b).0;
            Receives(codec, s, b', t[n..], base + n) && Keeps(t[n..], b.core.queue, b'.core.queue)
  {
    hide *;
    PopLeaves(codec, s, b, t, base);
    NextIsMade(codec, s, b, t, base);
    PopGivesNext(codec, s, b, t, base);
    RestIsReceived(codec, s, b, t, base, n, PopSpec(codec, b).0);
  }

  /** Otherwise, if nothing is skipped, a pop gives nothing and changes nothing. */
  lemma PopKeepsWaiting<S>(codec: Codec<S>, s: S, b: State<S>, t: seq<Entry>, base: nat)
    requires Receives(codec, s, b, t, base) && Agrees(b) && !Skips(b.core, t)
    requires |t| == 0 || !NextIsThere(b.core.queue, t)
    ensures var (b', r) := PopSpec(codec, b);
            r == Nothing && b'.core == b.core && Receives(codec, s, b', t, base)
  {
    hide Settles, Recognizes, CacheInv, SegmentsOf, IsStream, FollowsLast, LooksAfresh, FreshFrame, Given, FrameFrom;
    LooksFromStart(codec, s, b, t, base);
    PopRefinesFresh(codec, s, b);
    if SegmentsOf(b.core.queue) != [] {
      FrameAtHand(codec, s, b, t, base);
      WaitsIff(codec, s, b, t, base);
    }
  }

  lemma NotTheNext(q: seq<Entry>, t: seq<Entry>, k: nat, start: nat, stop: nat)
    requires start <= stop < |q| && k < |t| && q[start..stop + 1] == FrameFrom(t, k) && !NextIsThere(q, t)
    ensures k > 0
  {
    if k == 0 {
      assert t[0..] == t;
      forall i | 0 <= i < FrameEnd(t) ensures t[i] in q {
        assert t[..FrameEnd(t)][i] == q[start..stop + 1][i];
      }
    }
  }

  /** The first packet number in the frame from a place on. */
  lemma FirstNumber<S>(codec: Codec<S>, s: S, t: seq<Entry>, base: nat, k: nat)
    requires IsStream(t, base) && k < |t|
    ensures |FrameFrom(t, k)| > 0
    ensures var metas := Given(codec, s, FrameFrom(t, k)).frame.metas;
            |metas| > 0 && metas[0].seqNo == base + k
  {
    hide FrameEnd;
    assert |t[k..]| > 0 && FrameFrom(t, k)[0] == t[k];
  }

  /** A pop that skips gives a frame that is not the next one. */
  lemma PopGivesAnother<S>(codec: Codec<S>, s: S, b: State<S>, t: seq<Entry>, base: nat)
    requires Receives(codec, s, b, t, base) && Agrees(b) && Skips(b.core, t)
    ensures |t| > 0 && PopSpec(codec, b).1 != Nothing && PopSpec(codec, b).1 != Given(codec, s, FrameFrom(t, 0))
  {
    hide Settles, Recognizes, CacheInv, SegmentsOf, IsStream, FollowsLast, LooksAfresh, FreshFrame, FrameFrom;
    LooksFromStart(codec, s, b, t, base);
    PopRefinesFresh(codec, s, b);
    FrameAtHand(codec, s, b, t, base);
    WaitsIff(codec, s, b, t, base);
    var q := b.core.queue;
    var (start, stop) := SegmentsOf(q)[0];
    var k := q[start].Seq() - base;
    NotTheNext(q, t, k, start, stop);
    FirstNumber(codec, s, t, base, k);
    FirstNumber(codec, s, t, base, 0);
  }

  // ---------- Whole runs ----------

  /** What came out of a run: frames, and errors. */
  function Delivered(results: seq<PopResult>): seq<PopResult> {
    if results == [] then []
    else (if results[0] == Nothing then [] else [results[0]]) + Delivered(results[1..])
  }

  lemma DeliveredNext(r: PopResult, rest: seq<PopResult>)
    ensures Delivered([r] + rest) == (if r == Nothing then [] else [r]) + Delivered(rest)
  {
    assert ([r] + rest)[1..] == rest;
  }

  /** All packets that come in belong to the stream. */
  ghost predicate AllExpected(ops: seq<Op>, t: seq<Entry>, lastEmitted: Option<nat>) {
    forall k | 0 <= k < |ops| && ops[k].DoPush? :: Expected(lastEmitted, t, ops[k].meta, ops[k].data)
  }

  /** What is left of the stream after a pop that does not skip. */
  function LeftAfterPop(q: seq<Entry>, t: seq<Entry>): seq<Entry> {
    if |t| > 0 && NextIsThere(q, t) then t[FrameEnd(t)..] else t
  }

  /** No pop of a run skips a frame. */
  ghost predicate NeverSkips<S>(codec: Codec<S>, b: State<S>, t: seq<Entry>, ops: seq<Op>)
    decreases |ops|
  {
    |ops| == 0 ||
    if ops[0].DoPush? then NeverSkips(codec, BufferRuns.Step(codec, b, ops[0]).0, t, ops[1..])
    else !Skips(b.core, t) && NeverSkips(codec, BufferRuns.Step(codec, b, ops[0]).0, LeftAfterPop(b.core.queue, t), ops[1..])
  }

  lemma ExpectedLater(t: seq<Entry>, base: nat, n: nat, lastEmitted: Option<nat>, ops: seq<Op>)
    requires IsStream(t, base) && 0 < n <= |t| && AllExpected(ops, t, lastEmitted)
    requires lastEmitted.Some? ==> base == lastEmitted.value + 1
    ensures AllExpected(ops, t[n..], Some(base + n - 1))
  {
    forall k | 0 <= k < |ops| && ops[k].DoPush?
      ensures Expected(Some(base + n - 1), t[n..], ops[k].meta, ops[k].data)
    {
      if !(lastEmitted.Some? && ops[k].meta.seqNo <= lastEmitted.value) {
        var x :| x in t && x.meta == ops[k].meta && x.data == ops[k].data;
        EntryAt(t, base, x);
        assert x.Seq() > base + n - 1 ==> t[n..][x.Seq() - base - n] == x;
      }
    }
  }

  lemma ExpectedNext(ops: seq<Op>, t: seq<Entry>, lastEmitted: Option<nat>)
    requires |ops| > 0 && AllExpected(ops, t, lastEmitted)
    ensures ops[0].DoPush? ==> Expected(lastEmitted, t, ops[0].meta, ops[0].data)
    ensures AllExpected(ops[1..], t, lastEmitted)
  {
    assert forall k | 0 <= k < |ops[1..]| :: ops[1..][k] == ops[k + 1];
  }

  /** One pop when the next frame, of n entries, is there. */
  lemma PopTakesNext<S>(codec: Codec<S>, s: S, b: State<S>, t: seq<Entry>, base: nat, n: nat, ops: seq<Op>)
    requires Receives(codec, s, b, t, base) && Agrees(b) && |t| > 0 && NextIsThere(b.core.queue, t)
    requires n == FrameEnd(t) && 0 < n <= |t| && t[n - 1].tail && IsStream(t, base)
    requires AllExpected(ops, t, b.core.lastEmitted)
    ensures var (b', r) := PopSpec(codec, b);
            && Receives(codec, s, b', t[n..], base + n)
            && AllExpected(ops, t[n..], b'.core.lastEmitted)
            && |FrameFrom(t, 0)| > 0 && r.Popped? && r == Given(codec, s, FrameFrom(t, 0))
            && Keeps(t[n..], b.core.queue, b'.core.queue)
  {
    hide *;
    PopGivesNext(codec, s, b, t, base);
    PopGoesOn(codec, s, b, t, base, n);
    ExpectedBefore(codec, s, b, t, base);
    ExpectedLater(t, base, n, b.core.lastEmitted, ops);
  }

  lemma ExpectedBefore<S>(codec: Codec<S>, s: S, b: State<S>, t: seq<Entry>, base: nat)
    requires Receives(codec, s, b, t, base)
    ensures b.core.lastEmitted.Some? ==> base == b.core.lastEmitted.value + 1
  {
  }

  lemma FramesNext<S>(codec: Codec<S>, s: S, t: seq<Entry>, n: nat)
    requires |t| > 0 && n == FrameEnd(t) && |FrameFrom(t, 0)| > 0
    ensures Frames(codec, s, t) == [Given(codec, s, FrameFrom(t, 0))] + Frames(codec, s, t[n..])
  {
    hide FrameEnd, FrameFrom, Given;
  }

  /** One pop of a buffer that receives a stream, when its cache can be trusted and it does not skip. */
  lemma PopReceives<S>(codec: Codec<S>, s: S, b: State<S>, t: seq<Entry>, base: nat, ops: seq<Op>)
    returns (base': nat)
    requires Receives(codec, s, b, t, base) && Agrees(b) && !Skips(b.core, t)
    requires AllExpected(ops, t, b.core.lastEmitted)
    ensures var (b', r) := PopSpec(codec, b);
            var t' := LeftAfterPop(b.core.queue, t);
            && Receives(codec, s, b', t', base')
            && AllExpected(ops, t', b'.core.lastEmitted)
            && Frames(codec, s, t) == (if r == Nothing then [] else [r]) + Frames(codec, s, t')
            && Keeps(t', b.core.queue, b'.core.queue)
            && (r == Nothing <==> |t| == 0 || !NextIsThere(b.core.queue, t))
  {
    hide *;
    if |t| > 0 && NextIsThere(b.core.queue, t) {
      var n := NextEnds(codec, s, b, t, base);
      base' := base + n;
      PopTakesNext(codec, s, b, t, base, n, ops);
      FramesNext(codec, s, t, n);
    } else {
      base' := base;
      PopKeepsWaiting(codec, s, b, t, base);
      NothingTaken(codec, s, b, t);
    }
  }

  lemma NextEnds<S>(codec: Codec<S>, s: S, b: State<S>, t: seq<Entry>, base: nat) returns (n: nat)
    requires Receives(codec, s, b, t, base) && |t| > 0 && NextIsThere(b.core.queue, t)
    ensures n == FrameEnd(t) && 0 < n <= |t| && t[n - 1].tail && IsStream(t, base)
    ensures LeftAfterPop(b.core.queue, t) == t[n..]
  {
    ReceivesMeans(codec, s, b, t, base);
    FirstFrameEnds(t, base);
    n := FrameEnd(t);
  }

  lemma NothingTaken<S>(codec: Codec<S>, s: S, b: State<S>, t: seq<Entry>)
    requires |t| == 0 || !NextIsThere(b.core.queue, t)
    ensures LeftAfterPop(b.core.queue, t) == t
    ensures [] + Frames(codec, s, t) == Frames(codec, s, t) && Keeps(t, b.core.queue, b.core.queue)
  {
  }

  // ---------- With whatever is cached ----------

  function Uncached<S>(b: State<S>): State<S> {
    b.(cache := None)
  }

  lemma UncachedReceives<S>(codec: Codec<S>, s: S, b: State<S>, t: seq<Entry>, base: nat)
    requires Receives(codec, s, b, t, base)
    ensures Receives(codec, s, Uncached(b), t, base) && Agrees(Uncached(b))
  {
  }

  /** The cache decides which frame comes out, but neither whether one does, nor what becomes of the queue. */
  lemma SameCore<S>(codec: Codec<S>, s: S, b: State<S>, t: seq<Entry>, base: nat)
    requires Receives(codec, s, b, t, base)
    ensures var (b1, r1) := PopSpec(codec, b);
            var (b2, r2) := PopSpec(codec, Uncached(b));
            && b1.core == b2.core && (r1 == Nothing <==> r2 == Nothing)
            && (r1 == r2 || (r1.Popped? && r2.Popped?)) && (r1.Popped? && r1 == r2 ==> Agrees(b)) && (Agrees(b) ==> r1 == r2)
  {
    hide Receives, CacheInv, SegmentsOf, LooksAfresh, FollowsLast, DepacketizeEntries, Core.Valid, FreshFrame, Given,
      FrameFrom, Agrees;
    ReceivesMeans(codec, s, b, t, base);
    LooksFromStart(codec, s, b, t, base);
    UncachedReceives(codec, s, b, t, base);
    LooksFromStart(codec, s, Uncached(b), t, base);
    ReceivesMeans(codec, s, Uncached(b), t, base);
    PopRefinesFresh(codec, s, b);
    PopRefinesFresh(codec, s, Uncached(b));
    if SegmentsOf(b.core.queue) != [] {
      FrameAtHand(codec, s, b, t, base);
    }
  }

  lemma AgreesIffClean<S>(b: State<S>, clean: bool)
    requires CleanIff(b, clean)
    ensures Agrees(b) <==> (Hit(b) ==> clean)
  {
  }

  /** Whether the cache can be trusted after a pop. */
  lemma PopIsClean<S>(codec: Codec<S>, s: S, b: State<S>, t: seq<Entry>, base: nat, clean: bool)
    requires Receives(codec, s, b, t, base) && CleanIff(b, clean)
    ensures CleanIff(PopSpec(codec, b).0, clean || Refills(b))
  {
    hide PopSpec, CacheInv, SegmentsOf, LooksAfresh, IsStream, Settles, CleanIff;
    LooksFromStart(codec, s, b, t, base);
    PopKeepsClean(codec, s, b, clean);
  }

  lemma SameReceives<S>(codec: Codec<S>, s: S, b: State<S>, b': State<S>, t: seq<Entry>, base: nat)
    requires Receives(codec, s, b, t, base) && b'.core == b.core && b'.depack == s && CacheInv(codec, s, b')
    ensures Receives(codec, s, b', t, base)
  {
    hide CacheInv, Settles, IsStream, Recognizes, Core.Valid;
  }

  /**
   One pop that does not skip, with whatever is cached: the buffer goes on as it would without a cache, and a frame that
   comes out is the next one if and only if it is not stale.
   */
  lemma AnyPopReceives<S>(codec: Codec<S>, s: S, b: State<S>, t: seq<Entry>, base: nat, ops: seq<Op>)
    returns (base': nat, next: PopResult)
    requires Receives(codec, s, b, t, base) && !Skips(b.core, t)
    requires AllExpected(ops, t, b.core.lastEmitted)
    ensures var (b', r) := PopSpec(codec, b);
            var t' := LeftAfterPop(b.core.queue, t);
            && Receives(codec, s, b', t', base')
            && AllExpected(ops, t', b'.core.lastEmitted)
            && Frames(codec, s, t) == (if next == Nothing then [] else [next]) + Frames(codec, s, t')
            && Keeps(t', b.core.queue, b'.core.queue)
            && (r == Nothing <==> next == Nothing)
            && (r != Nothing ==> (r == next <==> Agrees(b)))
  {
    var b0 := Uncached(b);
    UncachedReceives(codec, s, b, t, base);
    hide *;
    assert b0.core == b.core by {
      SameButCache(b);
    }
    next := PopSpec(codec, b0).1;
    base' := PopReceives(codec, s, b0, t, base, ops);
    PopGives(codec, s, b0, t, base);
    SameCore(codec, s, b, t, base);
    LooksFromStart(codec, s, b, t, base);
    SameReceives(codec, s, PopSpec(codec, b0).0, PopSpec(codec, b).0, LeftAfterPop(b.core.queue, t), base');
  }

  lemma SameButCache<S>(b: State<S>)
    ensures Uncached(b).core == b.core && Uncached(b).depack == b.depack
  {
  }

  /** A buffer that receives a stream gives frames only, no errors. */
  lemma PopGives<S>(codec: Codec<S>, s: S, b: State<S>, t: seq<Entry>, base: nat)
    requires Receives(codec, s, b, t, base)
    ensures !PopSpec(codec, b).1.PopFailed?
  {
    hide Receives, CacheInv, FollowsLast, DepacketizeEntries, Core.Valid, Given, FrameFrom;
    if SegmentsOf(b.core.queue) != [] {
      FrameAtHand(codec, s, b, t, base);
      LooksFromStart(codec, s, b, t, base);
    }
  }

  /** What is cached is a frame of the stream from some head on, and all of it is in the queue. */
  lemma CachedFromHead<S>(codec: Codec<S>, s: S, b: State<S>, t: seq<Entry>, base: nat) returns (k: nat)
    requires Receives(codec, s, b, t, base) && b.cache.Some?
    ensures k < |t| && |FrameFrom(t, k)| > 0 && AllIn(FrameFrom(t, k), b.core.queue)
    ensures b.cache.value.frame.metas != [] && b.cache.value.frame.metas[0].seqNo == base + k
  {
    hide CachedAt, Recognizes, Settles, Core.Valid, IsStream, SegmentsOf, FreshFrame;
    var at: seq<Entry> :| CachedAt(codec, s, b, at);
    CachedMeans(codec, s, b, at);
    AllInBoth(at, b.core.queue, t);
    k := FirstInStream(codec, s, at, t, base);
    AllInBoth(FrameFrom(t, k), at, b.core.queue);
  }

  lemma CachedMeans<S>(codec: Codec<S>, s: S, b: State<S>, at: seq<Entry>)
    requires b.cache.Some? && CachedAt(codec, s, b, at)
    ensures SegmentsOf(at) != [] && AllIn(at, b.core.queue) && FreshFrame(codec, s, at) == Made(b.cache.value.frame)
  {
  }

  lemma AllInBoth(a: seq<Entry>, b: seq<Entry>, c: seq<Entry>)
    requires AllIn(a, b) && AllIn(b, c)
    ensures AllIn(a, c)
  {
  }

  /** The first frame of a queue is one of the stream, from some head on. */
  lemma FirstInStream<S>(codec: Codec<S>, s: S, at: seq<Entry>, t: seq<Entry>, base: nat) returns (k: nat)
    requires IsStream(t, base) && AllIn(at, t) && SegmentsOf(at) != [] && FreshFrame(codec, s, at).Made?
    ensures k < |t| && |FrameFrom(t, k)| > 0 && AllIn(FrameFrom(t, k), at)
    ensures var metas := FreshFrame(codec, s, at).frame.metas;
            metas != [] && metas[0].seqNo == base + k
  {
    hide SegmentsOf, FrameFrom, IsStream, FreshFrame;
    AtHand(at, t, base);
    FrameMetas(codec, s, at);
    var (start, stop) := SegmentsOf(at)[0];
    k := at[start].Seq() - base;
    assert Metas(at[start..stop + 1])[0] == at[start].meta;
    assert AllIn(at[start..stop + 1], at);
  }

  /** A pop that skips gives a frame that is not the next one, stale or not. */
  lemma SkipGivesAnother<S>(codec: Codec<S>, s: S, b: State<S>, t: seq<Entry>, base: nat)
    requires Receives(codec, s, b, t, base) && Skips(b.core, t)
    ensures |t| > 0 && PopSpec(codec, b).1 != Nothing && PopSpec(codec, b).1 != Given(codec, s, FrameFrom(t, 0))
  {
    UncachedReceives(codec, s, b, t, base);
    SameButCache(b);
    PopGivesAnother(codec, s, Uncached(b), t, base);
    SameCore(codec, s, b, t, base);
    if !Agrees(b) {
      var k := CachedFromHead(codec, s, b, t, base);
      HitGivesCached(codec, b);
      ReceivesMeans(codec, s, b, t, base);
      hide Receives, PopSpec, Skips;
      FirstNumber(codec, s, t, base, 0);
      if k == 0 {
        AllOfNext(b.core.queue, t);
      }
    }
  }

  lemma AllOfNext(q: seq<Entry>, t: seq<Entry>)
    requires AllIn(FrameFrom(t, 0), q)
    ensures NextIsThere(q, t)
  {
    assert t[0..] == t;
    forall k | 0 <= k < FrameEnd(t) ensures t[k] in q {
      assert FrameFrom(t, 0)[k] == t[k];
    }
  }

  lemma HitGivesCached<S>(codec: Codec<S>, b: State<S>)
    requires Hit(b)
    ensures PopSpec(codec, b).1.Popped? ==> PopSpec(codec, b).1.frame.metas == b.cache.value.frame.metas
  {
    hide SegmentsOf, FollowsLast, Check;
    SegmentsAreInRange(b.core.queue);
  }

  lemma AnotherShows<S>(codec: Codec<S>, s: S, t: seq<Entry>, r: PopResult, rest: seq<PopResult>)
    requires |t| > 0 && |FrameFrom(t, 0)| > 0 && r != Given(codec, s, FrameFrom(t, 0))
    ensures !([r] + rest <= Frames(codec, s, t))
  {
    var frames := Frames(codec, s, t);
    assert frames[0] == Given(codec, s, FrameFrom(t, 0));
    assert ([r] + rest)[0] == r;
  }

  lemma SkipShows<S>(codec: Codec<S>, s: S, b: State<S>, t: seq<Entry>, base: nat, rest: seq<PopResult>)
    requires Receives(codec, s, b, t, base) && Skips(b.core, t)
    ensures var r := PopSpec(codec, b).1;
            r != Nothing && !([r] + rest <= Frames(codec, s, t))
  {
    hide PopSpec, CacheInv, SegmentsOf, Skips;
    SkipGivesAnother(codec, s, b, t, base);
    FirstNumber(codec, s, t, base, 0);
    AnotherShows(codec, s, t, PopSpec(codec, b).1, rest);
  }

  lemma StaleShows(r: PopResult, next: PopResult, rest: seq<PopResult>, frames: seq<PopResult>)
    requires r != next
    ensures !([r] + rest <= [next] + frames)
  {
    assert ([r] + rest)[0] == r && ([next] + frames)[0] == next;
  }

  lemma PrefixNext(first: seq<PopResult>, a: seq<PopResult>, b: seq<PopResult>)
    ensures first + a <= first + b <==> a <= b
  {
    var x, y := first + a, first + b;
    if x <= y {
      forall k | 0 <= k < |a| ensures a[k] == b[k] {
        assert x[|first| + k] == y[|first| + k];
      }
    }
  }

  /**
   Over every run in which the packets of a stream come in, in any order, with repeats, and with pops in between: what
   comes out is the frames of the stream, in order, each once and whole, if and only if no pop skips a frame, and none
   gives a frame out of the cache after a push at or before the end of it.
   */
  lemma {:induction false} StreamArrivesIff<S>(
    codec: Codec<S>, s: S, b: State<S>, t: seq<Entry>, base: nat, clean: bool, ops: seq<Op>)
    requires Receives(codec, s, b, t, base) && CleanIff(b, clean) && AllExpected(ops, t, b.core.lastEmitted)
    ensures Delivered(Outputs(codec, b, ops)) <= Frames(codec, s, t) <==>
            NeverSkips(codec, b, t, ops) && NeverStale(codec, b, ops, clean)
    decreases |ops|
  {
    hide Receives, CacheInv, SegmentsOf, CleanIff, Skips, AllExpected, Frames, PopSpec, PushSpec, Hit, Refills, Agrees;
    if |ops| > 0 {
      var (b', r) := BufferRuns.Step(codec, b, ops[0]);
      var rest := Delivered(Outputs(codec, b', ops[1..]));
      DeliveredNext(r, Outputs(codec, b', ops[1..]));
      hide Delivered;
      ExpectedNext(ops, t, b.core.lastEmitted);
      match ops[0]
      case DoPush(meta, data) =>
        PushReceives(codec, s, b, t, base, meta, data);
        ReceivesMeans(codec, s, b, t, base);
        PushKeepsClean(codec, s, b, meta, data, clean);
        StreamArrivesIff(codec, s, b', t, base, clean && GoesBehind(codec, b, meta, data), ops[1..]);
      case DoPop =>
        if Skips(b.core, t) {
          SkipShows(codec, s, b, t, base, rest);
        } else {
          var base', next := AnyPopReceives(codec, s, b, t, base, ops[1..]);
          var t' := LeftAfterPop(b.core.queue, t);
          hide LeftAfterPop;
          PopIsClean(codec, s, b, t, base, clean);
          AgreesIffClean(b, clean);
          StreamArrivesIff(codec, s, b', t', base', clean || Refills(b), ops[1..]);
          if r == next {
            PrefixNext(if r == Nothing then [] else [r], rest, Frames(codec, s, t'));
          } else {
            StaleShows(r, next, rest, Frames(codec, s, t'));
          }
        }
    }
  }

  // ---------- Everything arrives ----------

  function Pops(n: nat): seq<Op> {
    if n == 0 then [] else [DoPop] + Pops(n - 1)
  }

  /** Every packet of the stream is there or will come in. */
  ghost predicate Coming(t: seq<Entry>, q: seq<Entry>, ops: seq<Op>) {
    forall x | x in t && x !in q :: DoPush(x.meta, x.data) in ops
  }

  lemma LeftIsPart(q: seq<Entry>, t: seq<Entry>)
    ensures AllIn(LeftAfterPop(q, t), t)
  {
  }

  lemma ComingLater(t: seq<Entry>, t': seq<Entry>, q: seq<Entry>, q': seq<Entry>, ops: seq<Op>)
    requires |ops| > 0 && Coming(t, q, ops) && AllIn(t', t) && Keeps(t', q, q')
    requires ops[0].DoPush? ==> forall x | x in t' && DoPush(x.meta, x.data) == ops[0] :: x in q'
    ensures Coming(t', q', ops[1..])
  {
    forall x | x in t' && x !in q' ensures DoPush(x.meta, x.data) in ops[1..] {
      assert ops == [ops[0]] + ops[1..];
    }
  }

  lemma NoneExpected(t: seq<Entry>, lastEmitted: Option<nat>)
    ensures AllExpected([], t, lastEmitted)
  {
  }

  lemma ThereDoesNotSkip(c: Core, t: seq<Entry>)
    requires AllIn(t, c.queue)
    ensures NextIsThere(c.queue, t) && !Skips(c, t)
  {
  }

  lemma CountNext(r: PopResult, rest: seq<PopResult>)
    ensures |Delivered([r] + rest)| == (if r == Nothing then 0 else 1) + |Delivered(rest)|
  {
    DeliveredNext(r, rest);
  }

  lemma FramesCount<S>(codec: Codec<S>, s: S, t: seq<Entry>, next: PopResult, t': seq<Entry>)
    requires Frames(codec, s, t) == (if next == Nothing then [] else [next]) + Frames(codec, s, t')
    ensures |Frames(codec, s, t)| == (if next == Nothing then 0 else 1) + |Frames(codec, s, t')|
  {
    hide Frames;
  }

  /** When all is there, every pop gives a frame as long as there are any. */
  lemma {:induction false} PopsGiveAll<S>(codec: Codec<S>, s: S, b: State<S>, t: seq<Entry>, base: nat, n: nat)
    requires Receives(codec, s, b, t, base) && AllIn(t, b.core.queue)
    ensures NeverSkips(codec, b, t, Pops(n))
    ensures n >= |Frames(codec, s, t)| ==> |Delivered(Outputs(codec, b, Pops(n)))| == |Frames(codec, s, t)|
    decreases n
  {
    hide Receives, CacheInv, SegmentsOf, Skips, PopSpec, AllExpected, NextIsThere, Agrees, Frames, LeftAfterPop, AllIn, Keeps;
    if n > 0 {
      assert Pops(n)[1..] == Pops(n - 1);
      var (b', r) := PopSpec(codec, b);
      CountNext(r, Outputs(codec, b', Pops(n - 1)));
      hide Delivered;
      NoneExpected(t, b.core.lastEmitted);
      ThereDoesNotSkip(b.core, t);
      var base', next := AnyPopReceives(codec, s, b, t, base, []);
      var t' := LeftAfterPop(b.core.queue, t);
      CountWhenThere(codec, s, b.core.queue, t, next);
      StillThere(b.core.queue, t, b'.core.queue);
      PopsGiveAll(codec, s, b', t', base', n - 1);
    }
  }

  lemma StillThere(q: seq<Entry>, t: seq<Entry>, q': seq<Entry>)
    requires AllIn(t, q) && Keeps(LeftAfterPop(q, t), q, q')
    ensures AllIn(LeftAfterPop(q, t), q')
  {
    LeftIsPart(q, t);
    hide LeftAfterPop;
  }

  /** As long as there are frames, a pop gives one. */
  lemma CountWhenThere<S>(codec: Codec<S>, s: S, q: seq<Entry>, t: seq<Entry>, next: PopResult)
    requires AllIn(t, q)
    requires Frames(codec, s, t) == (if next == Nothing then [] else [next]) + Frames(codec, s, LeftAfterPop(q, t))
    ensures |Frames(codec, s, t)| == (if next == Nothing then 0 else 1) + |Frames(codec, s, LeftAfterPop(q, t))|
    ensures next == Nothing ==> |Frames(codec, s, t)| == 0
  {
    LeftWhenThere(codec, s, q, t);
    FramesCount(codec, s, t, next, LeftAfterPop(q, t));
    hide Frames, LeftAfterPop, FrameFrom, AllIn;
  }

  lemma LeftWhenThere<S>(codec: Codec<S>, s: S, q: seq<Entry>, t: seq<Entry>)
    requires AllIn(t, q)
    ensures |t| == 0 ==> Frames(codec, s, t) == [] && LeftAfterPop(q, t) == t
    ensures |t| > 0 ==> |FrameFrom(t, 0)| > 0
    ensures |t| > 0 ==> Frames(codec, s, t) == [Given(codec, s, FrameFrom(t, 0))] + Frames(codec, s, LeftAfterPop(q, t))
  {
  }

  /** When no pop skips before, the pops at the end give as many frames as are missing, and do not skip. */
  lemma {:induction false} EnoughComeOut<S>(
    codec: Codec<S>, s: S, b: State<S>, t: seq<Entry>, base: nat, ops: seq<Op>, n: nat)
    requires Receives(codec, s, b, t, base) && AllExpected(ops, t, b.core.lastEmitted) && NeverSkips(codec, b, t, ops)
    requires Coming(t, b.core.queue, ops)
    ensures NeverSkips(codec, b, t, ops + Pops(n))
    ensures n >= |Frames(codec, s, t)| ==> |Delivered(Outputs(codec, b, ops + Pops(n)))| == |Frames(codec, s, t)|
    decreases |ops|
  {
    hide Receives, CacheInv, SegmentsOf, Skips, PopSpec, PushSpec, AllExpected, NextIsThere, Frames, LeftAfterPop, Agrees;
    if |ops| == 0 {
      assert ops + Pops(n) == Pops(n);
      PopsGiveAll(codec, s, b, t, base, n);
      return;
    }
    assert (ops + Pops(n))[1..] == ops[1..] + Pops(n);
    var (b', r) := BufferRuns.Step(codec, b, ops[0]);
    CountNext(r, Outputs(codec, b', ops[1..] + Pops(n)));
    hide Delivered, Coming, Keeps, AllIn;
    ExpectedNext(ops, t, b.core.lastEmitted);
    match ops[0]
    case DoPush(meta, data) =>
      PushReceives(codec, s, b, t, base, meta, data);
      AllInItself(t, b.core.queue, b'.core.queue);
      ComingLater(t, t, b.core.queue, b'.core.queue, ops);
      EnoughComeOut(codec, s, b', t, base, ops[1..], n);
    case DoPop =>
      var base', next := AnyPopReceives(codec, s, b, t, base, ops[1..]);
      var t' := LeftAfterPop(b.core.queue, t);
      LeftIsPart(b.core.queue, t);
      ComingLater(t, t', b.core.queue, b'.core.queue, ops);
      FramesCount(codec, s, t, next, t');
      EnoughComeOut(codec, s, b', t', base', ops[1..], n);
  }

  lemma {:induction false} NeverSkipsBefore<S>(codec: Codec<S>, b: State<S>, t: seq<Entry>, ops: seq<Op>, more: seq<Op>)
    requires NeverSkips(codec, b, t, ops + more)
    ensures NeverSkips(codec, b, t, ops)
    decreases |ops|
  {
    hide PopSpec, PushSpec, Skips, LeftAfterPop;
    if |ops| > 0 {
      assert (ops + more)[1..] == ops[1..] + more;
      NeverSkipsBefore(codec, BufferRuns.Step(codec, b, ops[0]).0,
                       if ops[0].DoPush? then t else LeftAfterPop(b.core.queue, t), ops[1..], more);
    }
  }

  lemma ExpectedWithPops(ops: seq<Op>, n: nat, t: seq<Entry>, lastEmitted: Option<nat>)
    requires AllExpected(ops, t, lastEmitted)
    ensures AllExpected(ops + Pops(n), t, lastEmitted)
  {
    OnlyPops(n);
    var all := ops + Pops(n);
    assert forall k | |ops| <= k < |all| :: all[k] == Pops(n)[k - |ops|];
    assert forall k | 0 <= k < |ops| :: all[k] == ops[k];
  }

  lemma {:induction false} OnlyPops(n: nat)
    ensures forall k | 0 <= k < |Pops(n)| :: Pops(n)[k] == DoPop
  {
    if n > 0 {
      OnlyPops(n - 1);
    }
  }

  /**
   When every packet comes in at some time, and as many pops as there are frames end the run: all frames of the stream
   have come out, in order, each once and whole, if and only if no pop before skips a frame, and none gives a stale one.
   */
  lemma AllFramesArrive<S>(
    codec: Codec<S>, s: S, b: State<S>, t: seq<Entry>, base: nat, clean: bool, ops: seq<Op>, n: nat)
    requires Receives(codec, s, b, t, base) && CleanIff(b, clean) && AllExpected(ops, t, b.core.lastEmitted)
    requires Coming(t, b.core.queue, ops) && n >= |Frames(codec, s, t)|
    ensures Delivered(Outputs(codec, b, ops + Pops(n))) == Frames(codec, s, t) <==>
            NeverSkips(codec, b, t, ops) && NeverStale(codec, b, ops + Pops(n), clean)
  {
    hide *;
    ExpectedWithPops(ops, n, t, b.core.lastEmitted);
    StreamArrivesIff(codec, s, b, t, base, clean, ops + Pops(n));
    if NeverSkips(codec, b, t, ops + Pops(n)) {
      NeverSkipsBefore(codec, b, t, ops, Pops(n));
    }
    if NeverSkips(codec, b, t, ops) {
      EnoughComeOut(codec, s, b, t, base, ops, n);
    }
  }

  lemma AllInItself(t: seq<Entry>, q: seq<Entry>, q': seq<Entry>)
    ensures AllIn(t, t)
    ensures AllIn(q, q') ==> Keeps(t, q, q')
  {
  }

  // ---------- Short streams ----------

  ghost function TailSet(q: seq<Entry>): set<Entry> {
    set x | x in q && x.tail
  }

  lemma {:induction false} TailsAreCounted(q: seq<Entry>)
    requires Sorted(q)
    ensures |TailSet(q)| == Tails(q)
    decreases |q|
  {
    if |q| > 0 {
      LastIsNew(q);
      TailSetOneMore(q);
      hide TailSet, Sorted;
      TailsAreCounted(q[..|q| - 1]);
    }
  }

  lemma LastIsNew(q: seq<Entry>)
    requires Sorted(q) && |q| > 0
    ensures Sorted(q[..|q| - 1]) && q[|q| - 1] !in TailSet(q[..|q| - 1])
  {
  }

  lemma TailSetOneMore(q: seq<Entry>)
    requires |q| > 0
    ensures TailSet(q) == TailSet(q[..|q| - 1]) + if q[|q| - 1].tail then {q[|q| - 1]} else {}
  {
    assert q == q[..|q| - 1] + [q[|q| - 1]];
  }

  lemma {:induction false} TailsConcat(a: seq<Entry>, b: seq<Entry>)
    ensures Tails(a + b) == Tails(a) + Tails(b)
    decreases |b|
  {
    if |b| == 0 {
      assert a + b == a;
    } else {
      assert (a + b)[..|a + b| - 1] == a + b[..|b| - 1];
      TailsConcat(a, b[..|b| - 1]);
    }
  }

  lemma {:induction false} NoTails(a: seq<Entry>)
    requires forall k | 0 <= k < |a| :: !a[k].tail
    ensures Tails(a) == 0
    decreases |a|
  {
    if |a| > 0 {
      NoTails(a[..|a| - 1]);
    }
  }

  /** A stream has as many frames as last packets. */
  lemma {:induction false} FramesAreCounted<S>(codec: Codec<S>, s: S, t: seq<Entry>, base: nat)
    requires IsStream(t, base)
    ensures Tails(t) == |Frames(codec, s, t)|
    decreases |t|
  {
    hide IsStream, Tails, Frames, FrameFrom, Given;
    if |t| == 0 {
      NothingToCount(codec, s, t);
    } else {
      var n := FrameEnd(t);
      FirstFrameEnds(t, base);
      FramesNext(codec, s, t, n);
      FramesAreCounted(codec, s, t[n..], base + n);
      TailsConcat(t[..n], t[n..]);
      assert t == t[..n] + t[n..];
      OneTail(t[..n]);
    }
  }

  lemma NothingToCount<S>(codec: Codec<S>, s: S, t: seq<Entry>)
    requires |t| == 0
    ensures Tails(t) == 0 && Frames(codec, s, t) == []
  {
  }

  lemma OneTail(a: seq<Entry>)
    requires |a| > 0 && a[|a| - 1].tail && forall k | 0 <= k < |a| - 1 :: !a[k].tail
    ensures Tails(a) == 1
  {
    NoTails(a[..|a| - 1]);
  }

  lemma FewFramesDoNotSkip<S>(codec: Codec<S>, s: S, b: State<S>, t: seq<Entry>, base: nat)
    requires Receives(codec, s, b, t, base) && b.core.lastEmitted.Some? && |Frames(codec, s, t)| < b.core.holdBack
    ensures !Skips(b.core, t)
  {
    hide Settles, CacheInv, Recognizes, Skips, IsStream, Frames;
    StreamIsSorted(t, base);
    TailsAreCounted(t);
    TailsAreCounted(b.core.queue);
    FramesAreCounted(codec, s, t, base);
    SubsetIsSmaller(TailSet(b.core.queue), TailSet(t));
    FewTailsDoNotSkip(codec, s, b, t, base);
  }

  lemma StreamIsSorted(t: seq<Entry>, base: nat)
    requires IsStream(t, base)
    ensures Sorted(t)
  {
  }

  lemma StepHoldsBack<S>(codec: Codec<S>, b: State<S>, op: Op)
    requires b.core.Valid()
    ensures BufferRuns.Step(codec, b, op).0.core.holdBack == b.core.holdBack
    ensures b.core.lastEmitted.Some? ==> BufferRuns.Step(codec, b, op).0.core.lastEmitted.Some?
  {
    StepKeepsValid(codec, b, op);
  }

  /** After the first frame, a stream of fewer frames than are held back never has one skipped, in any order. */
  lemma {:induction false} FewFramesNeverSkip<S>(
    codec: Codec<S>, s: S, b: State<S>, t: seq<Entry>, base: nat, ops: seq<Op>)
    requires Receives(codec, s, b, t, base) && AllExpected(ops, t, b.core.lastEmitted)
    requires b.core.lastEmitted.Some? && |Frames(codec, s, t)| < b.core.holdBack
    ensures NeverSkips(codec, b, t, ops)
    decreases |ops|
  {
    hide Receives, CacheInv, SegmentsOf, Skips, PopSpec, PushSpec, AllExpected, NextIsThere, Frames, LeftAfterPop, Core.Valid;
    hide Agrees;
    if |ops| > 0 {
      var (b', r) := BufferRuns.Step(codec, b, ops[0]);
      ReceivesMeans(codec, s, b, t, base);
      StepHoldsBack(codec, b, ops[0]);
      ExpectedNext(ops, t, b.core.lastEmitted);
      match ops[0]
      case DoPush(meta, data) =>
        PushReceives(codec, s, b, t, base, meta, data);
        FewFramesNeverSkip(codec, s, b', t, base, ops[1..]);
      case DoPop =>
        FewFramesDoNotSkip(codec, s, b, t, base);
        var base', next := AnyPopReceives(codec, s, b, t, base, ops[1..]);
        var t' := LeftAfterPop(b.core.queue, t);
        FramesCount(codec, s, t, next, t');
        FewFramesNeverSkip(codec, s, b', t', base', ops[1..]);
    }
  }
}
