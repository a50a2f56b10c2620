/**
 Which frames of layered codecs come out of the reordering buffer, and when a frame is reported to follow on the one before.
 */
module LayeredFrames {
  import opened Bytes
  import opened Codec
  import opened Segments
  import opened Contiguity
  import opened ReorderBuffer
  import Runs = BufferRuns

  /** What a codec reports of a frame has both ids. */
  predicate HasIds(extra: CodecExtra) {
    extra.LayeredExtra? && extra.pictureId.Some? && extra.tl0PictureId.Some?
  }

  function FrameOf(extra: CodecExtra): Frame
    requires HasIds(extra)
  {
    Frame(extra.pictureId.value, extra.tl0PictureId.value, extra.layerIndex, false)
  }

  /** The frames with both ids among those that come out, with what is reported of them. */
  function LayeredOf(outputs: seq<PopResult>): seq<Passed> {
    if outputs == [] then []
    else
      (if outputs[0].Popped? && HasIds(outputs[0].frame.extra)
       then [Passed(FrameOf(outputs[0].frame.extra), outputs[0].frame.contiguous)] else [])
      + LayeredOf(outputs[1..])
  }

  /** The filter of a buffer for a layered codec remembers the last frame with both ids that came out. */
  predicate FilterIs(filter: Filter, last: Option<Frame>) {
    filter == Layered(if last.None? then FrameState(None, None)
                      else FrameState(Some(last.value.pictureId), Some(last.value.tl0PictureId)))
  }

  lemma PopIsChained<S>(codec: Codec<S>, b: State<S>, last: Option<Frame>)
    requires FilterIs(b.core.filter, last)
    ensures var (b', r) := PopSpec(codec, b);
            if r.Popped? && HasIds(r.frame.extra) then
              && FilterIs(b'.core.filter, Some(FrameOf(r.frame.extra)))
              && (if last.None? then r.frame.contiguous
                  else Chained(last.value, Passed(FrameOf(r.frame.extra), r.frame.contiguous)))
            else FilterIs(b'.core.filter, last)
  {
    hide SegmentsOf, FirstFrame, FollowsLast;
  }

  lemma {:induction false} OutputsAreChained<S>(codec: Codec<S>, b: State<S>, ops: seq<Runs.Op>, last: Option<Frame>)
    requires FilterIs(b.core.filter, last)
    ensures var r := LayeredOf(Runs.Outputs(codec, b, ops));
            && (|r| > 0 ==> if last.None? then r[0].contiguous else Chained(last.value, r[0]))
            && forall k | 0 < k < |r| :: Chained(r[k - 1].frame, r[k])
    decreases |ops|
  {
    hide PopSpec, PushSpec, FilterIs, Chained, HasIds;
    if |ops| > 0 {
      var (b', r) := Runs.Step(codec, b, ops[0]);
      var outputs := Runs.Outputs(codec, b, ops);
      assert outputs == [r] + Runs.Outputs(codec, b', ops[1..]);
      if ops[0].DoPop? {
        PopIsChained(codec, b, last);
      } else {
        PushKeepsFilter(codec, b.core, ops[0].meta, ops[0].data);
      }
      if r.Popped? && HasIds(r.frame.extra) {
        OutputsAreChained(codec, b', ops[1..], Some(FrameOf(r.frame.extra)));
      } else {
        OutputsAreChained(codec, b', ops[1..], last);
      }
      LayeredNext(r, Runs.Outputs(codec, b', ops[1..]));
    } else {
      NoOutputs(codec, b, ops);
    }
  }

  lemma NoOutputs<S>(codec: Codec<S>, b: State<S>, ops: seq<Runs.Op>)
    requires |ops| == 0
    ensures LayeredOf(Runs.Outputs(codec, b, ops)) == []
  {
  }

  lemma LayeredNext(r: PopResult, rest: seq<PopResult>)
    ensures LayeredOf([r] + rest) ==
            (if r.Popped? && HasIds(r.frame.extra) then [Passed(FrameOf(r.frame.extra), r.frame.contiguous)] else [])
            + LayeredOf(rest)
  {
    assert ([r] + rest)[1..] == rest;
  }

  lemma PushKeepsFilter<S>(codec: Codec<S>, c: Core, meta: Meta, data: Bytes)
    ensures PushSpec(codec, c, meta, data).filter == c.filter
  {
  }

  /**
   Over every run of a new buffer for a layered codec, of the frames with both ids that come out each one goes on from the
   one before, as a base frame or as the next enhancement of the same one, and is reported as contiguous unless base frames
   are missing in between.
   */
  lemma LayeredFramesAreChained<S>(codec: Codec<S>, b: State<S>, ops: seq<Runs.Op>)
    requires b.core.filter == Layered(FrameState(None, None))
    ensures var r := LayeredOf(Runs.Outputs(codec, b, ops));
            && (|r| > 0 ==> r[0].contiguous)
            && forall k | 0 < k < |r| :: Chained(r[k - 1].frame, r[k])
  {
    hide Runs.Outputs, LayeredOf, Chained;
    OutputsAreChained(codec, b, ops, None);
  }

  /** A complete frame is at hand, and comes out or is dropped by the next pop. */
  ghost predicate IsTaken<S>(codec: Codec<S>, b: State<S>) {
    SegmentsOf(b.core.queue) != [] && FirstFrame(codec, b).1.Made? && !Waits(b.core)
  }

  /**
   Frames without ids and those of other codecs are never dropped, and are reported as contiguous if and only if nothing but
   padding is between them and what came out before.
   */
  lemma OnlyLayeredAreDropped<S>(codec: Codec<S>, b: State<S>)
    requires IsTaken(codec, b) && (b.core.filter.Layered? ==> !HasIds(FirstFrame(codec, b).1.frame.extra))
    ensures var r := PopSpec(codec, b).1;
            && r.Popped? && r.frame.data == FirstFrame(codec, b).1.frame.data
            && (r.frame.contiguous <==> FollowsLast(b.core.queue, b.core.lastEmitted, SegmentsOf(b.core.queue)[0].0))
  {
    hide SegmentsOf, FirstFrame, FollowsLast;
  }
}
