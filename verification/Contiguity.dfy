/**
 The layered-frame filter of packet/contiguity.rs: which VP8 and VP9 frames can be decoded after the frames that
 were let through before, and whether something is missing.
 */
module Contiguity {
  import opened Bytes
  import opened Codec

  const U64_LIMIT: nat := 0x1_0000_0000_0000_0000

  /** The ids of the last frame let through. */
  datatype FrameState = FrameState(lastPictureId: Option<nat>, lastTl0PictureId: Option<nat>)

  /** The verdict on a frame: let it through, and report it as contiguous. */
  datatype Verdict = Verdict(emit: bool, contiguous: bool)

  /** u64 wrapping_add(1) */
  function WrappingNext(n: nat): nat {
    (n + 1) % U64_LIMIT
  }

  function NextFrameSpec(s: FrameState, pictureId: Option<nat>, tl0PictureId: Option<nat>, layerIndex: Option<nat>,
                         contiguousSeq: bool): (FrameState, Verdict)
  {
    if pictureId.None? || tl0PictureId.None? then
      (s, Verdict(true, contiguousSeq))
    else if s.lastTl0PictureId.None? || s.lastPictureId.None? then
      (FrameState(pictureId, tl0PictureId), Verdict(true, true))
    else if pictureId.value <= s.lastPictureId.value then
      (s, Verdict(false, true))
    else if layerIndex == Some(0) then
      (FrameState(pictureId, tl0PictureId), Verdict(true, tl0PictureId.value == WrappingNext(s.lastTl0PictureId.value)))
    else if tl0PictureId == s.lastTl0PictureId && pictureId.value == WrappingNext(s.lastPictureId.value) then
      (s.(lastPictureId := pictureId), Verdict(true, true))
    else
      (s, Verdict(false, true))
  }

  class FrameContiguityState {
    var lastPictureId: Option<nat>
    var lastTl0PictureId: Option<nat>

    constructor ()
      ensures State() == FrameState(None, None)
    {
      lastPictureId, lastTl0PictureId := None, None;
    }

    ghost function State(): FrameState
      reads this
    {
      FrameState(lastPictureId, lastTl0PictureId)
    }

    method NextFrame(pictureId: Option<nat>, tl0PictureId: Option<nat>, layerIndex: Option<nat>, contiguousSeq: bool)
      returns (emit: bool, contiguous: bool)
      modifies this
      ensures (State(), Verdict(emit, contiguous)) ==
              NextFrameSpec(old(State()), pictureId, tl0PictureId, layerIndex, contiguousSeq)
    {
      if pictureId.None? {
        return true, contiguousSeq;
      }
      if tl0PictureId.None? {
        return true, contiguousSeq;
      }
      if lastTl0PictureId.None? || lastPictureId.None? {
        lastTl0PictureId := tl0PictureId;
        lastPictureId := pictureId;
        return true, true;
      }
      if pictureId.value <= lastPictureId.value {
        return false, true;
      }
      if layerIndex == Some(0) {
        contiguous := tl0PictureId.value == WrappingNext(lastTl0PictureId.value);
        lastTl0PictureId := tl0PictureId;
        lastPictureId := pictureId;
        return true, contiguous;
      }
      emit := tl0PictureId.value == lastTl0PictureId.value && pictureId.value == WrappingNext(lastPictureId.value);
      if emit {
        lastPictureId := pictureId;
      }
      return emit, true;
    }
  }

  /** The buffer's filter: one for the layered codecs, none for the others. */
  datatype Filter = Layered(state: FrameState) | Unlayered

  function Check(f: Filter, extra: CodecExtra, contiguousSeq: bool): (Filter, Verdict) {
    if f.Layered? && extra.LayeredExtra? then
      var (s, v) := NextFrameSpec(f.state, extra.pictureId, extra.tl0PictureId, extra.layerIndex, contiguousSeq);
      (Layered(s), v)
    else (f, Verdict(true, contiguousSeq))
  }

  // ---------- Whole runs ----------

  /** A frame that carries both ids. */
  datatype Frame = Frame(pictureId: nat, tl0PictureId: nat, layerIndex: Option<nat>, contiguousSeq: bool) {
    predicate IsBase() {
      layerIndex == Some(0)
    }
  }

  /** A frame that was let through, with the report that went with it. */
  datatype Passed = Passed(frame: Frame, contiguous: bool)

  function Step(s: FrameState, f: Frame): (FrameState, Verdict) {
    NextFrameSpec(s, Some(f.pictureId), Some(f.tl0PictureId), f.layerIndex, f.contiguousSeq)
  }

  /** The frames let through in a run that starts in state s. */
  function Filtered(s: FrameState, frames: seq<Frame>): seq<Passed>
    decreases |frames|
  {
    if frames == [] then []
    else
      var (s', v) := Step(s, frames[0]);
      (if v.emit then [Passed(frames[0], v.contiguous)] else []) + Filtered(s', frames[1..])
  }

  /** What holds between a frame let through (prev) and the next one let through. */
  predicate Chained(prev: Frame, next: Passed) {
    && prev.pictureId < next.frame.pictureId
    && (!next.frame.IsBase() ==>
          next.frame.tl0PictureId == prev.tl0PictureId && next.frame.pictureId == prev.pictureId + 1)
    && (next.contiguous <==> !next.frame.IsBase() || next.frame.tl0PictureId == WrappingNext(prev.tl0PictureId))
  }

  lemma {:induction false} FilteredIsChained(s: FrameState, prev: Frame, frames: seq<Frame>)
    requires s == FrameState(Some(prev.pictureId), Some(prev.tl0PictureId))
    ensures var r := Filtered(s, frames);
            && (|r| > 0 ==> Chained(prev, r[0]))
            && forall k | 0 < k < |r| :: Chained(r[k - 1].frame, r[k])
    decreases |frames|
  {
    if frames != [] {
      var (s', v) := Step(s, frames[0]);
      if v.emit {
        FilteredIsChained(s', frames[0], frames[1..]);
      } else {
        FilteredIsChained(s, prev, frames[1..]);
      }
    }
  }

  /** In a run from the initial state, each frame let through is chained to the one before it. */
  lemma RunIsChained(frames: seq<Frame>)
    ensures var r := Filtered(FrameState(None, None), frames);
            && (|r| > 0 ==> r[0] == Passed(frames[0], true))
            && forall k | 0 < k < |r| :: Chained(r[k - 1].frame, r[k])
  {
    if frames != [] {
      FilteredIsChained(Step(FrameState(None, None), frames[0]).0, frames[0], frames[1..]);
    }
  }

  /** Picture ids of frames let through strictly increase. */
  lemma {:induction false} PictureIdsIncrease(frames: seq<Frame>, i: nat, j: nat)
    requires i < j < |Filtered(FrameState(None, None), frames)|
    ensures var r := Filtered(FrameState(None, None), frames);
            r[i].frame.pictureId < r[j].frame.pictureId
  {
    RunIsChained(frames);
    if i < j - 1 {
      PictureIdsIncrease(frames, i, j - 1);
    }
  }

  /**
   Every enhancement frame let through hangs together, over consecutive picture ids that were all let through and
   all name the same base frame, with the frame that set that base frame's id: a base frame, or the first of all.
   */
  lemma {:induction false} JoinedToBase(frames: seq<Frame>, j: nat) returns (b: nat)
    requires j < |Filtered(FrameState(None, None), frames)|
    ensures b <= j
    ensures var r := Filtered(FrameState(None, None), frames);
            && (b == 0 || r[b].frame.IsBase())
            && forall k | b < k <= j ::
                 && !r[k].frame.IsBase()
                 && r[k].frame.tl0PictureId == r[b].frame.tl0PictureId
                 && r[k].frame.pictureId == r[b].frame.pictureId + (k - b)
  {
    RunIsChained(frames);
    var r := Filtered(FrameState(None, None), frames);
    if j == 0 || r[j].frame.IsBase() {
      b := j;
    } else {
      b := JoinedToBase(frames, j - 1);
      assert Chained(r[j - 1].frame, r[j]);
    }
  }

  /** The state after a run. */
  function After(s: FrameState, frames: seq<Frame>): FrameState
    decreases |frames|
  {
    if frames == [] then s else After(Step(s, frames[0]).0, frames[1..])
  }

  lemma {:induction false} FilteredOneMore(s: FrameState, frames: seq<Frame>, f: Frame)
    ensures Filtered(s, frames + [f]) ==
            Filtered(s, frames) +
            var v := Step(After(s, frames), f).1; if v.emit then [Passed(f, v.contiguous)] else []
    decreases |frames|
  {
    if frames == [] {
      OneFiltered(s, f);
      assert frames + [f] == [f];
    } else {
      assert (frames + [f])[1..] == frames[1..] + [f];
      FilteredOneMore(Step(s, frames[0]).0, frames[1..], f);
    }
  }

  lemma OneFiltered(s: FrameState, f: Frame)
    ensures Filtered(s, [f]) == var v := Step(s, f).1; if v.emit then [Passed(f, v.contiguous)] else []
  {
    assert [f][1..] == [];
  }

  /** All that is remembered is the frame let through last. */
  lemma {:induction false} LastIsRemembered(s: FrameState, prev: Frame, frames: seq<Frame>)
    requires s == FrameState(Some(prev.pictureId), Some(prev.tl0PictureId))
    ensures var r := Filtered(s, frames);
            var last := if |r| > 0 then r[|r| - 1].frame else prev;
            After(s, frames) == FrameState(Some(last.pictureId), Some(last.tl0PictureId))
    decreases |frames|
  {
    if frames != [] {
      var (s', v) := Step(s, frames[0]);
      StepRemembers(s, frames[0]);
      hide Step;
      if v.emit {
        LastIsRemembered(s', frames[0], frames[1..]);
        var rest := Filtered(s', frames[1..]);
        assert Filtered(s, frames) == [Passed(frames[0], v.contiguous)] + rest;
      } else {
        LastIsRemembered(s, prev, frames[1..]);
        assert Filtered(s, frames) == Filtered(s, frames[1..]);
      }
    }
  }

  lemma StepRemembers(s: FrameState, f: Frame)
    ensures var (s', v) := Step(s, f);
            s' == if v.emit then FrameState(Some(f.pictureId), Some(f.tl0PictureId)) else s
  {
  }

  /** The frame goes on from the last one let through: a later base frame, or the next enhancement of the same one. */
  predicate GoesOn(last: Frame, f: Frame) {
    && f.pictureId > last.pictureId
    && (f.IsBase() || (f.tl0PictureId == last.tl0PictureId && f.pictureId == last.pictureId + 1))
  }

  /**
   After any frames from the initial state, one more is let through if and only if it is the first one, or goes on from the
   last one that was let through.
   */
  lemma LetThroughIff(frames: seq<Frame>, f: Frame)
    requires f.pictureId < U64_LIMIT
    ensures var before, after := Filtered(FrameState(None, None), frames), Filtered(FrameState(None, None), frames + [f]);
            if frames == [] || (before != [] && GoesOn(before[|before| - 1].frame, f)) then
              |after| == |before| + 1 && before == after[..|before|] && after[|before|].frame == f
            else after == before
  {
    var s0 := FrameState(None, None);
    FilteredOneMore(s0, frames, f);
    if frames != [] {
      LastIsRemembered(Step(s0, frames[0]).0, frames[0], frames[1..]);
    }
  }

  /** A frame that is not let through is not reported as a gap. */
  lemma DroppedIsNoGap(f: Filter, extra: CodecExtra, contiguousSeq: bool)
    ensures var v := Check(f, extra, contiguousSeq).1; !v.emit ==> v.contiguous
  {
  }
}
