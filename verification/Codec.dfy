/**
 What the reordering buffer and the codecs share: the codec-specific extra information of a depacketized
 frame, the depacketizing errors, and the interface a codec offers to the buffer.
 */
module Codec {
  import opened Bytes

  /** LayeredExtra is what VP8 and VP9 report: the extended picture ids and the temporal layer. */
  datatype CodecExtra =
    | NoExtra
    | H264Extra(isKeyframe: bool)
    | LayeredExtra(pictureId: Option<nat>, tl0PictureId: Option<nat>, layerIndex: Option<nat>)

  /** SliceIndexPanic stands for a slice index out of range, where the Rust code panics. */
  datatype PacketError =
    | ShortPacket
    | StapASizeLargerThanBuffer(size: nat, remaining: nat)
    | NaluTypeIsNotHandled(naluType: byte)
    | SliceIndexPanic

  /** What one depacketize call leaves in the codec (state) and in its two output parameters. */
  datatype Depacked<+S> = Depacked(state: S, out: Bytes, extra: CodecExtra, error: Option<PacketError>)

  /** A codec with internal state S: partition head and tail tests, and depacketize. */
  datatype Codec<!S> = Codec(
    isHead: Bytes -> bool,
    isTail: (bool, Bytes) -> bool,
    depacketize: (S, Bytes, Bytes, CodecExtra) -> Depacked<S>)
  {
    /** Depacketizes the packets in order, stopping at the first error. */
    function DepacketizeAll(s: S, packets: seq<Bytes>, out: Bytes, extra: CodecExtra): Depacked<S>
      decreases |packets|
    {
      if packets == [] then
        Depacked(s, out, extra, None)
      else
        var d := depacketize(s, packets[0], out, extra);
        if d.error.Some? then d else DepacketizeAll(d.state, packets[1..], d.out, d.extra)
    }

    lemma {:induction false} DepacketizeAllConcat(s: S, a: seq<Bytes>, b: seq<Bytes>, out: Bytes, extra: CodecExtra)
      requires DepacketizeAll(s, a, out, extra).error == None
      ensures var d := DepacketizeAll(s, a, out, extra);
              DepacketizeAll(s, a + b, out, extra) == DepacketizeAll(d.state, b, d.out, d.extra)
      decreases |a|
    {
      if a == [] {
        assert a + b == b;
      } else {
        assert (a + b)[1..] == a[1..] + b;
        var d := depacketize(s, a[0], out, extra);
        DepacketizeAllConcat(d.state, a[1..], b, d.out, d.extra);
      }
    }
  }
}
