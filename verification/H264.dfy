/**
 The H.264 RTP payload format (RFC 6184) as packet/h264.rs implements it: a packetizer that splits an
 Annex B byte stream into NAL units and sends them as single NAL unit packets, STAP-A packets and FU-A
 fragments, and a depacketizer that puts the units back together.
 */
module H264 {
  import opened Bytes
  import opened Codec

  const STAPA_NALU_TYPE := 24
  const FUA_NALU_TYPE := 28
  const FUB_NALU_TYPE := 29
  const IDR_NALU_TYPE := 5
  const SPS_NALU_TYPE := 7
  const PPS_NALU_TYPE := 8
  const AUD_NALU_TYPE := 9
  const FILLER_NALU_TYPE := 12
  const FUA_HEADER_SIZE := 2
  const OUTPUT_STAPA_HEADER: byte := 0x78
  const START_CODE: Bytes := [0, 0, 0, 1]

  /** b & 0x1F */
  function NaluType(b: byte): byte {
    b % 32
  }

  /** b & 0x60 */
  function RefIdc(b: byte): byte {
    b / 32 % 4 * 32
  }

  // ---------- Annex B ----------

  /** The bytes at i - 2, i - 1 and i are 00 00 01. */
  predicate CodeEndsAt(s: Bytes, i: int) {
    2 <= i < |s| && s[i] == 1 && s[i - 1] == 0 && s[i - 2] == 0
  }

  /** The end of the first start code of s that ends at or after i; |s| when there is none. */
  function FirstEnd(s: Bytes, i: nat): (e: nat)
    requires i <= |s|
    ensures i <= e <= |s|
    decreases |s| - i
  {
    if i == |s| || CodeEndsAt(s, i) then i else FirstEnd(s, i + 1)
  }

  /** The start of the run of zeros right before e. */
  function ZeroRunStart(s: Bytes, e: nat): (p: nat)
    requires e <= |s|
    ensures p <= e
  {
    if e > 0 && s[e - 1] == 0 then ZeroRunStart(s, e - 1) else e
  }

  predicate HasCode(s: Bytes) {
    FirstEnd(s, 0) < |s|
  }

  /** The pieces of s between start codes; the first piece is what precedes the first start code. */
  function Pieces(s: Bytes): (r: seq<Bytes>)
    ensures |r| > 0
    decreases |s|
  {
    var e := FirstEnd(s, 0);
    if e == |s| then [s] else [s[..ZeroRunStart(s, e)]] + Pieces(s[e + 1..])
  }

  /** The first start code of s, with all the zeros in front of its 01, is at p and has length l. */
  predicate IsFirstCode(s: Bytes, p: int, l: int) {
    && 0 <= p && 3 <= l && p + l <= |s|
    && s[p + l - 1] == 1
    && (forall k | p <= k < p + l - 1 :: s[k] == 0)
    && (0 < p ==> s[p - 1] != 0)
    && (forall i | 0 <= i < p + l - 1 :: !CodeEndsAt(s, i))
  }

  lemma {:induction false} FirstEndIsLeast(s: Bytes, i: nat, e: nat)
    requires i <= e <= |s|
    requires forall j | i <= j < e :: !CodeEndsAt(s, j)
    requires e < |s| ==> CodeEndsAt(s, e)
    ensures FirstEnd(s, i) == e
    decreases e - i
  {
    if i < e {
      FirstEndIsLeast(s, i + 1, e);
    }
  }

  lemma {:induction false} ZeroRunStartIsLeast(s: Bytes, e: nat, p: nat)
    requires p <= e <= |s|
    requires forall k | p <= k < e :: s[k] == 0
    requires 0 < p ==> s[p - 1] != 0
    ensures ZeroRunStart(s, e) == p
  {
    if p < e {
      ZeroRunStartIsLeast(s, e - 1, p);
    }
  }

  /** What the splitting function cuts at a first start code. */
  lemma PiecesAtCode(s: Bytes, p: int, l: int)
    requires IsFirstCode(s, p, l)
    ensures HasCode(s)
    ensures Pieces(s)[0] == s[..p] && Pieces(s)[1..] == Pieces(s[p + l..])
  {
    assert CodeEndsAt(s, p + l - 1);
    FirstEndIsLeast(s, 0, p + l - 1);
    ZeroRunStartIsLeast(s, p + l - 1, p);
  }

  lemma PiecesWithoutCode(s: Bytes)
    requires forall i | 0 <= i < |s| :: !CodeEndsAt(s, i)
    ensures !HasCode(s)
    ensures Pieces(s)[0] == s && Pieces(s)[1..] == []
  {
    FirstEndIsLeast(s, 0, |s|);
  }

  /** The NAL units of a payload: everything when there is no start code, else what follows the first one. */
  function UnitsOf(payload: Bytes): seq<Bytes> {
    if HasCode(payload) then Pieces(payload)[1..] else [payload]
  }

  /** A byte stream of the given units, the k-th after zeros[k] zero bytes and a 01. */
  function AnnexB(units: seq<Bytes>, zeros: seq<nat>): Bytes
    requires |units| == |zeros|
  {
    if units == [] then [] else Zeros(zeros[0]) + [1] + units[0] + AnnexB(units[1..], zeros[1..])
  }

  /** A NAL unit of types 1 to 23 that an Annex B stream can carry. */
  predicate ValidUnit(u: Bytes) {
    && |u| > 0
    && u[0] < 128
    && 1 <= NaluType(u[0]) <= 23
    && u[|u| - 1] != 0
    && forall i | 0 <= i < |u| :: !CodeEndsAt(u, i)
  }

  predicate ValidUnits(units: seq<Bytes>) {
    forall k | 0 <= k < |units| :: ValidUnit(units[k])
  }

  /** Every start code has at least two zeros before its 01. */
  predicate StartCodes(zeros: seq<nat>) {
    forall k | 0 <= k < |zeros| :: zeros[k] >= 2
  }

  lemma PiecesOfUnit(u: Bytes)
    requires ValidUnit(u) || u == []
    ensures !HasCode(u) && Pieces(u) == [u]
  {
    PiecesWithoutCode(u);
  }

  lemma CodeAfterUnit(u: Bytes, z: nat, rest: Bytes)
    requires ValidUnit(u) || u == []
    requires z >= 2
    ensures IsFirstCode(u + (Zeros(z) + [1] + rest), |u|, z + 1)
  {
    var s := u + (Zeros(z) + [1] + rest);
    assert forall k | 0 <= k < |u| :: s[k] == u[k];
    assert forall k | |u| <= k < |u| + z :: s[k] == 0;
    assert s[|u| + z] == 1;
    forall i | 0 <= i < |u| + z ensures !CodeEndsAt(s, i) {
      if i < |u| {
        assert !CodeEndsAt(u, i);
      }
    }
  }

  /** A unit (or nothing) followed by z zeros, a 01 and more is cut right after the unit. */
  lemma CutAfterUnit(u: Bytes, z: nat, rest: Bytes)
    requires ValidUnit(u) || u == []
    requires z >= 2
    ensures var s := u + (Zeros(z) + [1] + rest);
            HasCode(s) && Pieces(s) == [u] + Pieces(rest)
  {
    var s := u + (Zeros(z) + [1] + rest);
    CodeAfterUnit(u, z, rest);
    PiecesAtCode(s, |u|, z + 1);
    assert s[..|u|] == u;
    assert s[|u| + z + 1..] == rest;
  }

  lemma {:induction false} PiecesOfAnnexB(u: Bytes, units: seq<Bytes>, zeros: seq<nat>)
    requires ValidUnit(u) || u == []
    requires ValidUnits(units) && |units| == |zeros| && StartCodes(zeros)
    ensures Pieces(u + AnnexB(units, zeros)) == [u] + units
    ensures HasCode(u + AnnexB(units, zeros)) <==> units != []
    decreases |units|
  {
    hide Pieces, HasCode, ValidUnit;
    if units == [] {
      assert u + AnnexB(units, zeros) == u;
      PiecesOfUnit(u);
    } else {
      CutAfterUnit(u, zeros[0], units[0] + AnnexB(units[1..], zeros[1..]));
      assert Zeros(zeros[0]) + [1] + (units[0] + AnnexB(units[1..], zeros[1..])) == AnnexB(units, zeros);
      PiecesOfAnnexB(units[0], units[1..], zeros[1..]);
    }
  }

  /** Splitting recovers the units, whatever the mix of start codes. */
  lemma UnitsOfAnnexB(units: seq<Bytes>, zeros: seq<nat>)
    requires units != [] && ValidUnits(units)
    requires |units| == |zeros| && StartCodes(zeros)
    ensures UnitsOf(AnnexB(units, zeros)) == units
  {
    PiecesOfAnnexB([], units, zeros);
    assert [] + AnnexB(units, zeros) == AnnexB(units, zeros);
  }

  // ---------- Packetizer ----------

  /** The parameter sets seen but not sent yet. */
  datatype ParameterSets = ParameterSets(sps: Option<Bytes>, pps: Option<Bytes>) {
    predicate Complete() {
      sps.Some? && pps.Some?
    }

    /** The packetizer only stores non-empty units of the right type. */
    predicate Valid() {
      && (sps.Some? ==> |sps.value| > 0 && NaluType(sps.value[0]) == SPS_NALU_TYPE)
      && (pps.Some? ==> |pps.value| > 0 && NaluType(pps.value[0]) == PPS_NALU_TYPE)
    }
  }

  const NO_SETS := ParameterSets(None, None)

  /** The STAP-A packet of a sequence and a picture parameter set. */
  function StapA(sps: Bytes, pps: Bytes): Bytes {
    [OUTPUT_STAPA_HEADER] + BigEndian(|sps|, 2) + sps + BigEndian(|pps|, 2) + pps
  }

  /** The FU-A fragment that carries nalu[i..i + size]: start bit 0x80 on the first, end bit 0x40 on the last. */
  function Fragment(nalu: Bytes, i: nat, size: nat): Bytes
    requires 1 <= i && i + size <= |nalu|
  {
    var flags := if i == 1 then 0x80 else if i + size == |nalu| then 0x40 else 0;
    [FUA_NALU_TYPE + RefIdc(nalu[0]), NaluType(nalu[0]) + flags] + nalu[i..i + size]
  }

  /** The fragments of nalu[i..], each with at most max bytes of it. */
  function Fragments(nalu: Bytes, max: nat, i: nat): seq<Bytes>
    requires 1 <= i <= |nalu| && max > 0
    decreases |nalu| - i
  {
    if i == |nalu| then []
    else
      var size := if max < |nalu| - i then max else |nalu| - i;
      [Fragment(nalu, i, size)] + Fragments(nalu, max, i + size)
  }

  /** How a unit itself is sent: whole when it fits, else in fragments, else (mtu too small) not at all. */
  function Carry(nalu: Bytes, mtu: nat): seq<Bytes>
    requires |nalu| > 0
  {
    if |nalu| <= mtu then [nalu]
    else if mtu <= FUA_HEADER_SIZE then []
    else Fragments(nalu, mtu - FUA_HEADER_SIZE, 1)
  }

  /** The stored parameter sets and the packets after one more unit. */
  function EmitUnit(sets: ParameterSets, nalu: Bytes, mtu: nat): (ParameterSets, seq<Bytes>) {
    if nalu == [] then (sets, [])
    else
      var t := NaluType(nalu[0]);
      if t == AUD_NALU_TYPE || t == FILLER_NALU_TYPE then (sets, [])
      else if t == SPS_NALU_TYPE then (sets.(sps := Some(nalu)), [])
      else if t == PPS_NALU_TYPE then (sets.(pps := Some(nalu)), [])
      else if sets.Complete() then
        var stap := StapA(sets.sps.value, sets.pps.value);
        (NO_SETS, (if |stap| <= mtu then [stap] else []) + Carry(nalu, mtu))
      else (sets, Carry(nalu, mtu))
  }

  function EmitUnits(sets: ParameterSets, units: seq<Bytes>, mtu: nat): (ParameterSets, seq<Bytes>)
    decreases |units|
  {
    if units == [] then (sets, [])
    else
      var (sets1, first) := EmitUnit(sets, units[0], mtu);
      var (sets2, rest) := EmitUnits(sets1, units[1..], mtu);
      (sets2, first + rest)
  }

  /** What packetize does to the stored parameter sets, and the packets it returns. */
  function PacketizeSpec(sets: ParameterSets, payload: Bytes, mtu: nat): (ParameterSets, seq<Bytes>) {
    if payload == [] || mtu == 0 then (sets, []) else EmitUnits(sets, UnitsOf(payload), mtu)
  }

  class H264Packetizer {
    var spsNalu: Option<Bytes>
    var ppsNalu: Option<Bytes>

    constructor ()
      ensures Sets() == NO_SETS
    {
      spsNalu, ppsNalu := None, None;
    }

    ghost function Sets(): ParameterSets
      reads this
    {
      ParameterSets(spsNalu, ppsNalu)
    }

    /** Finds the first start code of nalu at or after start; (-1, -1) when there is none. */
    static method NextInd(nalu: Bytes, start: nat) returns (pos: int, len: int)
      requires start <= |nalu|
      ensures pos == -1 ==> len == -1 && forall i | 0 <= i < |nalu[start..]| :: !CodeEndsAt(nalu[start..], i)
      ensures pos != -1 ==> IsFirstCode(nalu[start..], pos - start, len)
    {
      var zeroCount := 0;
      var i := start;
      ghost var s := nalu[start..];
      while i < |nalu|
        invariant start <= i <= |nalu|
        invariant 0 <= zeroCount <= i - start
        invariant forall k | i - start - zeroCount <= k < i - start :: s[k] == 0
        invariant zeroCount < i - start ==> s[i - start - zeroCount - 1] != 0
        invariant forall j | 0 <= j < i - start :: !CodeEndsAt(s, j)
      {
        var b := nalu[i];
        assert b == s[i - start];
        if b == 0 {
          zeroCount := zeroCount + 1;
        } else {
          if b == 1 && zeroCount >= 2 {
            return i - zeroCount, zeroCount + 1;
          }
          zeroCount := 0;
        }
        i := i + 1;
      }
      return -1, -1;
    }

    /** Sends the unit itself: as a single NAL unit packet, or in FU-A fragments. */
    static method SendUnit(nalu: Bytes, mtu: nat, payloads: seq<Bytes>) returns (r: seq<Bytes>)
      requires |nalu| > 0
      ensures r == payloads + Carry(nalu, mtu)
    {
      r := payloads;
      assert r == payloads + [];
      var naluType := NaluType(nalu[0]);
      var refIdc := RefIdc(nalu[0]);
      if |nalu| <= mtu {
        r := r + [nalu];
        return;
      }

      var maxFragmentSize := mtu - FUA_HEADER_SIZE;
      var index := 1;
      var length := |nalu| - index;
      var remaining := length;
      if maxFragmentSize <= 0 || remaining <= 0 {
        return;
      }
      while remaining > 0
        invariant 1 <= index <= |nalu| && remaining == |nalu| - index
        invariant r + Fragments(nalu, maxFragmentSize, index) == payloads + Fragments(nalu, maxFragmentSize, 1)
      {
        var size := if maxFragmentSize < remaining then maxFragmentSize else remaining;
        var b0: byte := FUA_NALU_TYPE + refIdc;
        var b1: byte := naluType;
        if remaining == length {
          b1 := b1 + 0x80;
        } else if remaining - size == 0 {
          b1 := b1 + 0x40;
        }
        ghost var sent := r;
        r := r + [[b0, b1] + nalu[index..index + size]];
        assert r + Fragments(nalu, maxFragmentSize, index + size) == sent + Fragments(nalu, maxFragmentSize, index);
        remaining := remaining - size;
        index := index + size;
      }
      assert r == payloads + Fragments(nalu, maxFragmentSize, 1);
    }

    /** Sends one unit: appends its packets to payloads. */
    method Emit(nalu: Bytes, mtu: nat, payloads: seq<Bytes>) returns (r: seq<Bytes>)
      modifies this
      ensures Sets() == EmitUnit(old(Sets()), nalu, mtu).0
      ensures r == payloads + EmitUnit(old(Sets()), nalu, mtu).1
    {
      r := payloads;
      assert r == payloads + [];
      if nalu == [] {
        return;
      }
      var naluType := NaluType(nalu[0]);
      if naluType == AUD_NALU_TYPE || naluType == FILLER_NALU_TYPE {
        return;
      } else if naluType == SPS_NALU_TYPE {
        spsNalu := Some(nalu);
        return;
      } else if naluType == PPS_NALU_TYPE {
        ppsNalu := Some(nalu);
        return;
      } else if spsNalu.Some? && ppsNalu.Some? {
        var stapA := [OUTPUT_STAPA_HEADER];
        stapA := stapA + BigEndian(|spsNalu.value|, 2) + spsNalu.value;
        stapA := stapA + BigEndian(|ppsNalu.value|, 2) + ppsNalu.value;
        if |stapA| <= mtu {
          r := r + [stapA];
        }
      }
      if spsNalu.Some? && ppsNalu.Some? {
        spsNalu := None;
        ppsNalu := None;
      }
      r := SendUnit(nalu, mtu, r);
    }

    /** Splits an Annex B payload into NAL units and packetizes each. */
    method Packetize(mtu: nat, payload: Bytes) returns (payloads: seq<Bytes>)
      modifies this
      ensures (Sets(), payloads) == PacketizeSpec(old(Sets()), payload, mtu)
    {
      hide Pieces, EmitUnit, IsFirstCode, HasCode, CodeEndsAt;
      payloads := [];
      if payload == [] || mtu == 0 {
        return;
      }
      ghost var left := UnitsOf(payload);
      ghost var all := EmitUnits(Sets(), left, mtu);
      assert [] + all.1 == all.1;
      assert payload[0..] == payload;
      var nextStart, nextLen := NextInd(payload, 0);
      if nextStart == -1 {
        PiecesWithoutCode(payload);
        ContinuesStep(all, Sets(), payloads, left, mtu);
        payloads := Emit(payload, mtu, payloads);
        left := left[1..];
      } else {
        PiecesAtCode(payload, nextStart, nextLen);
        while nextStart != -1
          invariant nextStart != -1 ==> 0 <= nextStart && 3 <= nextLen && nextStart + nextLen <= |payload|
          invariant nextStart != -1 ==> left == Pieces(payload[nextStart + nextLen..])
          invariant nextStart == -1 ==> left == []
          invariant Continues(all, Sets(), payloads, left, mtu)
          decreases if nextStart == -1 then -1 else |payload| - nextStart
        {
          var prevStart := nextStart + nextLen;
          nextStart, nextLen := NextInd(payload, prevStart);
          ContinuesStep(all, Sets(), payloads, left, mtu);
          if nextStart != -1 {
            PieceAfter(payload, prevStart, nextStart, nextLen);
            payloads := Emit(payload[prevStart..nextStart], mtu, payloads);
            left := left[1..];
          } else {
            PiecesWithoutCode(payload[prevStart..]);
            payloads := Emit(payload[prevStart..], mtu, payloads);
            left := [];
          }
        }
      }
      assert payloads + [] == payloads;
    }
  }

  /** Emitting the units that are left, after the payloads so far, gives the overall result. */
  predicate Continues(all: (ParameterSets, seq<Bytes>), sets: ParameterSets, payloads: seq<Bytes>,
                      left: seq<Bytes>, mtu: nat)
  {
    all == (EmitUnits(sets, left, mtu).0, payloads + EmitUnits(sets, left, mtu).1)
  }

  lemma ContinuesStep(all: (ParameterSets, seq<Bytes>), sets: ParameterSets, payloads: seq<Bytes>,
                      left: seq<Bytes>, mtu: nat)
    requires left != [] && Continues(all, sets, payloads, left, mtu)
    ensures var (sets1, first) := EmitUnit(sets, left[0], mtu);
            Continues(all, sets1, payloads + first, left[1..], mtu)
  {
    var (sets1, first) := EmitUnit(sets, left[0], mtu);
    var (_, others) := EmitUnits(sets1, left[1..], mtu);
    assert payloads + (first + others) == payloads + first + others;
  }

  lemma PieceAfter(s: Bytes, start: nat, p: int, l: int)
    requires start <= |s| && IsFirstCode(s[start..], p - start, l)
    ensures Pieces(s[start..])[0] == s[start..p] && Pieces(s[start..])[1..] == Pieces(s[p + l..])
  {
    hide CodeEndsAt, Pieces, HasCode;
    PiecesAtCode(s[start..], p - start, l);
    assert s[start..][..p - start] == s[start..p];
    assert s[start..][p - start + l..] == s[p + l..];
  }

  // ---------- Depacketizer ----------

  /** The depacketizer's output mode and the bytes of the fragments received so far. */
  datatype DepacketizerState = DepacketizerState(isAvc: bool, fuaBuffer: Option<Bytes>)

  /** A unit as it is written out: after its length in AVC mode, else after a start code. */
  function Framed(isAvc: bool, unit: Bytes): Bytes {
    (if isAvc then BigEndian(|unit|, 4) else START_CODE) + unit
  }

  /** The extra information after one more unit of the given type. */
  function Mark(extra: CodecExtra, naluType: byte): CodecExtra {
    H264Extra(naluType == IDR_NALU_TYPE || (extra.H264Extra? && extra.isKeyframe))
  }

  /** Unpacks the units of a STAP-A packet from an offset on. */
  function UnpackStapA(isAvc: bool, packet: Bytes, offset: nat, out: Bytes, extra: CodecExtra):
    (Bytes, CodecExtra, Option<PacketError>)
    requires offset <= |packet|
    decreases |packet| - offset
  {
    if offset + 1 >= |packet| then (out, extra, None)
    else
      var size := Read16(packet, offset);
      var start := offset + 2;
      if start + size > |packet| then (out, extra, Some(StapASizeLargerThanBuffer(size, |packet| - start)))
      else if start == |packet| then (out, extra, Some(SliceIndexPanic))
      else
        UnpackStapA(isAvc, packet, start + size,
                    out + Framed(isAvc, packet[start..start + size]), Mark(extra, NaluType(packet[start])))
  }

  /** What depacketizing one packet leaves in the depacketizer and in its outputs. */
  function DepacketizeSpec(s: DepacketizerState, packet: Bytes, out: Bytes, extra: CodecExtra):
    Depacked<DepacketizerState>
  {
    if packet == [] then Depacked(s, out, extra, Some(ShortPacket))
    else
      var t := NaluType(packet[0]);
      if 1 <= t <= 23 then
        Depacked(s, out + Framed(s.isAvc, packet), Mark(extra, t), None)
      else if t == STAPA_NALU_TYPE then
        var (out', extra', error) := UnpackStapA(s.isAvc, packet, 1, out, extra);
        Depacked(s, out', extra', error)
      else if t == FUA_NALU_TYPE then
        if |packet| < FUA_HEADER_SIZE then Depacked(s, out, extra, Some(ShortPacket))
        else
          var buffer := (if s.fuaBuffer.Some? then s.fuaBuffer.value else []) + packet[FUA_HEADER_SIZE..];
          if packet[1] / 64 % 2 == 1 then
            var u := [RefIdc(packet[0]) + NaluType(packet[1])] + buffer;
            Depacked(s.(fuaBuffer := None), out + Framed(s.isAvc, u), Mark(extra, NaluType(packet[1])), None)
          else Depacked(s.(fuaBuffer := Some(buffer)), out, extra, None)
      else Depacked(s, out, extra, Some(NaluTypeIsNotHandled(t)))
  }

  function IsPartitionHead(packet: Bytes): bool {
    if |packet| < 2 then false
    else if NaluType(packet[0]) == FUA_NALU_TYPE || NaluType(packet[0]) == FUB_NALU_TYPE then packet[1] / 128 == 1
    else true
  }

  function IsPartitionTail(marker: bool, packet: Bytes): bool {
    marker
  }

  const CODEC: Codec<DepacketizerState> := Codec(IsPartitionHead, IsPartitionTail, DepacketizeSpec)

  class H264Depacketizer {
    var isAvc: bool
    var fuaBuffer: Option<Bytes>

    constructor (isAvc: bool)
      ensures State() == DepacketizerState(isAvc, None)
    {
      this.isAvc, fuaBuffer := isAvc, None;
    }

    ghost function State(): DepacketizerState
      reads this
    {
      DepacketizerState(isAvc, fuaBuffer)
    }

    /** Depacketizes one packet, appending to out and updating extra. */
    method Depacketize(packet: Bytes, out: Bytes, extra: CodecExtra)
      returns (out': Bytes, extra': CodecExtra, error: Option<PacketError>)
      modifies this
      ensures Depacked(State(), out', extra', error) == DepacketizeSpec(old(State()), packet, out, extra)
    {
      hide Framed;
      out', extra', error := out, extra, None;
      if packet == [] {
        return out', extra', Some(ShortPacket);
      }
      var b0 := packet[0];
      var naluType := NaluType(b0);
      if 1 <= naluType <= 23 {
        extra' := Mark(extra', naluType);
        out' := AppendUnit(out', packet);
      } else if naluType == STAPA_NALU_TYPE {
        var offset := 1;
        while offset + 1 < |packet|
          invariant 1 <= offset <= |packet| && State() == old(State())
          invariant UnpackStapA(isAvc, packet, offset, out', extra') == UnpackStapA(isAvc, packet, 1, out, extra)
          decreases |packet| - offset
        {
          var size := Read16(packet, offset);
          offset := offset + 2;
          if offset + size > |packet| {
            return out', extra', Some(StapASizeLargerThanBuffer(size, |packet| - offset));
          }
          if offset == |packet| {
            return out', extra', Some(SliceIndexPanic);
          }
          extra' := Mark(extra', NaluType(packet[offset]));
          out' := AppendUnit(out', packet[offset..offset + size]);
          offset := offset + size;
        }
      } else if naluType == FUA_NALU_TYPE {
        if |packet| < FUA_HEADER_SIZE {
          return out', extra', Some(ShortPacket);
        }
        if fuaBuffer.None? {
          fuaBuffer := Some([]);
        }
        fuaBuffer := Some(fuaBuffer.value + packet[FUA_HEADER_SIZE..]);
        var b1 := packet[1];
        if b1 / 64 % 2 != 0 {
          var fragmentedType := NaluType(b1);
          extra' := Mark(extra', fragmentedType);
          out' := AppendUnit(out', [RefIdc(b0) + fragmentedType] + fuaBuffer.value);
          fuaBuffer := None;
        }
      } else {
        error := Some(NaluTypeIsNotHandled(naluType));
      }
    }

    method AppendUnit(out: Bytes, unit: Bytes) returns (r: Bytes)
      ensures r == out + Framed(isAvc, unit)
    {
      if isAvc {
        r := out + BigEndian(|unit|, 4);
      } else {
        r := out + START_CODE;
      }
      r := r + unit;
    }
  }

  // ---------- Malformed packets ----------

  /** The units of a STAP-A packet from an offset on are all there, but for at most one byte that is left over. */
  predicate UnitsAreThere(packet: Bytes, offset: nat)
    decreases |packet| - offset
  {
    offset + 1 >= |packet| ||
    (offset + 2 < |packet| && offset + 2 + Read16(packet, offset) <= |packet|
     && UnitsAreThere(packet, offset + 2 + Read16(packet, offset)))
  }

  lemma {:induction false} UnpacksIff(isAvc: bool, packet: Bytes, offset: nat, out: Bytes, extra: CodecExtra)
    requires offset <= |packet|
    ensures UnpackStapA(isAvc, packet, offset, out, extra).2.None? <==> UnitsAreThere(packet, offset)
    decreases |packet| - offset
  {
    if offset + 1 < |packet| {
      var start, size := offset + 2, Read16(packet, offset);
      if start + size <= |packet| && start < |packet| {
        UnpacksIff(isAvc, packet, start + size, out + Framed(isAvc, packet[start..start + size]),
                   Mark(extra, NaluType(packet[start])));
      }
    }
  }

  /**
   A packet is depacketized without an error if and only if it is a single unit, a fragment with its header, or a STAP-A
   packet whose units are all there.
   */
  lemma DepacketizesIff(s: DepacketizerState, packet: Bytes, out: Bytes, extra: CodecExtra)
    ensures DepacketizeSpec(s, packet, out, extra).error.None? <==>
            && packet != []
            && var t := NaluType(packet[0]);
               1 <= t <= 23 || (t == 24 && UnitsAreThere(packet, 1)) || (t == 28 && |packet| >= 2)
  {
    if packet != [] {
      UnpacksIff(s.isAvc, packet, 1, out, extra);
    }
    hide UnpackStapA, UnitsAreThere;
  }

  // ---------- Round trip ----------

  predicate IsParameterSet(u: Bytes)
    requires |u| > 0
  {
    NaluType(u[0]) == SPS_NALU_TYPE || NaluType(u[0]) == PPS_NALU_TYPE
  }

  predicate IsDropped(u: Bytes)
    requires |u| > 0
  {
    NaluType(u[0]) == AUD_NALU_TYPE || NaluType(u[0]) == FILLER_NALU_TYPE
  }

  /** A parameter set waits for the next other unit, which takes a complete pair with it. */
  function SetsAfter(sets: ParameterSets, u: Bytes): (r: ParameterSets)
    requires |u| > 0
    ensures sets.Valid() ==> r.Valid()
  {
    if NaluType(u[0]) == SPS_NALU_TYPE then sets.(sps := Some(u))
    else if NaluType(u[0]) == PPS_NALU_TYPE then sets.(pps := Some(u))
    else if !IsDropped(u) && sets.Complete() then NO_SETS
    else sets
  }

  /** The units the receiver gets when one more unit is sent. */
  function DeliveredFor(sets: ParameterSets, u: Bytes, mtu: nat): seq<Bytes>
    requires |u| > 0
  {
    if IsDropped(u) || IsParameterSet(u) then []
    else if sets.Complete() && |StapA(sets.sps.value, sets.pps.value)| <= mtu then
      [sets.sps.value, sets.pps.value, u]
    else [u]
  }

  /** The units the receiver gets for a list of units. */
  function Delivered(sets: ParameterSets, units: seq<Bytes>, mtu: nat): (r: seq<Bytes>)
    requires ValidUnits(units) && sets.Valid()
    ensures forall k | 0 <= k < |r| :: |r[k]| > 0
    decreases |units|
  {
    if units == [] then []
    else DeliveredFor(sets, units[0], mtu) + Delivered(SetsAfter(sets, units[0]), units[1..], mtu)
  }

  /** The output bytes for a list of delivered units. */
  function FramedAll(isAvc: bool, units: seq<Bytes>): Bytes
    decreases |units|
  {
    if units == [] then [] else Framed(isAvc, units[0]) + FramedAll(isAvc, units[1..])
  }

  /** The extra information for a list of delivered units. */
  function MarkAll(extra: CodecExtra, units: seq<Bytes>): CodecExtra
    requires forall k | 0 <= k < |units| :: |units[k]| > 0
    decreases |units|
  {
    if units == [] then extra else MarkAll(Mark(extra, NaluType(units[0][0])), units[1..])
  }

  lemma {:induction false} FramedAllConcat(isAvc: bool, a: seq<Bytes>, b: seq<Bytes>)
    ensures FramedAll(isAvc, a + b) == FramedAll(isAvc, a) + FramedAll(isAvc, b)
    decreases |a|
  {
    if a == [] {
      assert a + b == b;
    } else {
      assert (a + b)[1..] == a[1..] + b;
      FramedAllConcat(isAvc, a[1..], b);
    }
  }

  /** The extra information tells whether any of the units was an IDR unit, or it already said so. */
  lemma {:induction false} MarkAllMeaning(extra: CodecExtra, units: seq<Bytes>)
    requires forall k | 0 <= k < |units| :: |units[k]| > 0
    requires units != []
    ensures MarkAll(extra, units) ==
            H264Extra((exists k | 0 <= k < |units| :: NaluType(units[k][0]) == IDR_NALU_TYPE) ||
                      (extra.H264Extra? && extra.isKeyframe))
    decreases |units|
  {
    var m := Mark(extra, NaluType(units[0][0]));
    if |units| > 1 {
      MarkAllMeaning(m, units[1..]);
      assert forall k | 1 <= k < |units| :: units[k] == units[1..][k - 1];
    } else {
      assert units[1..] == [];
    }
  }

  /** A STAP-A packet unpacks to its two units. */
  lemma StapAUnpacks(s: DepacketizerState, sps: Bytes, pps: Bytes, out: Bytes, extra: CodecExtra)
    requires 0 < |sps| < 0x1_0000 && 0 < |pps| < 0x1_0000
    ensures DepacketizeSpec(s, StapA(sps, pps), out, extra) ==
            Depacked(s, out + FramedAll(s.isAvc, [sps, pps]), MarkAll(extra, [sps, pps]), None)
  {
    hide Framed;
    var p := StapA(sps, pps);
    var i := 3 + |sps|;
    BigEndian16(|sps|);
    BigEndian16(|pps|);
    assert p == [OUTPUT_STAPA_HEADER, |sps| / 256, |sps| % 256] + sps + [|pps| / 256, |pps| % 256] + pps;
    assert Read16(p, 1) == |sps| && Read16(p, i) == |pps|;
    assert p[3..i] == sps && p[i + 2..] == pps;
    var out1, extra1 := out + Framed(s.isAvc, sps), Mark(extra, NaluType(sps[0]));
    var out2, extra2 := out1 + Framed(s.isAvc, pps), Mark(extra1, NaluType(pps[0]));
    assert p[i + 2..i + 2 + |pps|] == pps;
    assert UnpackStapA(s.isAvc, p, |p|, out2, extra2) == (out2, extra2, None);
    assert UnpackStapA(s.isAvc, p, i, out1, extra1) == (out2, extra2, None);
    assert UnpackStapA(s.isAvc, p, 1, out, extra) == (out2, extra2, None);
    assert FramedAll(s.isAvc, [pps]) == Framed(s.isAvc, pps);
    assert [sps, pps][1..] == [pps];
    assert out2 == out + FramedAll(s.isAvc, [sps, pps]);
    assert MarkAll(extra1, [pps]) == extra2;
  }

  /** The two header bytes of a fragment, read back. */
  lemma FragmentHeader(nalu: Bytes, i: nat, size: nat)
    requires 1 <= i && 0 < size < |nalu| - 1 && i + size <= |nalu|
    ensures var f := Fragment(nalu, i, size);
            && |f| == FUA_HEADER_SIZE + size
            && NaluType(f[0]) == FUA_NALU_TYPE && RefIdc(f[0]) == RefIdc(nalu[0])
            && NaluType(f[1]) == NaluType(nalu[0])
            && (f[1] / 64 % 2 == 1 <==> i + size == |nalu|)
            && (f[1] / 128 == 1 <==> i == 1)
            && f[FUA_HEADER_SIZE..] == nalu[i..i + size]
  {
    var f := Fragment(nalu, i, size);
    assert f[0] == 28 + nalu[0] / 32 % 4 * 32;
    assert f[1] == nalu[0] % 32 + if i == 1 then 128 else if i + size == |nalu| then 64 else 0;
  }

  /** One fragment: it extends the buffered bytes, or completes the unit when it is the last of several. */
  lemma FragmentStep(s: DepacketizerState, nalu: Bytes, i: nat, size: nat, out: Bytes, extra: CodecExtra)
    requires 1 <= i && 0 < size < |nalu| - 1 && i + size <= |nalu|
    requires ValidUnit(nalu)
    requires s.fuaBuffer == if i == 1 then None else Some(nalu[1..i])
    ensures DepacketizeSpec(s, Fragment(nalu, i, size), out, extra) ==
            if i + size == |nalu| then
              Depacked(s.(fuaBuffer := None), out + Framed(s.isAvc, nalu), Mark(extra, NaluType(nalu[0])), None)
            else
              Depacked(s.(fuaBuffer := Some(nalu[1..i + size])), out, extra, None)
  {
    hide Fragment, UnpackStapA, Framed;
    var buffer := nalu[1..i + size];
    FragmentHeader(nalu, i, size);
    assert (if s.fuaBuffer.Some? then s.fuaBuffer.value else []) + nalu[i..i + size] == buffer;
    if i + size == |nalu| {
      assert RefIdc(nalu[0]) + NaluType(nalu[0]) == nalu[0];
      assert [nalu[0]] + buffer == nalu;
    }
  }

  /** The fragments of a unit, from the one that starts at i on, complete the unit. */
  lemma {:induction false} FragmentsReassemble(s: DepacketizerState, nalu: Bytes, max: nat, i: nat,
                                               out: Bytes, extra: CodecExtra)
    requires 1 <= i < |nalu| && max > 0 && |nalu| - 1 > max
    requires ValidUnit(nalu)
    requires s.fuaBuffer == if i == 1 then None else Some(nalu[1..i])
    ensures CODEC.DepacketizeAll(s, Fragments(nalu, max, i), out, extra) ==
            Depacked(s.(fuaBuffer := None), out + Framed(s.isAvc, nalu), Mark(extra, NaluType(nalu[0])), None)
    decreases |nalu| - i
  {
    var size := if max < |nalu| - i then max else |nalu| - i;
    var rest := Fragments(nalu, max, i + size);
    assert Fragments(nalu, max, i)[1..] == rest;
    FragmentStep(s, nalu, i, size, out, extra);
    if i + size == |nalu| {
      assert rest == [];
    } else {
      FragmentsReassemble(s.(fuaBuffer := Some(nalu[1..i + size])), nalu, max, i + size, out, extra);
    }
  }

  lemma {:induction false} MarkAllConcat(extra: CodecExtra, a: seq<Bytes>, b: seq<Bytes>)
    requires forall k | 0 <= k < |a| :: |a[k]| > 0
    requires forall k | 0 <= k < |b| :: |b[k]| > 0
    ensures MarkAll(extra, a + b) == MarkAll(MarkAll(extra, a), b)
    decreases |a|
  {
    if a == [] {
      assert a + b == b;
    } else {
      assert (a + b)[1..] == a[1..] + b;
      MarkAllConcat(Mark(extra, NaluType(a[0][0])), a[1..], b);
    }
  }

  lemma OnePacket(s: DepacketizerState, p: Bytes, out: Bytes, extra: CodecExtra)
    requires DepacketizeSpec(s, p, out, extra).error == None
    ensures CODEC.DepacketizeAll(s, [p], out, extra) == DepacketizeSpec(s, p, out, extra)
  {
    var d := DepacketizeSpec(s, p, out, extra);
    assert CODEC.DepacketizeAll(d.state, [p][1..], d.out, d.extra) == d;
  }

  /**
   Depacketizing the packets from state s writes exactly these units, framed, marks them in the extra
   information, and leaves the state as it was.
   */
  ghost predicate Conveys(s: DepacketizerState, packets: seq<Bytes>, units: seq<Bytes>) {
    && (forall k | 0 <= k < |units| :: |units[k]| > 0)
    && forall out, extra ::
         CODEC.DepacketizeAll(s, packets, out, extra) ==
         Depacked(s, out + FramedAll(s.isAvc, units), MarkAll(extra, units), None)
  }

  lemma ConveysConcat(s: DepacketizerState, p1: seq<Bytes>, u1: seq<Bytes>, p2: seq<Bytes>, u2: seq<Bytes>)
    requires Conveys(s, p1, u1) && Conveys(s, p2, u2)
    ensures Conveys(s, p1 + p2, u1 + u2)
  {
    var f1, f2 := FramedAll(s.isAvc, u1), FramedAll(s.isAvc, u2);
    FramedAllConcat(s.isAvc, u1, u2);
    forall out, extra
      ensures CODEC.DepacketizeAll(s, p1 + p2, out, extra) ==
              Depacked(s, out + (f1 + f2), MarkAll(extra, u1 + u2), None)
    {
      CODEC.DepacketizeAllConcat(s, p1, p2, out, extra);
      MarkAllConcat(extra, u1, u2);
      AppendAssociates(out, f1, f2);
    }
  }

  lemma AppendAssociates(a: Bytes, b: Bytes, c: Bytes)
    ensures a + b + c == a + (b + c)
  {
  }

  lemma NothingConveysNothing(s: DepacketizerState)
    ensures Conveys(s, [], [])
  {
    forall out: Bytes, extra ensures out + FramedAll(s.isAvc, []) == out && MarkAll(extra, []) == extra {
      assert out + [] == out;
    }
  }

  lemma StapAConveys(s: DepacketizerState, sps: Bytes, pps: Bytes)
    requires 0 < |sps| < 0x1_0000 && 0 < |pps| < 0x1_0000
    ensures Conveys(s, [StapA(sps, pps)], [sps, pps])
  {
    forall out, extra
      ensures CODEC.DepacketizeAll(s, [StapA(sps, pps)], out, extra) ==
              Depacked(s, out + FramedAll(s.isAvc, [sps, pps]), MarkAll(extra, [sps, pps]), None)
    {
      StapAUnpacks(s, sps, pps, out, extra);
      OnePacket(s, StapA(sps, pps), out, extra);
    }
  }

  /** The packets that carry a unit give it back, whether it was fragmented or not. */
  lemma CarryConveys(s: DepacketizerState, u: Bytes, mtu: nat)
    requires ValidUnit(u) && mtu >= 3 && s.fuaBuffer == None
    ensures Conveys(s, Carry(u, mtu), [u])
  {
    assert FramedAll(s.isAvc, [u]) == Framed(s.isAvc, u);
    forall out, extra
      ensures CODEC.DepacketizeAll(s, Carry(u, mtu), out, extra) ==
              Depacked(s, out + Framed(s.isAvc, u), Mark(extra, NaluType(u[0])), None)
    {
      if |u| <= mtu {
        OnePacket(s, u, out, extra);
      } else {
        FragmentsReassemble(s, u, mtu - FUA_HEADER_SIZE, 1, out, extra);
      }
    }
  }

  lemma UnitConveys(sets: ParameterSets, s: DepacketizerState, u: Bytes, mtu: nat)
    requires ValidUnit(u) && sets.Valid() && 3 <= mtu < 0x1_0000 && s.fuaBuffer == None
    ensures EmitUnit(sets, u, mtu).0 == SetsAfter(sets, u)
    ensures Conveys(s, EmitUnit(sets, u, mtu).1, DeliveredFor(sets, u, mtu))
  {
    if IsDropped(u) || IsParameterSet(u) {
      NothingConveysNothing(s);
    } else {
      CarryConveys(s, u, mtu);
      if sets.Complete() && |StapA(sets.sps.value, sets.pps.value)| <= mtu {
        StapAConveys(s, sets.sps.value, sets.pps.value);
        ConveysConcat(s, [StapA(sets.sps.value, sets.pps.value)], [sets.sps.value, sets.pps.value],
                      Carry(u, mtu), [u]);
        assert [sets.sps.value, sets.pps.value] + [u] == DeliveredFor(sets, u, mtu);
      } else {
        assert [] + Carry(u, mtu) == Carry(u, mtu);
      }
    }
  }

  lemma {:induction false} UnitsConvey(sets: ParameterSets, s: DepacketizerState, units: seq<Bytes>, mtu: nat)
    requires ValidUnits(units) && sets.Valid() && 3 <= mtu < 0x1_0000 && s.fuaBuffer == None
    ensures Conveys(s, EmitUnits(sets, units, mtu).1, Delivered(sets, units, mtu))
    decreases |units|
  {
    if units == [] {
      NothingConveysNothing(s);
    } else {
      var sets1 := SetsAfter(sets, units[0]);
      UnitConveys(sets, s, units[0], mtu);
      UnitsConvey(sets1, s, units[1..], mtu);
      ConveysConcat(s, EmitUnit(sets, units[0], mtu).1, DeliveredFor(sets, units[0], mtu),
                    EmitUnits(sets1, units[1..], mtu).1, Delivered(sets1, units[1..], mtu));
    }
  }

  /**
   Round trip: the packets of an Annex B stream, depacketized in order, give back the units of the stream, each
   framed anew, with delimiters and filler gone and complete parameter set pairs where a STAP-A packet fits.
   */
  lemma RoundTrip(sets: ParameterSets, isAvc: bool, units: seq<Bytes>, zeros: seq<nat>, mtu: nat)
    requires sets.Valid() && ValidUnits(units) && |units| == |zeros| && StartCodes(zeros)
    requires 3 <= mtu < 0x1_0000
    ensures Conveys(DepacketizerState(isAvc, None),
                    PacketizeSpec(sets, AnnexB(units, zeros), mtu).1,
                    Delivered(sets, units, mtu))
  {
    UnitsConvey(sets, DepacketizerState(isAvc, None), units, mtu);
    if units != [] {
      UnitsOfAnnexB(units, zeros);
    }
  }

  /** The units that carry pictures and other data of their own. */
  function Contents(units: seq<Bytes>): seq<Bytes>
    requires forall k | 0 <= k < |units| :: |units[k]| > 0
    decreases |units|
  {
    if units == [] then []
    else if IsDropped(units[0]) || IsParameterSet(units[0]) then Contents(units[1..])
    else [units[0]] + Contents(units[1..])
  }

  lemma {:induction false} ContentsConcat(a: seq<Bytes>, b: seq<Bytes>)
    requires forall k | 0 <= k < |a| :: |a[k]| > 0
    requires forall k | 0 <= k < |b| :: |b[k]| > 0
    ensures Contents(a + b) == Contents(a) + Contents(b)
    decreases |a|
  {
    if a == [] {
      assert a + b == b;
    } else {
      assert (a + b)[1..] == a[1..] + b;
      ContentsConcat(a[1..], b);
    }
  }

  lemma ContentsOfOne(sets: ParameterSets, u: Bytes, mtu: nat)
    requires |u| > 0 && sets.Valid()
    ensures Contents(DeliveredFor(sets, u, mtu)) == if IsDropped(u) || IsParameterSet(u) then [] else [u]
  {
    var own := [u];
    assert own[1..] == [];
    if |DeliveredFor(sets, u, mtu)| == 3 {
      var sps, pps := [sets.sps.value], [sets.pps.value];
      assert sps[1..] == [] && pps[1..] == [];
      ContentsConcat(pps, own);
      ContentsConcat(sps, pps + own);
      assert DeliveredFor(sets, u, mtu) == sps + (pps + own);
    }
  }

  /** No such unit is lost, added or moved, whatever happens to the parameter sets. */
  lemma {:induction false} ContentsAreDelivered(sets: ParameterSets, units: seq<Bytes>, mtu: nat)
    requires ValidUnits(units) && sets.Valid()
    ensures Contents(Delivered(sets, units, mtu)) == Contents(units)
    decreases |units|
  {
    if units != [] {
      var sets1 := SetsAfter(sets, units[0]);
      ContentsOfOne(sets, units[0], mtu);
      ContentsAreDelivered(sets1, units[1..], mtu);
      ContentsConcat(DeliveredFor(sets, units[0], mtu), Delivered(sets1, units[1..], mtu));
    }
  }

  /** A stream of such units only, with no parameter sets pending, comes back unchanged. */
  lemma {:induction false} PlainUnitsAreUnchanged(units: seq<Bytes>, mtu: nat)
    requires ValidUnits(units)
    requires forall k | 0 <= k < |units| :: !IsDropped(units[k]) && !IsParameterSet(units[k])
    ensures Delivered(NO_SETS, units, mtu) == units
    decreases |units|
  {
    if units != [] {
      PlainUnitsAreUnchanged(units[1..], mtu);
      assert [units[0]] + units[1..] == units;
    }
  }

  // ---------- Packets ----------

  predicate Fits(packets: seq<Bytes>, mtu: nat) {
    forall k | 0 <= k < |packets| :: 0 < |packets[k]| <= mtu
  }

  /**
   The fragments of an oversized unit: at least two, none too long, the start bit on the first one only, the end
   bit on the last one only, and the data of the unit after its first byte when put end to end.
   */
  lemma {:induction false} FragmentsShape(nalu: Bytes, max: nat, i: nat)
    requires 1 <= i < |nalu| && 0 < max < |nalu| - 1
    ensures var fs := Fragments(nalu, max, i);
            && Fits(fs, max + FUA_HEADER_SIZE)
            && |fs| >= (if i == 1 then 2 else 1)
            && (forall k | 0 <= k < |fs| ::
                  && |fs[k]| > FUA_HEADER_SIZE
                  && (fs[k][1] / 128 == 1 <==> i == 1 && k == 0)
                  && (fs[k][1] / 64 % 2 == 1 <==> k == |fs| - 1))
            && FragmentData(fs) == nalu[i..]
    decreases |nalu| - i
  {
    var size := if max < |nalu| - i then max else |nalu| - i;
    var f := Fragment(nalu, i, size);
    var fs := Fragments(nalu, max, i);
    var rest := Fragments(nalu, max, i + size);
    assert fs[1..] == rest;
    FragmentHeader(nalu, i, size);
    if i + size == |nalu| {
      assert rest == [] && FragmentData(rest) == [];
    } else {
      FragmentsShape(nalu, max, i + size);
      assert forall k | 1 <= k < |fs| :: fs[k] == rest[k - 1];
    }
    assert nalu[i..i + size] + nalu[i + size..] == nalu[i..];
  }

  /** The data after the two header bytes of each fragment, end to end. */
  function FragmentData(fs: seq<Bytes>): Bytes
    requires forall k | 0 <= k < |fs| :: |fs[k]| > FUA_HEADER_SIZE
    decreases |fs|
  {
    if fs == [] then [] else fs[0][FUA_HEADER_SIZE..] + FragmentData(fs[1..])
  }

  /** No packet is empty or longer than the mtu, for any units and any stored parameter sets. */
  lemma {:induction false} EmittedPacketsFit(sets: ParameterSets, units: seq<Bytes>, mtu: nat)
    ensures Fits(EmitUnits(sets, units, mtu).1, mtu)
    decreases |units|
  {
    if units != [] {
      EmittedPacketsFit(EmitUnit(sets, units[0], mtu).0, units[1..], mtu);
      if units[0] != [] && |units[0]| > mtu > FUA_HEADER_SIZE {
        FragmentsShape(units[0], mtu - FUA_HEADER_SIZE, 1);
      }
    }
  }

  /** No packet is empty or longer than the mtu, for any payload. */
  lemma PacketsFit(sets: ParameterSets, payload: Bytes, mtu: nat)
    ensures Fits(PacketizeSpec(sets, payload, mtu).1, mtu)
  {
    EmittedPacketsFit(sets, UnitsOf(payload), mtu);
  }
}
