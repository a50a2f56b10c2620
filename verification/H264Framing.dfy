/**
 How the decoder reads what the depacketizer writes: the units that were delivered, no more and no less.
 */
module H264Framing {
  import opened Bytes
  import opened Codec
  import opened H264

  /** The units of a byte string in which each one comes after its length in four bytes. */
  function AvcUnits(s: Bytes): Option<seq<Bytes>>
    decreases |s|
  {
    if s == [] then Some([])
    else if |s| < 4 then None
    else
      var size := FromBigEndian(s[..4]);
      if 4 + size > |s| then None
      else
        var rest := AvcUnits(s[4 + size..]);
        if rest.None? then None else Some([s[4..4 + size]] + rest.value)
  }

  lemma {:induction false} LengthsRead(units: seq<Bytes>)
    requires forall k | 0 <= k < |units| :: |units[k]| < Pow256(4)
    ensures AvcUnits(FramedAll(true, units)) == Some(units)
    decreases |units|
  {
    hide AvcUnits;
    if units == [] {
      NothingRead();
    } else {
      LengthsRead(units[1..]);
      OneRead(units[0], FramedAll(true, units[1..]), units[1..]);
      assert units == [units[0]] + units[1..];
    }
  }

  lemma NothingRead()
    ensures AvcUnits([]) == Some([])
  {
  }

  lemma OneRead(u: Bytes, rest: Bytes, units: seq<Bytes>)
    requires |u| < Pow256(4) && AvcUnits(rest) == Some(units)
    ensures AvcUnits(BigEndian(|u|, 4) + u + rest) == Some([u] + units)
  {
    BigEndianRoundTrip(|u|, 4);
    var s := BigEndian(|u|, 4) + u + rest;
    assert s[..4] == BigEndian(|u|, 4) && s[4..4 + |u|] == u && s[4 + |u|..] == rest;
    hide BigEndian, FromBigEndian;
  }

  function Threes(n: nat): (zeros: seq<nat>)
    ensures |zeros| == n && StartCodes(zeros)
  {
    seq(n, _ => 3)
  }

  lemma {:induction false} FramedIsAnnexB(units: seq<Bytes>)
    ensures FramedAll(false, units) == AnnexB(units, Threes(|units|))
    decreases |units|
  {
    if units != [] {
      FramedIsAnnexB(units[1..]);
      assert Threes(|units|)[1..] == Threes(|units[1..]|);
      assert START_CODE == Zeros(3) + [1];
    }
  }

  /** Units that a receiver writes out are read back as they are, in both output modes. */
  lemma FramedIsRead(units: seq<Bytes>)
    requires units != [] && ValidUnits(units)
    ensures UnitsOf(FramedAll(false, units)) == units
    ensures (forall k | 0 <= k < |units| :: |units[k]| < Pow256(4)) ==> AvcUnits(FramedAll(true, units)) == Some(units)
  {
    FramedIsAnnexB(units);
    UnitsOfAnnexB(units, Threes(|units|));
    if forall k | 0 <= k < |units| :: |units[k]| < Pow256(4) {
      LengthsRead(units);
    }
  }

  predicate ValidSets(sets: ParameterSets) {
    && sets.Valid()
    && (sets.sps.Some? ==> ValidUnit(sets.sps.value)) && (sets.pps.Some? ==> ValidUnit(sets.pps.value))
  }

  lemma {:induction false} DeliveredIsValid(sets: ParameterSets, units: seq<Bytes>, mtu: nat)
    requires ValidSets(sets) && ValidUnits(units)
    ensures ValidUnits(Delivered(sets, units, mtu))
    decreases |units|
  {
    if units != [] {
      DeliveredIsValid(SetsAfter(sets, units[0]), units[1..], mtu);
    }
  }

  /**
   From the sender's byte stream to the receiver's: when the packets of valid units are depacketized, the bytes that come
   out are read as exactly the delivered units, in both output modes.
   */
  lemma ReceiverReadsDelivered(isAvc: bool, units: seq<Bytes>, zeros: seq<nat>, mtu: nat)
    requires ValidUnits(units) && |units| == |zeros| && StartCodes(zeros)
    requires 3 <= mtu < 0x1_0000 && Delivered(NO_SETS, units, mtu) != []
    ensures var packets := PacketizeSpec(NO_SETS, AnnexB(units, zeros), mtu).1;
            var d := CODEC.DepacketizeAll(DepacketizerState(isAvc, None), packets, [], NoExtra);
            var units' := Delivered(NO_SETS, units, mtu);
            && d.error.None?
            && (!isAvc ==> UnitsOf(d.out) == units')
            && (isAvc && (forall k | 0 <= k < |units'| :: |units'[k]| < Pow256(4)) ==> AvcUnits(d.out) == Some(units'))
  {
    RoundTrip(NO_SETS, isAvc, units, zeros, mtu);
    DeliveredIsValid(NO_SETS, units, mtu);
    var units' := Delivered(NO_SETS, units, mtu);
    FramedIsRead(units');
    assert [] + FramedAll(isAvc, units') == FramedAll(isAvc, units');
    hide Delivered, PacketizeSpec, FramedAll, UnitsOf, AvcUnits, ValidUnits, StartCodes;
  }
}
