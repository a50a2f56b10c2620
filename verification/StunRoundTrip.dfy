/**
 What the STUN printer prints, the STUN parser reads back, with the same integrity value.
 */
module StunRoundTrip {
  import opened Bytes
  import opened Stun
  import opened StunParser

  /** The fields of an attribute that stands at the start of a buffer. */
  lemma TlvFields(typ: nat, value: Bytes, rest: Bytes)
    requires typ < 0x1_0000 && |value| < 0x1_0000
    ensures var buf := Tlv(typ, value) + rest;
            && |buf| == 4 + |value| + |rest|
            && Read16(buf, 0) == typ && Read16(buf, 2) == |value|
            && buf[4..4 + |value|] == value
            && buf[4..] == value + rest
  {
    BigEndian16(typ);
    BigEndian16(|value|);
    var buf := Tlv(typ, value) + rest;
    assert buf == [typ / 256, typ % 256, |value| / 256, |value| % 256] + value + rest;
  }

  /** One attribute, with its padding, takes the parser one step. */
  lemma ParseTlv(s: ParserState, off: nat, typ: nat, value: Bytes, pad: Bytes, rest: Bytes, transId: TransId, utf8: Utf8)
    requires typ < 0x1_0000 && |value| < 0x1_0000 && |pad| == Pad(|value|)
    requires |Tlv(typ, value) + (pad + rest)| >= 4 && 4 + Read16(Tlv(typ, value) + (pad + rest), 2) <= |Tlv(typ, value) + (pad + rest)|
    requires AttributeStep(s, off, Tlv(typ, value) + (pad + rest), transId, utf8).Ok?
    ensures ParseFrom(s, off, Tlv(typ, value) + (pad + rest), transId, utf8) ==
            ParseFrom(AttributeStep(s, off, Tlv(typ, value) + (pad + rest), transId, utf8).value,
                      off + 4 + |value| + |pad|, rest, transId, utf8)
  {
    hide AttributeStep, Tlv;
    var buf := Tlv(typ, value) + (pad + rest);
    TlvFields(typ, value, pad + rest);
    var next := 4 + |value| + |pad|;
    assert buf[next..] == rest by {
      assert buf[4..] == value + (pad + rest);
      assert buf[next..] == buf[4..][|value| + |pad|..];
    }
  }

  /** As ParseTlv, for values that need no padding. */
  lemma ParseAligned(s: ParserState, off: nat, typ: nat, value: Bytes, rest: Bytes, transId: TransId, utf8: Utf8,
                     s': ParserState)
    requires typ < 0x1_0000 && |value| < 0x1_0000 && |value| % 4 == 0
    requires TlvFits(typ, value, rest)
    requires AttributeStep(s, off, Tlv(typ, value) + rest, transId, utf8) == Ok(s')
    ensures ParseFrom(s, off, Tlv(typ, value) + rest, transId, utf8) ==
            ParseFrom(s', off + 4 + |value|, rest, transId, utf8)
  {
    hide ParseFrom, AttributeStep, Tlv;
    assert [] + rest == rest;
    ParseTlv(s, off, typ, value, [], rest, transId, utf8);
  }

  predicate TlvFits(typ: nat, value: Bytes, rest: Bytes) {
    |Tlv(typ, value) + rest| >= 4 && 4 + Read16(Tlv(typ, value) + rest, 2) <= |Tlv(typ, value) + rest|
  }

  function WithUsername(s: ParserState, username: Option<Bytes>): ParserState {
    if username.Some? then s.(attrs := s.attrs.(username := username)) else s
  }

  lemma UsernameStep(s: ParserState, off: nat, u: Bytes, rest: Bytes, transId: TransId, utf8: Utf8)
    requires !s.ignoreRest && |u| <= 128 && utf8(u)
    ensures TlvFits(USERNAME, u, rest)
    ensures AttributeStep(s, off, Tlv(USERNAME, u) + rest, transId, utf8) == Ok(WithUsername(s, Some(u)))
  {
    TlvFields(USERNAME, u, rest);
  }

  /** The user name, with the four extra zeros when its length is a multiple of 4: they parse as an unknown attribute. */
  lemma ParseUsername(s: ParserState, off: nat, username: Option<Bytes>, rest: Bytes, transId: TransId, utf8: Utf8)
    requires !s.ignoreRest
    requires username.Some? ==> |username.value| <= 128 && utf8(username.value)
    ensures ParseFrom(s, off, UsernameAttr(username) + rest, transId, utf8) ==
            ParseFrom(WithUsername(s, username), off + |UsernameAttr(username)|, rest, transId, utf8)
  {
    hide ParseFrom, AttributeStep, Tlv;
    if username.None? {
      assert UsernameAttr(username) + rest == rest;
    } else {
      var u := username.value;
      var s' := WithUsername(s, username);
      var pad := Zeros(UsernamePad(|u|));
      assert UsernameAttr(username) + rest == Tlv(USERNAME, u) + (pad + rest);
      UsernameStep(s, off, u, pad + rest, transId, utf8);
      if |u| % 4 == 0 {
        ParseAligned(s, off, USERNAME, u, pad + rest, transId, utf8, s');
        ParseZeros(s', off + 4 + |u|, rest, transId, utf8);
      } else {
        ParseTlv(s, off, USERNAME, u, pad, rest, transId, utf8);
      }
    }
  }

  lemma ParseZeros(s: ParserState, off: nat, rest: Bytes, transId: TransId, utf8: Utf8)
    ensures ParseFrom(s, off, Zeros(4) + rest, transId, utf8) == ParseFrom(s, off + 4, rest, transId, utf8)
  {
    hide ParseFrom;
    BigEndian16(0);
    assert Zeros(4) == Tlv(0, []);
    TlvFields(0, [], rest);
    ParseAligned(s, off, 0, [], rest, transId, utf8, s);
  }

  function WithNumber(s: ParserState, typ: nat, value: Option<nat>): ParserState {
    if value.None? then s
    else if typ == PRIORITY then s.(attrs := s.attrs.(priority := value))
    else if typ == ICE_CONTROLLED then s.(attrs := s.attrs.(iceControlled := value))
    else s.(attrs := s.attrs.(iceControlling := value))
  }

  lemma ParseNumber(s: ParserState, off: nat, typ: nat, value: Option<nat>, size: nat, rest: Bytes, transId: TransId, utf8: Utf8)
    requires !s.ignoreRest
    requires (typ == PRIORITY && size == 4) || ((typ == ICE_CONTROLLED || typ == ICE_CONTROLLING) && size == 8)
    requires value.Some? ==> value.value < Pow256(size)
    ensures ParseFrom(s, off, NumberAttr(typ, value, size) + rest, transId, utf8) ==
            ParseFrom(WithNumber(s, typ, value), off + |NumberAttr(typ, value, size)|, rest, transId, utf8)
  {
    if value.None? {
      assert NumberAttr(typ, value, size) + rest == rest;
    } else {
      var v := BigEndian(value.value, size);
      BigEndianRoundTrip(value.value, size);
      TlvFields(typ, v, rest);
      ParseAligned(s, off, typ, v, rest, transId, utf8, WithNumber(s, typ, value));
    }
  }

  function WithAddress(s: ParserState, addr: Option<SocketAddr>): ParserState {
    if addr.None? then s else s.(attrs := s.attrs.(xorMappedAddress := addr))
  }

  /** An address survives masking, whatever follows it. */
  lemma AddressRoundTrip(addr: SocketAddr, transId: TransId, rest: Bytes)
    requires addr.Valid()
    ensures DecodeXor(EncodeXor(addr, transId) + rest, transId) == Ok(addr)
  {
    var e := EncodeXor(addr, transId);
    var buf := e + rest;
    var port := BigEndian(addr.port, 2);
    var mask := MAGIC + transId;
    assert Pow256(2) == 256 * Pow256(1) && Pow256(1) == 256;
    BigEndianRoundTrip(addr.port, 2);
    XorAllTwice(port, MAGIC);
    assert buf[2..4] == XorAll(port, MAGIC);
    assert buf[4..4 + |addr.ip|] == XorAll(addr.ip, mask);
    XorAllTwice(addr.ip, mask);
    if addr.V4? {
      assert XorAll(buf[4..8], MAGIC) == XorAll(buf[4..8], mask);
    }
  }

  lemma ParseAddress(s: ParserState, off: nat, addr: Option<SocketAddr>, rest: Bytes, transId: TransId, utf8: Utf8)
    requires !s.ignoreRest && (addr.Some? ==> addr.value.Valid())
    ensures ParseFrom(s, off, AddressAttr(addr, transId) + rest, transId, utf8) ==
            ParseFrom(WithAddress(s, addr), off + |AddressAttr(addr, transId)|, rest, transId, utf8)
  {
    if addr.None? {
      assert AddressAttr(addr, transId) + rest == rest;
    } else {
      var v := EncodeXor(addr.value, transId);
      AddressRoundTrip(addr.value, transId, rest);
      TlvFields(XOR_MAPPED_ADDRESS, v, rest);
      ParseAligned(s, off, XOR_MAPPED_ADDRESS, v, rest, transId, utf8, WithAddress(s, addr));
    }
  }

  function WithUseCandidate(s: ParserState, useCandidate: bool): ParserState {
    if useCandidate then s.(attrs := s.attrs.(useCandidate := true)) else s
  }

  lemma ParseUseCandidate(s: ParserState, off: nat, useCandidate: bool, rest: Bytes, transId: TransId, utf8: Utf8)
    requires !s.ignoreRest
    ensures ParseFrom(s, off, UseCandidateAttr(useCandidate) + rest, transId, utf8) ==
            ParseFrom(WithUseCandidate(s, useCandidate), off + |UseCandidateAttr(useCandidate)|, rest, transId, utf8)
  {
    hide ParseFrom;
    if !useCandidate {
      assert UseCandidateAttr(useCandidate) + rest == rest;
    } else {
      TlvFields(USE_CANDIDATE, [], rest);
      ParseAligned(s, off, USE_CANDIDATE, [], rest, transId, utf8, WithUseCandidate(s, true));
    }
  }

  /** All printed attributes: the parser ends up with just these. */
  lemma ParseAttributes(a: Attributes, rest: Bytes, transId: TransId, utf8: Utf8)
    requires Printable(a)
    requires a.username.Some? ==> |a.username.value| <= 128 && utf8(a.username.value)
    ensures ParseFrom(START, 0, EncodeAttributes(a, transId) + rest, transId, utf8) ==
            ParseFrom(ParserState(a, false, 0), |EncodeAttributes(a, transId)|, rest, transId, utf8)
  {
    hide ParseFrom, UsernameAttr, NumberAttr, AddressAttr, UseCandidateAttr;
    var p1, p2, p3 := UsernameAttr(a.username), NumberAttr(ICE_CONTROLLED, a.iceControlled, 8),
                      NumberAttr(ICE_CONTROLLING, a.iceControlling, 8);
    var p4, p5, p6 := NumberAttr(PRIORITY, a.priority, 4), AddressAttr(a.xorMappedAddress, transId),
                      UseCandidateAttr(a.useCandidate);
    var r6 := p6 + rest;
    var r5 := p5 + r6;
    var r4 := p4 + r5;
    var r3 := p3 + r4;
    var r2 := p2 + r3;
    Regroup(p1, p2, p3, p4, p5, p6, rest);
    var s1 := WithUsername(START, a.username);
    var s2 := WithNumber(s1, ICE_CONTROLLED, a.iceControlled);
    var s3 := WithNumber(s2, ICE_CONTROLLING, a.iceControlling);
    var s4 := WithNumber(s3, PRIORITY, a.priority);
    var s5 := WithAddress(s4, a.xorMappedAddress);
    ParseUsername(START, 0, a.username, r2, transId, utf8);
    ParseNumber(s1, |p1|, ICE_CONTROLLED, a.iceControlled, 8, r3, transId, utf8);
    ParseNumber(s2, |p1| + |p2|, ICE_CONTROLLING, a.iceControlling, 8, r4, transId, utf8);
    ParseNumber(s3, |p1| + |p2| + |p3|, PRIORITY, a.priority, 4, r5, transId, utf8);
    ParseAddress(s4, |p1| + |p2| + |p3| + |p4|, a.xorMappedAddress, r6, transId, utf8);
    ParseUseCandidate(s5, |p1| + |p2| + |p3| + |p4| + |p5|, a.useCandidate, rest, transId, utf8);
    AllAttributes(a);
  }

  lemma Regroup(p1: Bytes, p2: Bytes, p3: Bytes, p4: Bytes, p5: Bytes, p6: Bytes, rest: Bytes)
    ensures p1 + p2 + p3 + p4 + p5 + p6 + rest == p1 + (p2 + (p3 + (p4 + (p5 + (p6 + rest)))))
  {
    assert p1 + p2 + p3 + p4 + p5 + p6 + rest == p1 + (p2 + p3 + p4 + p5 + p6 + rest);
    assert p2 + p3 + p4 + p5 + p6 + rest == p2 + (p3 + p4 + p5 + p6 + rest);
    assert p3 + p4 + p5 + p6 + rest == p3 + (p4 + (p5 + (p6 + rest)));
  }

  /** Printable attributes are made up of the printed ones. */
  lemma AllAttributes(a: Attributes)
    requires Printable(a)
    ensures var s1 := WithUsername(START, a.username);
            var s2 := WithNumber(s1, ICE_CONTROLLED, a.iceControlled);
            var s3 := WithNumber(s2, ICE_CONTROLLING, a.iceControlling);
            var s4 := WithNumber(s3, PRIORITY, a.priority);
            var s5 := WithAddress(s4, a.xorMappedAddress);
            WithUseCandidate(s5, a.useCandidate) == ParserState(a, false, 0)
  {
  }

  /** The two attributes at the end, and nothing after them. */
  lemma ParseTrailer(a: Attributes, off: nat, mac: Digest, sum: Checksum, transId: TransId, utf8: Utf8)
    ensures ParseFrom(ParserState(a, false, 0), off, Tlv(MESSAGE_INTEGRITY, mac) + Tlv(FINGERPRINT, sum), transId, utf8) ==
            Ok(ParserState(a.(messageIntegrity := Some(mac), fingerprint := Some(FromBigEndian(sum))), true, off))
  {
    var s0 := ParserState(a, false, 0);
    var s1 := ParserState(a.(messageIntegrity := Some(mac)), true, off);
    var s2 := ParserState(a.(messageIntegrity := Some(mac), fingerprint := Some(FromBigEndian(sum))), true, off);
    var fp := Tlv(FINGERPRINT, sum);
    TlvFields(MESSAGE_INTEGRITY, mac, fp);
    ParseAligned(s0, off, MESSAGE_INTEGRITY, mac, fp, transId, utf8, s1);
    TlvFields(FINGERPRINT, sum, []);
    assert fp + [] == fp;
    assert sum + [] == sum;
    ParseAligned(s1, off + 24, FINGERPRINT, sum, [], transId, utf8, s2);
  }

  /** The messages that come back: some attribute, a usable user name, and what the class calls for. */
  predicate Parseable(m: StunMessage, utf8: Utf8) {
    && m.stunMethod == Binding && m.stunClass != UnknownClass
    && Printable(m.attrs) && PaddedLen(m.attrs) > 0
    && (m.attrs.username.Some? ==> |m.attrs.username.value| <= 128 && utf8(m.attrs.username.value))
    && (m.stunClass == Success ==> m.attrs.xorMappedAddress.Some?)
    && (m.stunClass == Request ==> SplitUsername(m.attrs.username).Some? && m.attrs.priority.Some?)
  }

  /** The message as the parser gives it: with the integrity value, the fingerprint and the bytes they were made from. */
  function Received(m: StunMessage, password: Bytes, hmac: Hmac, crc: Crc): StunMessage
    requires m.stunMethod == Binding && m.stunClass != UnknownClass && Printable(m.attrs)
  {
    var sum := XorAll(crc(Sealed(m, password, hmac)), FINGERPRINT_MASK);
    m.(attrs := m.attrs.(messageIntegrity := Some(hmac(password, Hashed(m))), fingerprint := Some(FromBigEndian(sum))),
       integrity := Header(m, PaddedLen(m.attrs) + 32) + EncodeAttributes(m.attrs, m.transId),
       integrityLen := PaddedLen(m.attrs) + 24)
  }

  lemma HeaderFields(m: StunMessage, length: nat, rest: Bytes)
    requires m.stunMethod == Binding && m.stunClass != UnknownClass && length < 0x1_0000
    ensures var buf := Header(m, length) + rest;
            && Read16(buf, 2) == length && buf[4..8] == MAGIC && buf[8..20] == m.transId && buf[20..] == rest
            && buf[0] % 64 == buf[0]
            && (var high: nat := buf[0]; high * 256 + buf[1] == ClassToU16(m.stunClass) + 1)
  {
    BigEndian16(ClassToU16(m.stunClass) + 1);
    BigEndian16(length);
    var typ := ClassToU16(m.stunClass) + 1;
    assert Header(m, length) == [typ / 256, typ % 256, length / 256, length % 256] + MAGIC + m.transId;
  }

  lemma TypRoundTrip(c: Class)
    requires c != UnknownClass
    ensures ClassFromTyp(ClassToU16(c) + 1) == c && MethodFromTyp(ClassToU16(c) + 1) == Binding
  {
    var typ := ClassToU16(c) + 1;
    assert typ == 1 || typ == 17 || typ == 257 || typ == 273;
  }

  lemma PaddedLenIsSmall(m: StunMessage, utf8: Utf8)
    requires Parseable(m, utf8)
    ensures PaddedLen(m.attrs) < 256
  {
  }

  /** Printing and then parsing gives the message back. */
  lemma RoundTrip(m: StunMessage, password: Bytes, hmac: Hmac, crc: Crc, utf8: Utf8)
    requires Parseable(m, utf8)
    ensures ParseSpec(Encode(m, password, hmac, crc), utf8) == Ok(Received(m, password, hmac, crc))
  {
    hide Header, EncodeAttributes, PaddedLen, Tlv, ParseFrom, ClassFromTyp, MethodFromTyp;
    var mac := hmac(password, Hashed(m));
    var sum := XorAll(crc(Sealed(m, password, hmac)), FINGERPRINT_MASK);
    var attrs := EncodeAttributes(m.attrs, m.transId);
    var trailer := Tlv(MESSAGE_INTEGRITY, mac) + Tlv(FINGERPRINT, sum);
    var length := PaddedLen(m.attrs) + 32;
    var head := Header(m, length);
    var buf := Encode(m, password, hmac, crc);
    PaddedLenIsLength(m.attrs, m.transId);
    PaddedLenIsAligned(m.attrs);
    PaddedLenIsSmall(m, utf8);
    assert buf == head + (attrs + trailer);
    HeaderFields(m, length, attrs + trailer);
    TypRoundTrip(m.stunClass);
    ParseAttributes(m.attrs, trailer, m.transId, utf8);
    ParseTrailer(m.attrs, |attrs|, mac, sum, m.transId, utf8);
    assert buf[..|attrs| + 20] == head + attrs;
  }

  /** A received message passes the integrity check under exactly the passwords with the same hash of it. */
  lemma IntegrityHolds(m: StunMessage, password: Bytes, hmac: Hmac, crc: Crc, key: Bytes)
    requires m.stunMethod == Binding && m.stunClass != UnknownClass && Printable(m.attrs)
    ensures CheckIntegrity(Received(m, password, hmac, crc), password, hmac)
    ensures CheckIntegrity(Received(m, password, hmac, crc), key, hmac) <==>
            hmac(key, Hashed(m)) == hmac(password, Hashed(m))
  {
    hide EncodeAttributes, PaddedLen;
    var r := Received(m, password, hmac, crc);
    var n := PaddedLen(m.attrs);
    assert r.integrity[..2] + BigEndian(n + 24, 2) + r.integrity[4..] == Hashed(m);
  }

  /** Binding requests with a user name of at most 128 bytes, with a ':' and something after it. */
  lemma RequestRoundTrip(username: Bytes, transId: TransId, controlling: bool, tieBreaker: nat, prio: nat,
                         useCandidate: bool, password: Bytes, hmac: Hmac, crc: Crc, utf8: Utf8)
    requires |username| <= 128 && utf8(username) && SplitUsername(Some(username)).Some?
    requires tieBreaker < Pow256(8) && prio < Pow256(4)
    ensures var m := BindingRequest(username, transId, controlling, tieBreaker, prio, useCandidate);
            var r := ParseSpec(Encode(m, password, hmac, crc), utf8);
            && r == Ok(Received(m, password, hmac, crc))
            && r.value.attrs.(messageIntegrity := None, fingerprint := None) == m.attrs
            && CheckIntegrity(r.value, password, hmac)
            && r.value.stunMethod == Binding && r.value.stunClass == Request && r.value.transId == transId
            && r.value.attrs.username == Some(username) && r.value.attrs.priority == Some(prio)
            && r.value.attrs.useCandidate == useCandidate
            && r.value.attrs.iceControlling == (if controlling then Some(tieBreaker) else None)
            && r.value.attrs.iceControlled == (if controlling then None else Some(tieBreaker))
  {
    var m := BindingRequest(username, transId, controlling, tieBreaker, prio, useCandidate);
    RoundTrip(m, password, hmac, crc, utf8);
    IntegrityHolds(m, password, hmac, crc, password);
  }

  /** Replies, for IPv4 and IPv6 addresses. */
  lemma ReplyRoundTrip(transId: TransId, addr: SocketAddr, password: Bytes, hmac: Hmac, crc: Crc, utf8: Utf8)
    requires addr.Valid()
    ensures var m := Reply(transId, addr);
            var r := ParseSpec(Encode(m, password, hmac, crc), utf8);
            && r == Ok(Received(m, password, hmac, crc))
            && r.value.attrs.(messageIntegrity := None, fingerprint := None) == m.attrs
            && CheckIntegrity(r.value, password, hmac)
            && r.value.stunMethod == Binding && r.value.stunClass == Success && r.value.transId == transId
            && r.value.attrs.xorMappedAddress == Some(addr)
  {
    var m := Reply(transId, addr);
    RoundTrip(m, password, hmac, crc, utf8);
    IntegrityHolds(m, password, hmac, crc, password);
  }

  /** A user name splits at its first ':' into the local and the remote part. */
  lemma {:induction false} FindColonIsFirst(v: Bytes)
    ensures FindColon(v).None? <==> 0x3A !in v
    ensures FindColon(v).Some? ==>
              var i := FindColon(v).value;
              i < |v| && v[i] == 0x3A && 0x3A !in v[..i]
  {
    if v != [] && v[0] != 0x3A {
      FindColonIsFirst(v[1..]);
      var r := FindColon(v[1..]);
      assert v == [v[0]] + v[1..];
      if r.Some? {
        assert v[..r.value + 1] == [v[0]] + v[1..][..r.value];
      }
    }
  }

  /** The names the agent makes, local and remote fragment with a ':' between, split into just these. */
  lemma AgentNamesSplit(local: Bytes, remote: Bytes)
    requires 0x3A !in local && remote != []
    ensures SplitUsername(Some(local + [0x3A] + remote)) == Some((local, remote))
  {
    var v := local + [0x3A] + remote;
    FindColonIsFirst(v);
    assert v[|local|] == 0x3A;
    var i := FindColon(v).value;
    assert i >= |local|;
    assert i == |local|;
    assert v[..i] == local && v[i + 1..] == remote;
  }
}
