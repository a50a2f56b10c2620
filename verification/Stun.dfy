/**
 The STUN messages of io/stun.rs (RFC 5389): binding requests and replies are printed with message integrity and
 fingerprint, and parsed back. The hash functions are parameters; nothing but their result sizes is used.
 */
module Stun {
  import opened Bytes

  /** HMAC-SHA1 of a key and a message. */
  type Digest = s: Bytes | |s| == 20 witness seq(20, _ => 0)
  type Hmac = (Bytes, Bytes) -> Digest

  /** CRC-32 as four bytes, most significant first. */
  type Checksum = s: Bytes | |s| == 4 witness seq(4, _ => 0)
  type Crc = Bytes -> Checksum

  type TransId = s: Bytes | |s| == 12 witness seq(12, _ => 0)

  const MAGIC: Bytes := [0x21, 0x12, 0xA4, 0x42]
  const FINGERPRINT_MASK: Bytes := [0x53, 0x54, 0x55, 0x4E]

  // ---------- Retransmission delays ----------

  const STUN_INITIAL_RTO_MILLIS := 250
  const STUN_MAX_RETRANS := 9
  const STUN_MAX_RTO_MILLIS := 3000
  const STUN_TIMEOUT := 18750

  /** The wait after the given number of attempts, in milliseconds. */
  function StunResendDelay(sendCount: nat): nat {
    if sendCount == 0 then 0
    else
      var retrans := if sendCount - 1 < STUN_MAX_RETRANS then sendCount - 1 else STUN_MAX_RETRANS;
      var rto := STUN_INITIAL_RTO_MILLIS * Pow2(retrans);
      if rto < STUN_MAX_RTO_MILLIS then rto else STUN_MAX_RTO_MILLIS
  }

  // ---------- Messages ----------

  datatype Method = Binding | UnknownMethod
  datatype Class = Request | Indication | Success | Failure | UnknownClass

  datatype SocketAddr = V4(ip: Bytes, port: nat) | V6(ip: Bytes, port: nat) {
    predicate Valid() {
      port < 0x1_0000 && |ip| == if V4? then 4 else 16
    }
  }

  datatype Attributes = Attributes(
    username: Option<Bytes>,
    messageIntegrity: Option<Bytes>,
    errorCode: Option<(nat, Bytes)>,
    realm: Option<Bytes>,
    nonce: Option<Bytes>,
    xorMappedAddress: Option<SocketAddr>,
    software: Option<Bytes>,
    fingerprint: Option<nat>,
    priority: Option<nat>,
    useCandidate: bool,
    iceControlled: Option<nat>,
    iceControlling: Option<nat>,
    networkCost: Option<(nat, nat)>)

  const NO_ATTRIBUTES := Attributes(None, None, None, None, None, None, None, None, None, false, None, None, None)

  datatype StunMessage = StunMessage(
    stunMethod: Method, stunClass: Class, transId: TransId, attrs: Attributes, integrity: Bytes, integrityLen: nat)

  const ERROR_CODE := 0x0009
  const FINGERPRINT := 0x8028
  const ICE_CONTROLLED := 0x8029
  const ICE_CONTROLLING := 0x802A
  const MAPPED_ADDRESS := 0x0001
  const MESSAGE_INTEGRITY := 0x0008
  const NETWORK_COST := 0xC057
  const NONCE := 0x0015
  const PRIORITY := 0x0024
  const REALM := 0x0014
  const SOFTWARE := 0x0022
  const USE_CANDIDATE := 0x0025
  const USERNAME := 0x0006
  const XOR_MAPPED_ADDRESS := 0x0020

  /** The attributes that the printer prints, with values of the sizes they have in the source. */
  predicate Printable(a: Attributes) {
    && a == NO_ATTRIBUTES.(username := a.username, xorMappedAddress := a.xorMappedAddress, priority := a.priority,
                           useCandidate := a.useCandidate, iceControlled := a.iceControlled,
                           iceControlling := a.iceControlling)
    && (a.xorMappedAddress.Some? ==> a.xorMappedAddress.value.Valid())
    && (a.priority.Some? ==> a.priority.value < Pow256(4))
    && (a.iceControlled.Some? ==> a.iceControlled.value < Pow256(8))
    && (a.iceControlling.Some? ==> a.iceControlling.value < Pow256(8))
  }

  function BindingRequest(username: Bytes, transId: TransId, controlling: bool, tieBreaker: nat, prio: nat,
                          useCandidate: bool): StunMessage
  {
    StunMessage(Binding, Request, transId,
                NO_ATTRIBUTES.(username := Some(username),
                               iceControlling := if controlling then Some(tieBreaker) else None,
                               iceControlled := if controlling then None else Some(tieBreaker),
                               priority := Some(prio),
                               useCandidate := useCandidate),
                [], 0)
  }

  function Reply(transId: TransId, mappedAddress: SocketAddr): StunMessage {
    StunMessage(Binding, Success, transId, NO_ATTRIBUTES.(xorMappedAddress := Some(mappedAddress)), [], 0)
  }

  // ---------- Type field ----------

  /** typ & 0x0110 */
  function ClassFromTyp(typ: nat): Class {
    match (typ / 256 % 2, typ / 16 % 2)
    case (0, 0) => Request
    case (0, 1) => Indication
    case (1, 0) => Success
    case (_, _) => Failure
  }

  /** typ & 0x3EEF */
  function MethodFromTyp(typ: nat): Method {
    if typ % 0x4000 - typ / 256 % 2 * 256 - typ / 16 % 2 * 16 == 1 then Binding else UnknownMethod
  }

  function ClassToU16(c: Class): nat
    requires c != UnknownClass
  {
    match c
    case Request => 0
    case Indication => 16
    case Success => 256
    case Failure => 272
  }

  // ---------- Printing ----------

  /** What follows a user name: 4 - (n % 4) % 4, so four bytes and not none when n is a multiple of 4. */
  function UsernamePad(n: nat): nat {
    4 - n % 4
  }

  function EncodeXor(addr: SocketAddr, transId: TransId): (r: Bytes)
    requires addr.Valid()
    ensures |r| == if addr.V4? then 8 else 20
  {
    [0, if addr.V4? then 1 else 2] + XorAll(BigEndian(addr.port, 2), MAGIC) + XorAll(addr.ip, MAGIC + transId)
  }

  /** An attribute's type, length and value, without padding. */
  function Tlv(typ: nat, value: Bytes): (r: Bytes)
    ensures |r| == 4 + |value|
  {
    BigEndian(typ, 2) + BigEndian(|value|, 2) + value
  }

  function UsernameAttr(username: Option<Bytes>): (r: Bytes)
    ensures |r| == if username.Some? then 4 + |username.value| + UsernamePad(|username.value|) else 0
  {
    if username.Some? then Tlv(USERNAME, username.value) + Zeros(UsernamePad(|username.value|)) else []
  }

  function NumberAttr(typ: nat, value: Option<nat>, size: nat): (r: Bytes)
    ensures |r| == if value.Some? then 4 + size else 0
  {
    if value.Some? then Tlv(typ, BigEndian(value.value, size)) else []
  }

  function AddressAttr(addr: Option<SocketAddr>, transId: TransId): (r: Bytes)
    requires addr.Some? ==> addr.value.Valid()
    ensures |r| == if addr.Some? then 4 + (if addr.value.V4? then 8 else 20) else 0
  {
    if addr.Some? then Tlv(XOR_MAPPED_ADDRESS, EncodeXor(addr.value, transId)) else []
  }

  function UseCandidateAttr(useCandidate: bool): Bytes {
    if useCandidate then Tlv(USE_CANDIDATE, []) else []
  }

  function EncodeAttributes(a: Attributes, transId: TransId): Bytes
    requires Printable(a)
  {
    UsernameAttr(a.username)
    + NumberAttr(ICE_CONTROLLED, a.iceControlled, 8)
    + NumberAttr(ICE_CONTROLLING, a.iceControlling, 8)
    + NumberAttr(PRIORITY, a.priority, 4)
    + AddressAttr(a.xorMappedAddress, transId)
    + UseCandidateAttr(a.useCandidate)
  }

  function PaddedLen(a: Attributes): nat {
    (if a.username.Some? then 4 + |a.username.value| + UsernamePad(|a.username.value|) else 0)
    + (if a.iceControlled.Some? then 12 else 0)
    + (if a.iceControlling.Some? then 12 else 0)
    + (if a.priority.Some? then 8 else 0)
    + (if a.xorMappedAddress.Some? then 4 + (if a.xorMappedAddress.value.V4? then 8 else 20) else 0)
    + (if a.useCandidate then 4 else 0)
  }

  /** The length that the printer computes up front is the length it prints. */
  lemma PaddedLenIsLength(a: Attributes, transId: TransId)
    requires Printable(a)
    ensures |EncodeAttributes(a, transId)| == PaddedLen(a)
  {
    hide UsernameAttr, NumberAttr, AddressAttr, UsernamePad;
  }

  lemma PaddedLenIsAligned(a: Attributes)
    ensures PaddedLen(a) % 4 == 0
  {
    var words := (if a.username.Some? then 2 + |a.username.value| / 4 else 0)
      + (if a.iceControlled.Some? then 3 else 0) + (if a.iceControlling.Some? then 3 else 0)
      + (if a.priority.Some? then 2 else 0)
      + (if a.xorMappedAddress.Some? then 1 + (if a.xorMappedAddress.value.V4? then 2 else 5) else 0)
      + (if a.useCandidate then 1 else 0);
    assert PaddedLen(a) == 4 * words;
  }

  function Header(m: StunMessage, length: nat): (r: Bytes)
    requires m.stunMethod == Binding && m.stunClass != UnknownClass
    ensures |r| == 20
  {
    BigEndian(ClassToU16(m.stunClass) + 1, 2) + BigEndian(length, 2) + MAGIC + m.transId
  }

  /** What the integrity hash covers: the message up to the hash attribute, as if it ended right after that. */
  function Hashed(m: StunMessage): Bytes
    requires m.stunMethod == Binding && m.stunClass != UnknownClass && Printable(m.attrs)
  {
    Header(m, PaddedLen(m.attrs) + 24) + EncodeAttributes(m.attrs, m.transId)
  }

  /** The printed message up to the fingerprint attribute. */
  function Sealed(m: StunMessage, password: Bytes, hmac: Hmac): Bytes
    requires m.stunMethod == Binding && m.stunClass != UnknownClass && Printable(m.attrs)
  {
    Header(m, PaddedLen(m.attrs) + 32) + EncodeAttributes(m.attrs, m.transId)
    + Tlv(MESSAGE_INTEGRITY, hmac(password, Hashed(m)))
  }

  function Encode(m: StunMessage, password: Bytes, hmac: Hmac, crc: Crc): Bytes
    requires m.stunMethod == Binding && m.stunClass != UnknownClass && Printable(m.attrs)
  {
    Sealed(m, password, hmac) + Tlv(FINGERPRINT, XorAll(crc(Sealed(m, password, hmac)), FINGERPRINT_MASK))
  }

  datatype WriteResult = Written(length: nat) | BufferFull

  /** Overwrites part of the buffer. */
  method CopyInto(buf: array<byte>, pos: nat, data: Bytes)
    requires pos + |data| <= buf.Length
    modifies buf
    ensures buf[..] == old(buf[..pos]) + data + old(buf[pos + |data|..])
  {
    var i := 0;
    while i < |data|
      invariant 0 <= i <= |data|
      invariant forall k | 0 <= k < buf.Length && !(pos <= k < pos + i) :: buf[k] == old(buf[k])
      invariant forall k | 0 <= k < i :: buf[pos + k] == data[k]
    {
      buf[pos + i] := data[i];
      i := i + 1;
    }
  }

  /** Writes at the cursor, if there is room. */
  method WriteAll(buf: array<byte>, pos: nat, data: Bytes) returns (ok: bool, pos': nat)
    requires pos <= buf.Length
    modifies buf
    ensures Wrote(ok, old(buf[..]), buf[..], pos, data, pos')
  {
    if pos + |data| > buf.Length {
      return false, pos;
    }
    CopyInto(buf, pos, data);
    return true, pos + |data|;
  }

  /** If there is room, the data is in the buffer at the old cursor, the cursor is after it, and nothing else changed. */
  predicate Wrote(ok: bool, before: Bytes, after: Bytes, pos: nat, data: Bytes, pos': nat)
    requires |after| == |before|
  {
    && (ok <==> pos + |data| <= |before|)
    && (ok ==> pos' == pos + |data| && after == before[..pos] + data + before[pos'..])
  }

  /** Two writes, the second one attempted only when the first one fits, are one write of both. */
  lemma WroteBoth(b0: Bytes, b1: Bytes, b2: Bytes, pos: nat, d1: Bytes, ok1: bool, p1: nat, d2: Bytes, ok: bool, p2: nat)
    requires |b0| == |b1| == |b2| && pos <= |b0|
    requires Wrote(ok1, b0, b1, pos, d1, p1)
    requires if ok1 then Wrote(ok, b1, b2, p1, d2, p2) else !ok
    ensures Wrote(ok, b0, b2, pos, d1 + d2, p2)
  {
    if ok {
      assert b1[..p1] == b0[..pos] + d1;
      assert b1[p2..] == b0[p2..];
      assert b0[..pos] + d1 + d2 == b0[..pos] + (d1 + d2);
    }
  }

  method WriteTlv(buf: array<byte>, pos: nat, typ: nat, value: Bytes) returns (ok: bool, pos': nat)
    requires pos <= buf.Length
    modifies buf
    ensures Wrote(ok, old(buf[..]), buf[..], pos, Tlv(typ, value), pos')
  {
    ghost var b0 := buf[..];
    ok, pos' := WriteAll(buf, pos, BigEndian(typ, 2));
    ghost var ok1, b1, p1 := ok, buf[..], pos';
    if ok {
      ok, pos' := WriteAll(buf, pos', BigEndian(|value|, 2));
    }
    WroteBoth(b0, b1, buf[..], pos, BigEndian(typ, 2), ok1, p1, BigEndian(|value|, 2), ok, pos');
    ghost var ok2, b2, p2 := ok, buf[..], pos';
    if ok {
      ok, pos' := WriteAll(buf, pos', value);
    }
    WroteBoth(b0, b2, buf[..], pos, BigEndian(typ, 2) + BigEndian(|value|, 2), ok2, p2, value, ok, pos');
  }

  /** Prints zeros one by one. */
  method WriteZeros(buf: array<byte>, pos: nat, n: nat) returns (ok: bool, pos': nat)
    requires pos <= buf.Length
    modifies buf
    ensures Wrote(ok, old(buf[..]), buf[..], pos, Zeros(n), pos')
  {
    ghost var b0 := buf[..];
    ok, pos' := true, pos;
    var i := 0;
    while i < n && ok
      invariant 0 <= i <= n && (ok ==> pos' <= buf.Length)
      invariant if ok then Wrote(true, b0, buf[..], pos, Zeros(i), pos') else pos + n > buf.Length
    {
      ghost var b1, p1 := buf[..], pos';
      ok, pos' := WriteAll(buf, pos', [0]);
      WroteBoth(b0, b1, buf[..], pos, Zeros(i), true, p1, [0], ok, pos');
      assert Zeros(i) + [0] == Zeros(i + 1);
      i := i + 1;
    }
  }

  /** Prints an optional attribute with a number in it. */
  method WriteNumber(buf: array<byte>, pos: nat, typ: nat, value: Option<nat>, size: nat) returns (ok: bool, pos': nat)
    requires pos <= buf.Length
    modifies buf
    ensures Wrote(ok, old(buf[..]), buf[..], pos, NumberAttr(typ, value, size), pos')
  {
    ok, pos' := true, pos;
    if value.Some? {
      ok, pos' := WriteTlv(buf, pos, typ, BigEndian(value.value, size));
    }
  }

  method WriteUsername(buf: array<byte>, pos: nat, username: Option<Bytes>) returns (ok: bool, pos': nat)
    requires pos <= buf.Length
    modifies buf
    ensures Wrote(ok, old(buf[..]), buf[..], pos, UsernameAttr(username), pos')
  {
    ok, pos' := true, pos;
    if username.Some? {
      var name := username.value;
      ghost var b0 := buf[..];
      ok, pos' := WriteTlv(buf, pos, USERNAME, name);
      ghost var ok1, b1, p1 := ok, buf[..], pos';
      if ok {
        ok, pos' := WriteZeros(buf, pos', UsernamePad(|name|));
      }
      WroteBoth(b0, b1, buf[..], pos, Tlv(USERNAME, name), ok1, p1, Zeros(UsernamePad(|name|)), ok, pos');
    }
  }

  method WriteAddress(buf: array<byte>, pos: nat, addr: Option<SocketAddr>, transId: TransId)
    returns (ok: bool, pos': nat)
    requires pos <= buf.Length && (addr.Some? ==> addr.value.Valid())
    modifies buf
    ensures Wrote(ok, old(buf[..]), buf[..], pos, AddressAttr(addr, transId), pos')
  {
    ok, pos' := true, pos;
    if addr.Some? {
      ok, pos' := WriteTlv(buf, pos, XOR_MAPPED_ADDRESS, EncodeXor(addr.value, transId));
    }
  }

  method WriteUseCandidate(buf: array<byte>, pos: nat, useCandidate: bool) returns (ok: bool, pos': nat)
    requires pos <= buf.Length
    modifies buf
    ensures Wrote(ok, old(buf[..]), buf[..], pos, UseCandidateAttr(useCandidate), pos')
  {
    ok, pos' := true, pos;
    if useCandidate {
      ok, pos' := WriteTlv(buf, pos, USE_CANDIDATE, []);
    }
  }

  method WriteAttributes(buf: array<byte>, pos: nat, a: Attributes, transId: TransId) returns (ok: bool, pos': nat)
    requires pos <= buf.Length && Printable(a)
    modifies buf
    ensures Wrote(ok, old(buf[..]), buf[..], pos, EncodeAttributes(a, transId), pos')
  {
    hide UsernameAttr, NumberAttr, AddressAttr, UseCandidateAttr;
    ghost var b0 := buf[..];
    ok, pos' := WriteUsername(buf, pos, a.username);
    ghost var d := UsernameAttr(a.username);
    ghost var ok1, b1, p1 := ok, buf[..], pos';
    if ok {
      ok, pos' := WriteNumber(buf, pos', ICE_CONTROLLED, a.iceControlled, 8);
    }
    WroteBoth(b0, b1, buf[..], pos, d, ok1, p1, NumberAttr(ICE_CONTROLLED, a.iceControlled, 8), ok, pos');
    d := d + NumberAttr(ICE_CONTROLLED, a.iceControlled, 8);
    ok1, b1, p1 := ok, buf[..], pos';
    if ok {
      ok, pos' := WriteNumber(buf, pos', ICE_CONTROLLING, a.iceControlling, 8);
    }
    WroteBoth(b0, b1, buf[..], pos, d, ok1, p1, NumberAttr(ICE_CONTROLLING, a.iceControlling, 8), ok, pos');
    d := d + NumberAttr(ICE_CONTROLLING, a.iceControlling, 8);
    ok1, b1, p1 := ok, buf[..], pos';
    if ok {
      ok, pos' := WriteNumber(buf, pos', PRIORITY, a.priority, 4);
    }
    WroteBoth(b0, b1, buf[..], pos, d, ok1, p1, NumberAttr(PRIORITY, a.priority, 4), ok, pos');
    d := d + NumberAttr(PRIORITY, a.priority, 4);
    ok1, b1, p1 := ok, buf[..], pos';
    if ok {
      ok, pos' := WriteAddress(buf, pos', a.xorMappedAddress, transId);
    }
    WroteBoth(b0, b1, buf[..], pos, d, ok1, p1, AddressAttr(a.xorMappedAddress, transId), ok, pos');
    d := d + AddressAttr(a.xorMappedAddress, transId);
    ok1, b1, p1 := ok, buf[..], pos';
    if ok {
      ok, pos' := WriteUseCandidate(buf, pos', a.useCandidate);
    }
    WroteBoth(b0, b1, buf[..], pos, d, ok1, p1, UseCandidateAttr(a.useCandidate), ok, pos');
  }

  method WriteHeader(m: StunMessage, length: nat, buf: array<byte>) returns (ok: bool, pos': nat)
    requires m.stunMethod == Binding && m.stunClass != UnknownClass
    modifies buf
    ensures Wrote(ok, old(buf[..]), buf[..], 0, Header(m, length), pos')
  {
    ghost var b0 := buf[..];
    var typ := BigEndian(ClassToU16(m.stunClass) + 1, 2);
    ok, pos' := WriteAll(buf, 0, typ);
    ghost var ok1, b1, p1 := ok, buf[..], pos';
    if ok {
      ok, pos' := WriteAll(buf, pos', BigEndian(length, 2));
    }
    WroteBoth(b0, b1, buf[..], 0, typ, ok1, p1, BigEndian(length, 2), ok, pos');
    ok1, b1, p1 := ok, buf[..], pos';
    if ok {
      ok, pos' := WriteAll(buf, pos', MAGIC);
    }
    WroteBoth(b0, b1, buf[..], 0, typ + BigEndian(length, 2), ok1, p1, MAGIC, ok, pos');
    ok1, b1, p1 := ok, buf[..], pos';
    if ok {
      ok, pos' := WriteAll(buf, pos', m.transId);
    }
    WroteBoth(b0, b1, buf[..], 0, typ + BigEndian(length, 2) + MAGIC, ok1, p1, m.transId, ok, pos');
  }

  /** Replaces bytes inside a buffer. */
  lemma Replaced(before: Bytes, x: Bytes, after: Bytes, y: Bytes)
    requires |x| == |y|
    ensures var s := before + x + after;
            s[..|before|] + y + s[|before| + |y|..] == before + y + after
  {
    var s := before + x + after;
    assert s[..|before|] == before && s[|before| + |y|..] == after;
  }

  /** The message with the hash and the fingerprint still to be filled in, and the length that leaves out the latter. */
  function Draft(m: StunMessage): Bytes
    requires m.stunMethod == Binding && m.stunClass != UnknownClass && Printable(m.attrs)
  {
    Hashed(m) + Tlv(MESSAGE_INTEGRITY, Zeros(20)) + Tlv(FINGERPRINT, Zeros(4))
  }

  method WriteDraft(m: StunMessage, buf: array<byte>) returns (ok: bool, pos': nat)
    requires m.stunMethod == Binding && m.stunClass != UnknownClass && Printable(m.attrs)
    modifies buf
    ensures Wrote(ok, old(buf[..]), buf[..], 0, Draft(m), pos')
  {
    hide Header, EncodeAttributes, PaddedLen, Tlv;
    ghost var b0 := buf[..];
    ok, pos' := WriteHeader(m, PaddedLen(m.attrs) + 24, buf);
    ghost var ok1, b1, p1 := ok, buf[..], pos';
    ghost var d := Header(m, PaddedLen(m.attrs) + 24);
    if ok {
      ok, pos' := WriteAttributes(buf, pos', m.attrs, m.transId);
    }
    WroteBoth(b0, b1, buf[..], 0, d, ok1, p1, EncodeAttributes(m.attrs, m.transId), ok, pos');
    ok1, b1, p1 := ok, buf[..], pos';
    if ok {
      ok, pos' := WriteTlv(buf, pos', MESSAGE_INTEGRITY, Zeros(20));
    }
    WroteBoth(b0, b1, buf[..], 0, Hashed(m), ok1, p1, Tlv(MESSAGE_INTEGRITY, Zeros(20)), ok, pos');
    ok1, b1, p1 := ok, buf[..], pos';
    if ok {
      ok, pos' := WriteTlv(buf, pos', FINGERPRINT, Zeros(4));
    }
    WroteBoth(b0, b1, buf[..], 0, Hashed(m) + Tlv(MESSAGE_INTEGRITY, Zeros(20)), ok1, p1,
              Tlv(FINGERPRINT, Zeros(4)), ok, pos');
  }

  /** Computes the message integrity of a draft and fills it in. */
  method FillIntegrity(m: StunMessage, password: Bytes, hmac: Hmac, buf: array<byte>, valueAt: nat, ghost tail: Bytes)
    requires m.stunMethod == Binding && m.stunClass != UnknownClass && Printable(m.attrs)
    requires buf[..] == Draft(m) + tail && valueAt == |Hashed(m)| + 4
    modifies buf
    ensures buf[..] == Hashed(m) + Tlv(MESSAGE_INTEGRITY, hmac(password, Hashed(m))) + (Tlv(FINGERPRINT, Zeros(4)) + tail)
  {
    hide Hashed;
    ghost var rest := Tlv(FINGERPRINT, Zeros(4)) + tail;
    TlvSplit(MESSAGE_INTEGRITY, Zeros(20));
    assert buf[..] == Hashed(m) + TlvHead(MESSAGE_INTEGRITY, 20) + Zeros(20) + rest;
    assert buf[..valueAt - 4] == Hashed(m);
    var mac := hmac(password, buf[..valueAt - 4]);
    TlvSplit(MESSAGE_INTEGRITY, mac);
    Replaced(Hashed(m) + TlvHead(MESSAGE_INTEGRITY, 20), Zeros(20), rest, mac);
    CopyInto(buf, valueAt, mac);
  }

  /** Fills in the total length. */
  method FillLength(m: StunMessage, attrLen: nat, buf: array<byte>, ghost length: nat, ghost rest: Bytes)
    requires m.stunMethod == Binding && m.stunClass != UnknownClass
    requires buf[..] == Header(m, length) + rest
    modifies buf
    ensures buf[..] == Header(m, attrLen) + rest
  {
    hide Header;
    HeaderSplit(m, length);
    HeaderSplit(m, attrLen);
    ghost var typ := BigEndian(ClassToU16(m.stunClass) + 1, 2);
    ghost var after := MAGIC + m.transId + rest;
    assert buf[..] == typ + BigEndian(length, 2) + after;
    Replaced(typ, BigEndian(length, 2), after, BigEndian(attrLen, 2));
    CopyInto(buf, 2, BigEndian(attrLen, 2));
    assert typ + BigEndian(attrLen, 2) + after == Header(m, attrLen) + rest;
  }

  /** Computes the fingerprint of what precedes it and fills it in. */
  method FillFingerprint(crc: Crc, buf: array<byte>, valueAt: nat, ghost sealed: Bytes, ghost tail: Bytes)
    requires buf[..] == sealed + (Tlv(FINGERPRINT, Zeros(4)) + tail) && valueAt == |sealed| + 4
    modifies buf
    ensures buf[..] == sealed + Tlv(FINGERPRINT, XorAll(crc(sealed), FINGERPRINT_MASK)) + tail
  {
    TlvSplit(FINGERPRINT, Zeros(4));
    assert buf[..] == sealed + TlvHead(FINGERPRINT, 4) + Zeros(4) + tail;
    assert buf[..valueAt - 4] == sealed;
    var sum := XorAll(crc(buf[..valueAt - 4]), FINGERPRINT_MASK);
    TlvSplit(FINGERPRINT, sum);
    Replaced(sealed + TlvHead(FINGERPRINT, 4), Zeros(4), tail, sum);
    CopyInto(buf, valueAt, sum);
  }

  /** Prints a message into a buffer, if the buffer is large enough, and gives its length. */
  method ToBytes(m: StunMessage, password: Bytes, hmac: Hmac, crc: Crc, buf: array<byte>) returns (r: WriteResult)
    requires m.stunMethod == Binding && m.stunClass != UnknownClass && Printable(m.attrs)
    modifies buf
    ensures r == if PaddedLen(m.attrs) + 52 <= buf.Length then Written(PaddedLen(m.attrs) + 52) else BufferFull
    ensures r.Written? ==> buf[..] == Encode(m, password, hmac, crc) + old(buf[PaddedLen(m.attrs) + 52..])
  {
    hide Header, EncodeAttributes, PaddedLen, Tlv;
    var paddedLen := PaddedLen(m.attrs);
    var attrLen := paddedLen + 32;
    ghost var b0 := buf[..];
    PaddedLenIsLength(m.attrs, m.transId);
    var ok, pos := WriteDraft(m, buf);
    if !ok {
      return BufferFull;
    }
    ghost var tail := b0[pos..];
    assert buf[..] == Draft(m) + tail by {
      assert b0[..0] + Draft(m) == Draft(m);
    }
    var integrityAt := 20 + paddedLen + 4;
    FillIntegrity(m, password, hmac, buf, integrityAt, tail);

    ghost var rest := Tlv(FINGERPRINT, Zeros(4)) + tail;
    ghost var mi := Tlv(MESSAGE_INTEGRITY, hmac(password, Hashed(m)));
    ghost var attrs := EncodeAttributes(m.attrs, m.transId);
    AppendAssociates(Header(m, paddedLen + 24), attrs, mi, rest);
    FillLength(m, attrLen, buf, paddedLen + 24, attrs + mi + rest);
    AppendAssociates(Header(m, attrLen), attrs, mi, rest);

    FillFingerprint(crc, buf, integrityAt + 20 + 4, Sealed(m, password, hmac), tail);
    return Written(20 + attrLen);
  }

  lemma AppendAssociates(a: Bytes, b: Bytes, c: Bytes, d: Bytes)
    ensures a + b + c + d == a + (b + c + d)
  {
  }

  function TlvHead(typ: nat, length: nat): (r: Bytes)
    ensures |r| == 4
  {
    BigEndian(typ, 2) + BigEndian(length, 2)
  }

  lemma TlvSplit(typ: nat, value: Bytes)
    ensures Tlv(typ, value) == TlvHead(typ, |value|) + value
  {
  }

  lemma HeaderSplit(m: StunMessage, length: nat)
    requires m.stunMethod == Binding && m.stunClass != UnknownClass
    ensures Header(m, length) == BigEndian(ClassToU16(m.stunClass) + 1, 2) + BigEndian(length, 2) + (MAGIC + m.transId)
  {
  }
}
