/**
 The agent's own STUN and TURN messages (agent/src/webrtc.rs): attributes are appended to messages, and found again by
 walks over them. The hash functions are parameters.
 */
module Turn {
  import opened Bytes

  const MAGIC: Bytes := [0x21, 0x12, 0xA4, 0x42]

  const USERNAME := 0x0006
  const MESSAGE_INTEGRITY := 0x0008
  const XOR_PEER_ADDRESS := 0x0012
  const DATA := 0x0013
  const REALM := 0x0014
  const NONCE := 0x0015
  const MAPPED_ADDRESS := 0x0001
  const XOR_MAPPED_ADDRESS := 0x0020

  const SEND_INDICATION := 0x0016
  const DATA_INDICATION := 0x0017
  const BINDING_SUCCESS := 0x0101

  const LIMIT := 0x1_0000

  /** An attribute: its type and its value. */
  type Attr = (nat, Bytes)

  datatype Peer = V4(ip: Bytes, port: nat) | V6 {
    predicate Valid() {
      V4? ==> |ip| == 4 && port < LIMIT
    }
  }

  type TransId = s: Bytes | |s| == 12 witness Zeros(12)

  // ---------- Messages ----------

  /** The length of a value with its padding. */
  function Padded(n: nat): nat {
    (n + 3) / 4 * 4
  }

  /** One attribute. Types and lengths are cut off to 16 bits. */
  function AttrBytes(a: Attr): Bytes {
    BigEndian(a.0, 2) + BigEndian(|a.1|, 2) + a.1 + Zeros(Padded(|a.1|) - |a.1|)
  }

  function EncodeAttrs(attrs: seq<Attr>): Bytes {
    if attrs == [] then [] else EncodeAttrs(attrs[..|attrs| - 1]) + AttrBytes(attrs[|attrs| - 1])
  }

  function Header(typ: nat, len: nat, txn: TransId): (r: Bytes)
    ensures |r| == 20
  {
    BigEndian(typ, 2) + BigEndian(len, 2) + MAGIC + txn
  }

  function Message(typ: nat, attrs: seq<Attr>, txn: TransId): (r: Bytes)
    ensures |r| == 20 + |EncodeAttrs(attrs)|
  {
    Header(typ, |EncodeAttrs(attrs)|, txn) + EncodeAttrs(attrs)
  }

  function XorAddress(ip: Bytes, port: nat): (r: Bytes)
    requires |ip| == 4
    ensures |r| == 8
  {
    [0, 1] + XorAll(BigEndian(port, 2), MAGIC) + XorAll(ip, MAGIC)
  }

  function SendIndication(peer: Peer, data: Bytes, txn: TransId): (r: Bytes)
    requires peer.Valid()
    ensures |r| >= 20
  {
    Message(SEND_INDICATION, (if peer.V4? then [(XOR_PEER_ADDRESS, XorAddress(peer.ip, peer.port))] else []) + [(DATA, data)],
            txn)
  }

  // ---------- Walks ----------

  /** The attributes that a walk from pos meets. The end is that of the message, the bounds are those of the data. */
  function Walk(data: Bytes, pos: nat, end: nat): seq<Attr>
    requires end <= |data|
    decreases end - pos
  {
    if pos + 4 > end then []
    else
      var len := Read16(data, pos + 2);
      if pos + 4 + len > |data| then []
      else [(Read16(data, pos), data[pos + 4..pos + 4 + len])] + Walk(data, pos + 4 + Padded(len), end)
  }

  /** The end of a message, by its header. */
  function End(data: Bytes): (r: nat)
    requires |data| >= 20
    ensures r <= |data|
  {
    var end := 20 + Read16(data, 2);
    if end < |data| then end else |data|
  }

  function AttrsOf(data: Bytes): seq<Attr>
    requires |data| >= 20
  {
    Walk(data, 20, End(data))
  }

  function First(attrs: seq<Attr>, typ: nat): Option<Bytes> {
    if attrs == [] then None else if attrs[0].0 == typ then Some(attrs[0].1) else First(attrs[1..], typ)
  }

  /** The last value of a type, or the one from before. */
  function Last(attrs: seq<Attr>, typ: nat, before: Option<Bytes>): Option<Bytes> {
    if attrs == [] then before
    else Last(attrs[1..], typ, if attrs[0].0 == typ then Some(attrs[0].1) else before)
  }

  function ParseXorMapped(val: Bytes): Option<Peer> {
    if |val| < 8 || val[1] != 1 then None
    else Some(V4(XorAll(val[4..8], MAGIC), Read16(XorAll(val[2..4], MAGIC), 0)))
  }

  function ParseMapped(val: Bytes): Option<Peer> {
    if |val| < 8 || val[1] != 1 then None else Some(V4(val[4..8], Read16(val, 2)))
  }

  /** The last peer address that can be read, or the one from before. */
  function LastPeer(attrs: seq<Attr>, before: Option<Peer>): Option<Peer> {
    if attrs == [] then before
    else
      var read := if attrs[0].0 == XOR_PEER_ADDRESS then ParseXorMapped(attrs[0].1) else None;
      LastPeer(attrs[1..], if read.Some? then read else before)
  }

  /** The first of the attributes that carry the mapped address decides. */
  function FirstMapped(attrs: seq<Attr>): Option<Peer> {
    if attrs == [] then None
    else if attrs[0].0 == XOR_MAPPED_ADDRESS then ParseXorMapped(attrs[0].1)
    else if attrs[0].0 == MAPPED_ADDRESS then ParseMapped(attrs[0].1)
    else FirstMapped(attrs[1..])
  }

  method ParseStunAttr(data: Bytes, typ: nat) returns (r: Option<Bytes>)
    ensures r == if |data| < 20 then None else First(AttrsOf(data), typ)
  {
    if |data| < 20 {
      return None;
    }
    var end := End(data);
    var pos := 20;
    while pos + 4 <= end
      invariant First(AttrsOf(data), typ) == First(Walk(data, pos, end), typ)
      decreases end - pos
    {
      var attrType, attrLen := Read16(data, pos), Read16(data, pos + 2);
      if pos + 4 + attrLen > |data| {
        break;
      }
      if attrType == typ {
        return Some(data[pos + 4..pos + 4 + attrLen]);
      }
      pos := pos + 4 + Padded(attrLen);
    }
    return None;
  }

  method ParseTurnError401(data: Bytes) returns (r: Option<(Bytes, Bytes)>)
    ensures r == Error401(data)
  {
    if |data| < 20 {
      return None;
    }
    var realm, nonce := None, None;
    var end := End(data);
    var pos := 20;
    while pos + 4 <= end
      invariant Last(AttrsOf(data), REALM, None) == Last(Walk(data, pos, end), REALM, realm)
      invariant Last(AttrsOf(data), NONCE, None) == Last(Walk(data, pos, end), NONCE, nonce)
      decreases end - pos
    {
      var attrType, attrLen := Read16(data, pos), Read16(data, pos + 2);
      if pos + 4 + attrLen > |data| {
        break;
      }
      if attrType == REALM {
        realm := Some(data[pos + 4..pos + 4 + attrLen]);
      } else if attrType == NONCE {
        nonce := Some(data[pos + 4..pos + 4 + attrLen]);
      }
      pos := pos + 4 + Padded(attrLen);
    }
    return if realm.Some? && nonce.Some? then Some((realm.value, nonce.value)) else None;
  }

  function Error401(data: Bytes): Option<(Bytes, Bytes)> {
    if |data| < 20 then None
    else
      var realm, nonce := Last(AttrsOf(data), REALM, None), Last(AttrsOf(data), NONCE, None);
      if realm.Some? && nonce.Some? then Some((realm.value, nonce.value)) else None
  }

  function TurnData(pkt: Bytes): Option<(Peer, Bytes)> {
    if |pkt| < 20 || Read16(pkt, 0) != DATA_INDICATION || pkt[4..8] != MAGIC then None
    else
      var peer, data := LastPeer(AttrsOf(pkt), None), Last(AttrsOf(pkt), DATA, None);
      if peer.Some? && data.Some? then Some((peer.value, data.value)) else None
  }

  method ParseTurnData(pkt: Bytes) returns (r: Option<(Peer, Bytes)>)
    ensures r == TurnData(pkt)
  {
    if |pkt| < 20 {
      return None;
    }
    if Read16(pkt, 0) != DATA_INDICATION {
      return None;
    }
    if pkt[4..8] != MAGIC {
      return None;
    }
    var peer, range := FindPeerAndData(pkt, End(pkt));
    return if peer.Some? && range.Some? then Some((peer.value, pkt[range.value.0..range.value.1])) else None;
  }

  /** The walk of ParseTurnData. */
  method FindPeerAndData(pkt: Bytes, end: nat) returns (peer: Option<Peer>, range: Option<(nat, nat)>)
    requires end <= |pkt|
    ensures range.Some? ==> range.value.0 <= range.value.1 <= |pkt|
    ensures peer == LastPeer(Walk(pkt, 20, end), None)
    ensures Slice(pkt, range) == Last(Walk(pkt, 20, end), DATA, None)
  {
    hide ParseXorMapped, Walk, Last, LastPeer, Padded;
    peer, range := None, None;
    var pos := 20;
    while pos + 4 <= end
      invariant range.Some? ==> range.value.0 <= range.value.1 <= |pkt|
      invariant LastPeer(Walk(pkt, 20, end), None) == LastPeer(Walk(pkt, pos, end), peer)
      invariant Last(Walk(pkt, 20, end), DATA, None) == Last(Walk(pkt, pos, end), DATA, Slice(pkt, range))
      decreases end - pos
    {
      WalkStep(pkt, pos, end);
      var attrType, attrLen := Read16(pkt, pos), Read16(pkt, pos + 2);
      PaddedIsMore(attrLen);
      if pos + 4 + attrLen > |pkt| {
        break;
      }
      ghost var a := (attrType, pkt[pos + 4..pos + 4 + attrLen]);
      LastCons(a, Walk(pkt, pos + 4 + Padded(attrLen), end), DATA, Slice(pkt, range));
      LastPeerCons(a, Walk(pkt, pos + 4 + Padded(attrLen), end), peer);
      if attrType == XOR_PEER_ADDRESS {
        var addr := ParseXorMapped(pkt[pos + 4..pos + 4 + attrLen]);
        if addr.Some? {
          peer := addr;
        }
      } else if attrType == DATA {
        range := Some((pos + 4, pos + 4 + attrLen));
      }
      pos := pos + 4 + Padded(attrLen);
    }
    WalkEnds(pkt, pos, end);
    LastCons((0, []), [], DATA, Slice(pkt, range));
    LastPeerCons((0, []), [], peer);
  }

  function Slice(data: Bytes, range: Option<(nat, nat)>): Option<Bytes>
    requires range.Some? ==> range.value.0 <= range.value.1 <= |data|
  {
    if range.None? then None else Some(data[range.value.0..range.value.1])
  }

  lemma PaddedIsMore(n: nat)
    ensures n <= Padded(n) < n + 4
  {
  }

  lemma WalkEnds(data: Bytes, pos: nat, end: nat)
    requires end <= |data|
    requires pos + 4 > end || pos + 4 + Read16(data, pos + 2) > |data|
    ensures Walk(data, pos, end) == []
  {
  }

  function StunResponse(data: Bytes): Option<Peer> {
    if |data| < 20 || data[4..8] != MAGIC || Read16(data, 0) != BINDING_SUCCESS then None
    else FirstMapped(AttrsOf(data))
  }

  method ParseStunResponse(data: Bytes) returns (r: Option<Peer>)
    ensures r == StunResponse(data)
  {
    if |data| < 20 {
      return None;
    }
    if data[4..8] != MAGIC {
      return None;
    }
    if Read16(data, 0) != BINDING_SUCCESS {
      return None;
    }
    r := FindMapped(data, End(data));
  }

  /** The walk of ParseStunResponse. */
  method FindMapped(data: Bytes, end: nat) returns (r: Option<Peer>)
    requires end <= |data|
    ensures r == FirstMapped(Walk(data, 20, end))
  {
    hide ParseXorMapped, ParseMapped, FirstMapped, Walk, Padded;
    var pos := 20;
    while pos + 4 <= end
      invariant FirstMapped(Walk(data, 20, end)) == FirstMapped(Walk(data, pos, end))
      decreases end - pos
    {
      WalkStep(data, pos, end);
      var attrType, attrLen := Read16(data, pos), Read16(data, pos + 2);
      if pos + 4 + attrLen > |data| {
        break;
      }
      var val := data[pos + 4..pos + 4 + attrLen];
      PaddedIsMore(attrLen);
      FirstMappedCons((attrType, val), Walk(data, pos + 4 + Padded(attrLen), end));
      if attrType == XOR_MAPPED_ADDRESS {
        return ParseXorMapped(val);
      }
      if attrType == MAPPED_ADDRESS {
        return ParseMapped(val);
      }
      pos := pos + 4 + Padded(attrLen);
    }
    WalkEnds(data, pos, end);
    FirstMappedCons((0, []), []);
    return None;
  }

  lemma FirstMappedCons(a: Attr, rest: seq<Attr>)
    ensures FirstMapped([a] + rest) ==
            if a.0 == XOR_MAPPED_ADDRESS then ParseXorMapped(a.1)
            else if a.0 == MAPPED_ADDRESS then ParseMapped(a.1)
            else FirstMapped(rest)
    ensures FirstMapped([]) == None
  {
    assert ([a] + rest)[1..] == rest;
  }

  lemma LastCons(a: Attr, rest: seq<Attr>, typ: nat, before: Option<Bytes>)
    ensures Last([a] + rest, typ, before) == Last(rest, typ, if a.0 == typ then Some(a.1) else before)
    ensures Last([], typ, before) == before
  {
    assert ([a] + rest)[1..] == rest;
  }

  lemma LastPeerCons(a: Attr, rest: seq<Attr>, before: Option<Peer>)
    ensures var read := if a.0 == XOR_PEER_ADDRESS then ParseXorMapped(a.1) else None;
            LastPeer([a] + rest, before) == LastPeer(rest, if read.Some? then read else before)
    ensures LastPeer([], before) == before
  {
    assert ([a] + rest)[1..] == rest;
  }

  /** One step of a walk. */
  lemma WalkStep(data: Bytes, pos: nat, end: nat)
    requires pos + 4 <= end <= |data|
    ensures var len := Read16(data, pos + 2);
            Walk(data, pos, end) ==
            if pos + 4 + len > |data| then []
            else [(Read16(data, pos), data[pos + 4..pos + 4 + len])] + Walk(data, pos + 4 + Padded(len), end)
  {
  }

  // ---------- Building messages ----------

  class Vec {
    var data: Bytes

    constructor ()
      ensures data == []
    {
      data := [];
    }

    method AppendAttr(typ: nat, value: Bytes)
      modifies this
      ensures data == old(data) + AttrBytes((typ, value))
    {
      ghost var before, head := data, BigEndian(typ, 2) + BigEndian(|value|, 2) + value;
      data := data + BigEndian(typ, 2);
      data := data + BigEndian(|value|, 2);
      data := data + value;
      Associate4(before, BigEndian(typ, 2), BigEndian(|value|, 2), value);
      var pad := (4 - |value| % 4) % 4;
      ZerosGrow(before + head, 0);
      var k := 0;
      while k < pad
        invariant 0 <= k <= pad && data == before + head + Zeros(k)
      {
        ZerosGrow(before + head, k);
        data := data + [0];
        k := k + 1;
      }
      assert pad == Padded(|value|) - |value|;
      Associate(before, head, Zeros(pad));
    }
  }

  lemma Associate4(a: Bytes, b: Bytes, c: Bytes, d: Bytes)
    ensures a + b + c + d == a + (b + c + d)
  {
  }

  lemma ZerosGrow(start: Bytes, k: nat)
    ensures start + Zeros(0) == start
    ensures start + Zeros(k) + [0] == start + Zeros(k + 1)
  {
  }

  /** What a client knows for its requests; the server's address is left to the socket. */
  datatype TurnState = TurnState(realm: Bytes, nonce: Bytes, username: Bytes, password: Bytes)

  /** The hashes, and whether a byte string is UTF-8. */
  datatype Hashes = Hashes(md5: Bytes -> Bytes, hmac: (Bytes, Bytes) -> Bytes, isUtf8: Bytes -> bool)

  function Md5Key(ts: TurnState, h: Hashes): Bytes {
    h.md5(ts.username + [0x3A] + (if h.isUtf8(ts.realm) then ts.realm else []) + [0x3A] + ts.password)
  }

  function Credentials(ts: TurnState): seq<Attr> {
    [(USERNAME, ts.username), (REALM, ts.realm), (NONCE, ts.nonce)]
  }

  /** What is hashed: the header, whose length covers the integrity attribute, and all attributes before that. */
  function Hashed(typ: nat, attrs: seq<Attr>, txn: TransId): Bytes {
    Header(typ, |EncodeAttrs(attrs)| + 24, txn) + EncodeAttrs(attrs)
  }

  /** A request with credentials. */
  function AuthRequest(typ: nat, attrs: seq<Attr>, txn: TransId, ts: TurnState, h: Hashes): Bytes {
    var all := attrs + Credentials(ts);
    Message(typ, all + [(MESSAGE_INTEGRITY, h.hmac(Md5Key(ts, h), Hashed(typ, all, txn)))], txn)
  }

  method AppendCredentials(buf: Vec, ts: TurnState, ghost attrs: seq<Attr>)
    requires buf.data == EncodeAttrs(attrs)
    modifies buf
    ensures buf.data == EncodeAttrs(attrs + Credentials(ts))
  {
    var username, realm, nonce := (USERNAME, ts.username), (REALM, ts.realm), (NONCE, ts.nonce);
    EncodeOneMore(attrs, username);
    EncodeOneMore(attrs + [username], realm);
    EncodeOneMore(attrs + [username] + [realm], nonce);
    assert attrs + Credentials(ts) == attrs + [username] + [realm] + [nonce];
    hide EncodeAttrs, AttrBytes;
    buf.AppendAttr(USERNAME, ts.username);
    buf.AppendAttr(REALM, ts.realm);
    buf.AppendAttr(NONCE, ts.nonce);
  }

  /** Writes the length into a header. */
  method SetLength(header: array<byte>, len: nat, ghost typ: nat, ghost txn: TransId)
    requires header.Length == 20 && header[..] == Header(typ, 0, txn)
    modifies header
    ensures header[..] == Header(typ, len, txn)
  {
    var bytes := BigEndian(len, 2);
    header[2], header[3] := bytes[0], bytes[1];
  }

  /** Whether the length with the hash can be computed in 16 bits. */
  predicate LengthFits(attrs: seq<Attr>) {
    |EncodeAttrs(attrs)| % LIMIT + 24 < LIMIT
  }

  /**
   Adds the credentials and the hash. Where the length does not fit, a build that checks for overflow panics (then this
   gives false), and any other one wraps around and goes on.
   */
  method AppendAuth(buf: Vec, header: array<byte>, ts: TurnState, h: Hashes, checked: bool, ghost typ: nat,
                    ghost attrs: seq<Attr>, ghost txn: TransId) returns (ok: bool)
    requires header.Length == 20 && header[..] == Header(typ, 0, txn) && buf.data == EncodeAttrs(attrs)
    modifies buf, header
    ensures ok <==> !checked || LengthFits(attrs + Credentials(ts))
    ensures ok ==>
              var all := attrs + Credentials(ts);
              buf.data == EncodeAttrs(all + [(MESSAGE_INTEGRITY, h.hmac(Md5Key(ts, h), Hashed(typ, all, txn)))])
  {
    hide EncodeAttrs, AttrBytes, Header, Credentials, Md5Key;
    AppendCredentials(buf, ts, attrs);
    var low := |buf.data| % LIMIT;
    if checked && low + 24 >= LIMIT {
      return false;
    }
    var len := (low + 24) % LIMIT;
    WrapsAlike(|buf.data|);
    SameLowBytes(|buf.data| + 24, len, typ, txn);
    SetLength(header, len, typ, txn);
    var hmac := h.hmac(Md5Key(ts, h), header[..] + buf.data);
    EncodeOneMore(attrs + Credentials(ts), (MESSAGE_INTEGRITY, hmac));
    buf.AppendAttr(MESSAGE_INTEGRITY, hmac);
    return true;
  }

  lemma WrapsAlike(n: nat)
    ensures var len := (n % LIMIT + 24) % LIMIT;
            n + 24 >= len && (n + 24 - len) % LIMIT == 0
  {
    assert n == LIMIT * (n / LIMIT) + n % LIMIT;
    var low := n % LIMIT + 24;
    assert low == LIMIT * (low / LIMIT) + low % LIMIT;
    assert n + 24 - low % LIMIT == LIMIT * (n / LIMIT + low / LIMIT);
  }

  lemma SameLowBytes(a: nat, b: nat, typ: nat, txn: TransId)
    requires a >= b && (a - b) % LIMIT == 0
    ensures Header(typ, a, txn) == Header(typ, b, txn)
  {
    LowBytes(a);
    LowBytes(b);
    hide BigEndian;
    LowBytesShift((a - b) / LIMIT, b);
  }

  lemma LowBytesShift(q: nat, b: nat)
    ensures (LIMIT * q + b) % 256 == b % 256
    ensures (LIMIT * q + b) / 256 % 256 == b / 256 % 256
  {
    var y := LIMIT * q + b;
    assert y == 256 * (256 * q) + b;
    assert y / 256 == 256 * q + b / 256;
  }

  method StunHeader(typ: nat, len: nat, txn: TransId) returns (h: array<byte>)
    ensures fresh(h) && h.Length == 20 && h[..] == Header(typ, len, txn)
  {
    var bytes := Header(typ, len, txn);
    h := new byte[20](i requires 0 <= i < 20 => bytes[i]);
  }

  /** A request as it is sent, with one attribute of its own (as the refresh of an allocation); none after a panic. */
  method BuildAuthRequest(typ: nat, own: Attr, txn: TransId, ts: TurnState, h: Hashes, checked: bool)
      returns (msg: Option<Bytes>)
    ensures msg == if !checked || LengthFits([own] + Credentials(ts)) then Some(AuthRequest(typ, [own], txn, ts, h)) else None
  {
    var attrs := new Vec();
    EncodeOneMore([], own);
    assert EncodeAttrs([]) == [] && [] + [own] == [own] && [] + AttrBytes(own) == AttrBytes(own);
    hide EncodeAttrs, AttrBytes, Header;
    attrs.AppendAttr(own.0, own.1);
    var header := StunHeader(typ, 0, txn);
    var ok := AppendAuth(attrs, header, ts, h, checked, typ, [own], txn);
    if !ok {
      return None;
    }
    var hdr := StunHeader(typ, |attrs.data|, txn);
    return Some(hdr[..] + attrs.data);
  }

  method BuildSendIndication(peer: Peer, data: Bytes, txn: TransId) returns (msg: Bytes)
    requires peer.Valid()
    ensures msg == SendIndication(peer, data, txn)
  {
    hide AttrBytes, Header;
    var attrs := new Vec();
    ghost var list: seq<Attr> := [];
    if peer.V4? {
      var xpa := XorAddress(peer.ip, peer.port);
      EncodeOneMore(list, (XOR_PEER_ADDRESS, xpa));
      attrs.AppendAttr(XOR_PEER_ADDRESS, xpa);
      list := list + [(XOR_PEER_ADDRESS, xpa)];
    }
    EncodeOneMore(list, (DATA, data));
    attrs.AppendAttr(DATA, data);
    var hdr := StunHeader(SEND_INDICATION, |attrs.data|, txn);
    msg := hdr[..] + attrs.data;
  }

  lemma EncodeOneMore(attrs: seq<Attr>, a: Attr)
    ensures EncodeAttrs(attrs + [a]) == EncodeAttrs(attrs) + AttrBytes(a)
  {
    assert (attrs + [a])[..|attrs|] == attrs;
  }

  // ---------- Walks find what was appended ----------

  lemma AttrBytesSize(a: Attr)
    ensures |AttrBytes(a)| == 4 + Padded(|a.1|)
  {
  }

  /** The bytes from pos on are those given. */
  predicate At(data: Bytes, pos: nat, bytes: Bytes) {
    pos + |bytes| <= |data| && data[pos..pos + |bytes|] == bytes
  }

  /** What a walk reads at an attribute. */
  lemma ReadsAttr(data: Bytes, pos: nat, a: Attr)
    requires a.0 < LIMIT && |a.1| < LIMIT && At(data, pos, AttrBytes(a))
    ensures pos + 4 + |a.1| <= |data| && Read16(data, pos) == a.0 && Read16(data, pos + 2) == |a.1|
    ensures data[pos + 4..pos + 4 + |a.1|] == a.1
  {
    BigEndian16(a.0);
    BigEndian16(|a.1|);
    var bytes := AttrBytes(a);
    assert bytes[4..4 + |a.1|] == a.1;
    assert data[pos] == bytes[0] && data[pos + 1] == bytes[1] && data[pos + 2] == bytes[2] && data[pos + 3] == bytes[3];
    assert data[pos..pos + |bytes|][4..4 + |a.1|] == data[pos + 4..pos + 4 + |a.1|];
  }

  predicate Fit(attrs: seq<Attr>) {
    forall k | 0 <= k < |attrs| :: attrs[k].0 < LIMIT && |attrs[k].1| < LIMIT
  }

  lemma {:induction false} EncodeFirst(a: Attr, rest: seq<Attr>)
    ensures EncodeAttrs([a] + rest) == AttrBytes(a) + EncodeAttrs(rest)
  {
    if rest == [] {
      assert ([a] + rest)[..0] == [] && [a] + rest == [a];
      assert EncodeAttrs([]) + AttrBytes(a) == AttrBytes(a) + EncodeAttrs([]);
    } else {
      var n := |rest| - 1;
      EncodeFirst(a, rest[..n]);
      EncodeOneMore([a] + rest[..n], rest[n]);
      EncodeOneMore(rest[..n], rest[n]);
      assert [a] + rest == [a] + rest[..n] + [rest[n]] && rest == rest[..n] + [rest[n]];
      hide EncodeAttrs, AttrBytes;
      Associate(AttrBytes(a), EncodeAttrs(rest[..n]), AttrBytes(rest[n]));
    }
  }

  lemma Associate(a: Bytes, b: Bytes, c: Bytes)
    ensures a + b + c == a + (b + c)
  {
  }

  /** A walk meets the attribute it stands at, and goes on behind it. */
  lemma WalkNext(data: Bytes, pos: nat, a: Attr, end: nat)
    requires a.0 < LIMIT && |a.1| < LIMIT && At(data, pos, AttrBytes(a)) && pos + 4 <= end <= |data|
    ensures Walk(data, pos, end) == [a] + Walk(data, pos + |AttrBytes(a)|, end)
  {
    ReadsAttr(data, pos, a);
    AttrBytesSize(a);
    hide AttrBytes, At;
  }

  lemma AtBoth(data: Bytes, pos: nat, first: Bytes, others: Bytes)
    requires At(data, pos, first + others)
    ensures At(data, pos, first) && At(data, pos + |first|, others)
  {
    var both := first + others;
    assert both[..|first|] == first && both[|first|..] == others;
    assert data[pos..pos + |both|][..|first|] == data[pos..pos + |first|];
    assert data[pos..pos + |both|][|first|..] == data[pos + |first|..pos + |both|];
  }

  lemma WalkFirst(data: Bytes, pos: nat, a: Attr, others: Bytes, end: nat, rest: seq<Attr>)
    requires a.0 < LIMIT && |a.1| < LIMIT && At(data, pos, AttrBytes(a) + others) && end == pos + |AttrBytes(a)| + |others|
    ensures var next := pos + |AttrBytes(a)|;
            && end <= |data| && At(data, next, others)
            && (Walk(data, next, end) == rest ==> Walk(data, pos, end) == [a] + rest)
  {
    AttrBytesSize(a);
    hide AttrBytes, Walk;
    AtBoth(data, pos, AttrBytes(a), others);
    WalkNext(data, pos, a, end);
  }

  lemma HeadAndTail(attrs: seq<Attr>)
    requires attrs != [] && Fit(attrs)
    ensures attrs == [attrs[0]] + attrs[1..] && Fit(attrs[1..]) && attrs[0].0 < LIMIT && |attrs[0].1| < LIMIT
    ensures EncodeAttrs(attrs) == AttrBytes(attrs[0]) + EncodeAttrs(attrs[1..])
  {
    EncodeFirst(attrs[0], attrs[1..]);
  }

  lemma EmptyWalk(data: Bytes, pos: nat, attrs: seq<Attr>, end: nat)
    requires |attrs| == 0 && At(data, pos, EncodeAttrs(attrs)) && end == pos + |EncodeAttrs(attrs)|
    ensures end <= |data| && Walk(data, pos, end) == attrs
  {
    assert EncodeAttrs(attrs) == [];
  }

  /** A walk over encoded attributes meets exactly these, whatever stands around them. */
  lemma {:induction false} WalkMeetsAll(data: Bytes, pos: nat, attrs: seq<Attr>, end: nat)
    requires Fit(attrs) && At(data, pos, EncodeAttrs(attrs)) && end == pos + |EncodeAttrs(attrs)|
    ensures end <= |data| && Walk(data, pos, end) == attrs
    decreases |attrs|
  {
    hide EncodeAttrs, AttrBytes, Walk, At, Fit;
    if |attrs| == 0 {
      EmptyWalk(data, pos, attrs, end);
      return;
    }
    var a, rest := attrs[0], attrs[1..];
    HeadAndTail(attrs);
    WalkFirst(data, pos, a, EncodeAttrs(rest), end, rest);
    WalkMeetsAll(data, pos + |AttrBytes(a)|, rest, end);
  }

  /** A message of which the length fits its field carries the attributes that it was made of. */
  lemma MessageCarries(typ: nat, attrs: seq<Attr>, txn: TransId)
    requires Fit(attrs) && typ < LIMIT && |EncodeAttrs(attrs)| < LIMIT
    ensures var m := Message(typ, attrs, txn);
            && |m| == 20 + |EncodeAttrs(attrs)| && Read16(m, 0) == typ && m[4..8] == MAGIC
            && End(m) == |m| && AttrsOf(m) == attrs
  {
    hide Header, EncodeAttrs, Walk, Fit;
    var m, len := Message(typ, attrs, txn), |EncodeAttrs(attrs)|;
    HeaderReads(typ, len, txn, EncodeAttrs(attrs));
    AfterHeader(Header(typ, len, txn), EncodeAttrs(attrs));
    hide At;
    WalkMeetsAll(m, 20, attrs, |m|);
  }

  lemma AfterHeader(h: Bytes, rest: Bytes)
    ensures At(h + rest, |h|, rest)
  {
  }

  /** What is read from a header; its length is cut off to 16 bits. */
  lemma HeaderReads(typ: nat, len: nat, txn: TransId, rest: Bytes)
    requires typ < LIMIT
    ensures var m := Header(typ, len, txn) + rest;
            Read16(m, 0) == typ && Read16(m, 2) == len % LIMIT && m[4..8] == MAGIC
  {
    BigEndian16(typ);
    LowBytes(len);
    var h, m := Header(typ, len, txn), Header(typ, len, txn) + rest;
    assert h[0] == m[0] && h[1] == m[1] && h[2] == m[2] && h[3] == m[3];
    assert h[4..8] == MAGIC;
    assert m[4..8] == h[4..8];
  }

  lemma LowBytes(v: nat)
    ensures BigEndian(v, 2) == [v / 256 % 256, v % 256]
    ensures v / 256 % 256 * 256 + v % 256 == v % LIMIT
  {
    assert BigEndian(v / 256, 1) == BigEndian(v / 256 / 256, 0) + [v / 256 % 256];
  }

  /** Looking for a type gives the first value that was appended under it. */
  lemma FindsFirstAppended(msg: nat, attrs: seq<Attr>, txn: TransId, typ: nat)
    requires Fit(attrs) && msg < LIMIT && |EncodeAttrs(attrs)| < LIMIT
    ensures First(AttrsOf(Message(msg, attrs, txn)), typ) == First(attrs, typ)
  {
    MessageCarries(msg, attrs, txn);
  }

  lemma {:induction false} FirstIs(attrs: seq<Attr>, typ: nat, k: nat)
    requires k < |attrs| && attrs[k].0 == typ && forall j | 0 <= j < k :: attrs[j].0 != typ
    ensures First(attrs, typ) == Some(attrs[k].1)
  {
    if k > 0 {
      FirstIs(attrs[1..], typ, k - 1);
    }
  }

  // ---------- The hash covers the message ----------

  lemma {:induction false} FitsWhenShort(attrs: seq<Attr>)
    requires |EncodeAttrs(attrs)| < LIMIT && forall k | 0 <= k < |attrs| :: attrs[k].0 < LIMIT
    ensures Fit(attrs)
  {
    if attrs != [] {
      var n := |attrs| - 1;
      AttrBytesSize(attrs[n]);
      assert |EncodeAttrs(attrs)| == |EncodeAttrs(attrs[..n])| + |AttrBytes(attrs[n])|;
      hide EncodeAttrs, AttrBytes;
      FitsWhenShort(attrs[..n]);
      assert forall k | 0 <= k < n :: attrs[k] == attrs[..n][k];
    }
  }

  /**
   In a request as it is sent, the integrity attribute is found and holds the hash of exactly the bytes before it,
   with the length that the header has on the wire. The key is made of the user name and the realm that the request says,
   and the password that it does not.
   */
  lemma IntegrityCoversMessage(typ: nat, attrs: seq<Attr>, txn: TransId, ts: TurnState, h: Hashes)
    requires |EncodeAttrs(attrs + Credentials(ts))| + 24 < LIMIT && typ < LIMIT
    requires forall k | 0 <= k < |attrs| :: attrs[k].0 < LIMIT && attrs[k].0 != MESSAGE_INTEGRITY
    requires forall k, d :: |h.hmac(k, d)| == 20
    ensures var m := AuthRequest(typ, attrs, txn, ts, h);
            && |m| >= 44
            && Read16(m, 0) == typ && m[4..8] == MAGIC && m[8..20] == txn
            && Last(AttrsOf(m), USERNAME, None) == Some(ts.username)
            && Last(AttrsOf(m), REALM, None) == Some(ts.realm)
            && Last(AttrsOf(m), NONCE, None) == Some(ts.nonce)
            && var user, realm := Last(AttrsOf(m), USERNAME, None).value, Last(AttrsOf(m), REALM, None).value;
               var key := h.md5(user + [0x3A] + (if h.isUtf8(realm) then realm else []) + [0x3A] + ts.password);
               First(AttrsOf(m), MESSAGE_INTEGRITY) == Some(h.hmac(key, m[..|m| - 24]))
  {
    var all, m := attrs + Credentials(ts), AuthRequest(typ, attrs, txn, ts, h);
    var mac := h.hmac(Md5Key(ts, h), Hashed(typ, all, txn));
    var integrity := (MESSAGE_INTEGRITY, mac);
    EncodeOneMore(all, integrity);
    AttrBytesSize(integrity);
    FitsWhenShort(all + [integrity]);
    MessageCarries(typ, all + [integrity], txn);
    FirstIs(all + [integrity], MESSAGE_INTEGRITY, |all|);
    HashedIsPrefix(typ, all, integrity, txn);
    CredentialsLast(attrs, ts, integrity);
    HeaderReads(typ, |EncodeAttrs(all + [integrity])|, txn, EncodeAttrs(all + [integrity]));
    MessageSaysTxn(typ, all + [integrity], txn);
    hide EncodeAttrs, AttrBytes, Header, Credentials;
  }

  lemma MessageSaysTxn(typ: nat, attrs: seq<Attr>, txn: TransId)
    ensures Message(typ, attrs, txn)[8..20] == txn
  {
    assert Header(typ, |EncodeAttrs(attrs)|, txn)[8..] == txn;
  }

  lemma HashedIsPrefix(typ: nat, all: seq<Attr>, integrity: Attr, txn: TransId)
    requires |integrity.1| == 20
    ensures var m := Message(typ, all + [integrity], txn);
            |m| >= 44 && m[..|m| - 24] == Hashed(typ, all, txn)
  {
    EncodeOneMore(all, integrity);
    AttrBytesSize(integrity);
    hide EncodeAttrs, AttrBytes, Header;
  }

  lemma {:induction false} LastIs(attrs: seq<Attr>, typ: nat, k: nat, before: Option<Bytes>)
    requires k < |attrs| && attrs[k].0 == typ && forall j | k < j < |attrs| :: attrs[j].0 != typ
    ensures Last(attrs, typ, before) == Some(attrs[k].1)
    decreases |attrs|
  {
    var read := if attrs[0].0 == typ then Some(attrs[0].1) else before;
    if k > 0 {
      LastIs(attrs[1..], typ, k - 1, read);
    } else {
      NoMore(attrs[1..], typ, read);
    }
  }

  lemma {:induction false} NoMore(attrs: seq<Attr>, typ: nat, before: Option<Bytes>)
    requires forall j | 0 <= j < |attrs| :: attrs[j].0 != typ
    ensures Last(attrs, typ, before) == before
    decreases |attrs|
  {
    if attrs != [] {
      NoMore(attrs[1..], typ, before);
    }
  }

  lemma CredentialsLast(attrs: seq<Attr>, ts: TurnState, integrity: Attr)
    requires integrity.0 == MESSAGE_INTEGRITY
    ensures var all := attrs + Credentials(ts) + [integrity];
            && Last(all, USERNAME, None) == Some(ts.username)
            && Last(all, REALM, None) == Some(ts.realm) && Last(all, NONCE, None) == Some(ts.nonce)
  {
    var all := attrs + Credentials(ts) + [integrity];
    LastIs(all, USERNAME, |attrs|, None);
    LastIs(all, REALM, |attrs| + 1, None);
    LastIs(all, NONCE, |attrs| + 2, None);
  }

  /** A server that wants credentials gets them back as it gave them. */
  lemma Error401RoundTrip(typ: nat, attrs: seq<Attr>, txn: TransId)
    requires Fit(attrs) && typ < LIMIT && |EncodeAttrs(attrs)| < LIMIT
    ensures var realm, nonce := Last(attrs, REALM, None), Last(attrs, NONCE, None);
            Error401(Message(typ, attrs, txn)) ==
            if realm.Some? && nonce.Some? then Some((realm.value, nonce.value)) else None
  {
    MessageCarries(typ, attrs, txn);
  }

  // ---------- Data goes through the relay ----------

  /** The relay passes the attributes on in a message of its own. */
  function Relayed(m: Bytes): Bytes
    requires |m| >= 2
  {
    BigEndian(DATA_INDICATION, 2) + m[2..]
  }

  lemma XorAddressRoundTrip(ip: Bytes, port: nat)
    requires |ip| == 4 && port < LIMIT
    ensures ParseXorMapped(XorAddress(ip, port)) == Some(V4(ip, port))
  {
    var x := XorAddress(ip, port);
    assert x[4..8] == XorAll(ip, MAGIC) && x[2..4] == XorAll(BigEndian(port, 2), MAGIC);
    XorAllTwice(ip, MAGIC);
    XorAllTwice(BigEndian(port, 2), MAGIC);
    BigEndian16(port);
  }

  /** Only IPv4 addresses are read, from eight bytes or more. */
  lemma AddressIsReadIff(val: Bytes)
    ensures ParseXorMapped(val).Some? <==> |val| >= 8 && val[1] == 1
    ensures ParseMapped(val).Some? <==> |val| >= 8 && val[1] == 1
  {
  }

  /** An address that is not masked is read as it stands. */
  lemma MappedRoundTrip(ip: Bytes, port: nat)
    requires |ip| == 4 && port < LIMIT
    ensures ParseMapped([0, 1] + BigEndian(port, 2) + ip) == Some(V4(ip, port))
  {
    var x := [0, 1] + BigEndian(port, 2) + ip;
    BigEndian16(port);
    assert x[4..8] == ip;
  }

  lemma RelayedIs(attrs: seq<Attr>, txn: TransId)
    ensures Relayed(Message(SEND_INDICATION, attrs, txn)) == Message(DATA_INDICATION, attrs, txn)
  {
    var len := |EncodeAttrs(attrs)|;
    assert Header(SEND_INDICATION, len, txn)[2..] == BigEndian(len, 2) + MAGIC + txn;
  }

  function PeerAttrs(ip: Bytes, port: nat, data: Bytes): seq<Attr>
    requires |ip| == 4
  {
    [(XOR_PEER_ADDRESS, XorAddress(ip, port)), (DATA, data)]
  }

  lemma TwoEncoded(ip: Bytes, port: nat, data: Bytes)
    requires |ip| == 4
    ensures var attrs := PeerAttrs(ip, port, data);
            && EncodeAttrs(attrs) == AttrBytes(attrs[0]) + AttrBytes(attrs[1])
            && |AttrBytes(attrs[0])| == 12 && |EncodeAttrs(attrs)| == 16 + Padded(|data|)
  {
    var attrs := PeerAttrs(ip, port, data);
    EncodeOneMore([], attrs[0]);
    EncodeOneMore([attrs[0]], attrs[1]);
    assert [] + [attrs[0]] == [attrs[0]] && [attrs[0]] + [attrs[1]] == attrs;
    AttrBytesSize(attrs[0]);
    AttrBytesSize(attrs[1]);
    assert EncodeAttrs([]) + AttrBytes(attrs[0]) == AttrBytes(attrs[0]);
  }

  /** No attribute that is read is longer than its length field can say. */
  lemma {:induction false} ReadIsShort(data: Bytes, pos: nat, end: nat, before: Option<Bytes>)
    requires end <= |data| && (before.Some? ==> |before.value| < LIMIT)
    ensures var r := Last(Walk(data, pos, end), DATA, before);
            r.Some? ==> |r.value| < LIMIT
    decreases end - pos
  {
    if pos + 4 <= end {
      var len := Read16(data, pos + 2);
      if pos + 4 + len <= |data| {
        var a := (Read16(data, pos), data[pos + 4..pos + 4 + len]);
        var rest := Walk(data, pos + 4 + Padded(len), end);
        assert ([a] + rest)[1..] == rest;
        ReadIsShort(data, pos + 4 + Padded(len), end, if a.0 == DATA then Some(a.1) else before);
      }
    }
  }

  /** The walk over the two attributes of relayed data, of which the length in the header was cut off. */
  lemma CutOffWalk(data: Bytes, first: Attr, second: Attr, cut: nat)
    requires first.0 < LIMIT && |first.1| == 8 && second.0 < LIMIT && 65516 < |second.1| < LIMIT
    requires At(data, 20, AttrBytes(first) + AttrBytes(second)) && cut == 16 + Padded(|second.1|) - LIMIT
    ensures cut + 20 <= |data|
    ensures cut < 4 ==> Walk(data, 20, 20 + cut) == []
    ensures 4 <= cut < 16 ==> Walk(data, 20, 20 + cut) == [first]
    ensures 16 <= cut ==> Walk(data, 20, 20 + cut) == [first, second]
    ensures 16 <= cut <==> |second.1| >= 65533
  {
    AttrBytesSize(first);
    AttrBytesSize(second);
    AtBoth(data, 20, AttrBytes(first), AttrBytes(second));
    hide AttrBytes;
    if cut >= 4 {
      WalkNext(data, 20, first, 20 + cut);
      if cut >= 16 {
        WalkNext(data, 32, second, 20 + cut);
        assert Walk(data, 32 + |AttrBytes(second)|, 20 + cut) == [];
      }
    }
  }

  lemma PeerAndData(ip: Bytes, port: nat, data: Bytes)
    requires |ip| == 4 && port < LIMIT
    ensures var attrs := PeerAttrs(ip, port, data);
            LastPeer(attrs, None) == Some(V4(ip, port)) && Last(attrs, DATA, None) == Some(data)
            && Last(attrs[..1], DATA, None) == None && Last([], DATA, None) == None
  {
    var attrs := PeerAttrs(ip, port, data);
    XorAddressRoundTrip(ip, port);
    hide XorAddress, ParseXorMapped, Last, LastPeer;
    assert attrs == [attrs[0]] + [attrs[1]] && [attrs[1]] == [attrs[1]] + [];
    assert attrs[..1] == [attrs[0]] + [];
    LastPeerCons(attrs[0], [attrs[1]], None);
    LastPeerCons(attrs[1], [], Some(V4(ip, port)));
    LastCons(attrs[0], [attrs[1]], DATA, None);
    LastCons(attrs[0], [], DATA, None);
    LastCons(attrs[1], [], DATA, None);
  }

  /** What the receiver of relayed data finds in it. */
  lemma RelayedReads(ip: Bytes, port: nat, data: Bytes, txn: TransId)
    requires |ip| == 4 && port < LIMIT
    ensures var attrs, r := PeerAttrs(ip, port, data), Relayed(SendIndication(V4(ip, port), data, txn));
            && r == Message(DATA_INDICATION, attrs, txn) && |r| == 36 + Padded(|data|)
            && Read16(r, 0) == DATA_INDICATION && Read16(r, 2) == (16 + Padded(|data|)) % LIMIT && r[4..8] == MAGIC
            && At(r, 20, AttrBytes(attrs[0]) + AttrBytes(attrs[1]))
  {
    var attrs := PeerAttrs(ip, port, data);
    assert [(XOR_PEER_ADDRESS, XorAddress(ip, port))] + [(DATA, data)] == attrs;
    RelayedIs(attrs, txn);
    TwoEncoded(ip, port, data);
    var len := |EncodeAttrs(attrs)|;
    HeaderReads(DATA_INDICATION, len, txn, EncodeAttrs(attrs));
    AfterHeader(Header(DATA_INDICATION, len, txn), EncodeAttrs(attrs));
    hide EncodeAttrs, AttrBytes, Header, XorAddress, At;
  }

  /**
   Data that was sent through the relay is read back with the peer's address exactly when its length fits the fields:
   those of the attribute and of the message or, for the three longest, when the cut-off length still covers the two
   attribute headers.
   */
  lemma RelayRoundTripIff(ip: Bytes, port: nat, data: Bytes, txn: TransId)
    requires |ip| == 4 && port < LIMIT
    ensures TurnData(Relayed(SendIndication(V4(ip, port), data, txn))) == Some((V4(ip, port), data)) <==>
            |data| <= 65516 || 65533 <= |data| < LIMIT
  {
    hide EncodeAttrs, AttrBytes, Header, Walk, LastPeer, Last, XorAddress, At, Message;
    var attrs := PeerAttrs(ip, port, data);
    var r := Relayed(SendIndication(V4(ip, port), data, txn));
    RelayedReads(ip, port, data, txn);
    PeerAndData(ip, port, data);
    if |data| <= 65516 {
      TwoEncoded(ip, port, data);
      FitBoth(attrs);
      MessageCarries(DATA_INDICATION, attrs, txn);
      return;
    }
    if |data| < LIMIT {
      CutOffWalk(r, attrs[0], attrs[1], 16 + Padded(|data|) - LIMIT);
      assert attrs[..1] == [attrs[0]];
      return;
    }
    ReadIsShort(r, 20, End(r), None);
  }

  lemma FitBoth(attrs: seq<Attr>)
    requires |attrs| == 2 && attrs[0].0 < LIMIT && attrs[1].0 < LIMIT && |attrs[0].1| < LIMIT && |attrs[1].1| < LIMIT
    ensures Fit(attrs)
  {
  }

  /** The agent sends no address with data for an IPv6 peer, so that the relay has none to pass on, however long it is. */
  lemma NoRelayForV6(data: Bytes, txn: TransId)
    ensures TurnData(Relayed(SendIndication(V6, data, txn))) == None
  {
    var attrs: seq<Attr> := [(DATA, data)];
    assert [] + attrs == attrs;
    RelayedIs(attrs, txn);
    EncodeOneMore([], attrs[0]);
    AttrBytesSize(attrs[0]);
    assert [] + [attrs[0]] == attrs && [] + AttrBytes(attrs[0]) == AttrBytes(attrs[0]);
    var r := Message(DATA_INDICATION, attrs, txn);
    hide EncodeAttrs, AttrBytes, Header, Walk;
    HeaderReads(DATA_INDICATION, |AttrBytes(attrs[0])|, txn, AttrBytes(attrs[0]));
    OneAttrWalk(r, data);
    OnlyDataHasNoPeer(AttrsOf(r));
  }

  lemma OnlyDataHasNoPeer(attrs: seq<Attr>)
    requires attrs == [] || (|attrs| == 1 && attrs[0].0 == DATA)
    ensures LastPeer(attrs, None) == None
  {
    if attrs != [] {
      assert attrs[1..] == [];
    }
  }

  lemma CutOffLengths(n: nat)
    ensures (4 + Padded(n)) % LIMIT <= 4 + Padded(n % LIMIT)
  {
    var q, m := n / LIMIT, n % LIMIT;
    assert n == 4 * (0x4000 * q) + m;
    PaddedMultiple(0x4000 * q, m);
    RemainderIsLess(q, 4 + Padded(m));
  }

  lemma PaddedMultiple(a: nat, m: nat)
    ensures Padded(4 * a + m) == 4 * a + Padded(m)
  {
  }

  lemma RemainderIsLess(q: nat, x: nat)
    ensures (LIMIT * q + x) % LIMIT <= x
  {
    var y := LIMIT * q + x;
    assert y == LIMIT * (y / LIMIT) + y % LIMIT;
    assert y / LIMIT >= q;
  }

  lemma OneAttrReads(r: Bytes, data: Bytes)
    requires |r| == 24 + Padded(|data|) && r[20..] == AttrBytes((DATA, data))
    ensures Read16(r, 20) == DATA && Read16(r, 22) == |data| % LIMIT
  {
    BigEndian16(DATA);
    LowBytes(|data|);
    var bytes := AttrBytes((DATA, data));
    assert r[20] == bytes[0] && r[21] == bytes[1] && r[22] == bytes[2] && r[23] == bytes[3];
  }

  /** Lengths that are cut off to 16 bits are cut off alike, so that a walk never gets behind the one attribute. */
  lemma OneAttrWalk(r: Bytes, data: Bytes)
    requires |r| == 24 + Padded(|data|) && r[20..] == AttrBytes((DATA, data))
    requires Read16(r, 2) == (4 + Padded(|data|)) % LIMIT
    ensures AttrsOf(r) == [] || (|AttrsOf(r)| == 1 && AttrsOf(r)[0].0 == DATA)
  {
    OneAttrReads(r, data);
    CutOffLengths(|data|);
    hide AttrBytes, Padded;
    assert Walk(r, 24 + Padded(|data| % LIMIT), End(r)) == [];
  }

  /** A binding response whose mapped address comes first, or behind attributes of other types, tells that address. */
  lemma {:induction false} MappedAddressIsFound(before: seq<Attr>, ip: Bytes, port: nat, after: seq<Attr>)
    requires |ip| == 4 && port < LIMIT
    requires forall k | 0 <= k < |before| :: before[k].0 != XOR_MAPPED_ADDRESS && before[k].0 != MAPPED_ADDRESS
    ensures FirstMapped(before + [(XOR_MAPPED_ADDRESS, XorAddress(ip, port))] + after) == Some(V4(ip, port))
    decreases |before|
  {
    var all := before + [(XOR_MAPPED_ADDRESS, XorAddress(ip, port))] + after;
    if before == [] {
      XorAddressRoundTrip(ip, port);
    } else {
      assert all[1..] == before[1..] + [(XOR_MAPPED_ADDRESS, XorAddress(ip, port))] + after;
      MappedAddressIsFound(before[1..], ip, port, after);
    }
  }

  lemma ResponseRoundTrip(before: seq<Attr>, ip: Bytes, port: nat, after: seq<Attr>, txn: TransId)
    requires |ip| == 4 && port < LIMIT
    requires forall k | 0 <= k < |before| :: before[k].0 != XOR_MAPPED_ADDRESS && before[k].0 != MAPPED_ADDRESS
    requires var all := before + [(XOR_MAPPED_ADDRESS, XorAddress(ip, port))] + after;
             Fit(all) && |EncodeAttrs(all)| < LIMIT
    ensures var all := before + [(XOR_MAPPED_ADDRESS, XorAddress(ip, port))] + after;
            StunResponse(Message(BINDING_SUCCESS, all, txn)) == Some(V4(ip, port))
  {
    var all := before + [(XOR_MAPPED_ADDRESS, XorAddress(ip, port))] + after;
    MessageCarries(BINDING_SUCCESS, all, txn);
    MappedAddressIsFound(before, ip, port, after);
  }

  /** Nothing else is taken for relayed data or for a binding response. */
  lemma OnlyTheseAreRead(data: Bytes)
    ensures TurnData(data).Some? ==> |data| >= 20 && Read16(data, 0) == 0x0017 && data[4..8] == MAGIC
    ensures StunResponse(data).Some? ==> |data| >= 20 && Read16(data, 0) == 0x0101 && data[4..8] == MAGIC
  {
  }
}
