/**
 Which byte strings the STUN parser accepts, and what it reads from them: the attributes before the integrity hash, the last
 one of each type.
 */
module StunMeaning {
  import opened Bytes
  import opened Stun
  import opened StunParser

  /** An attribute at an offset of all attributes: its type, its length, and all bytes from its value on. */
  datatype Attr = Attr(off: nat, typ: nat, len: nat, rest: Bytes) {
    predicate Valid() {
      len <= |rest|
    }

    function Value(): Bytes
      requires Valid()
    {
      rest[..len]
    }
  }

  /** The attributes of a byte string, if each one is all there with its padding. */
  function AttrsFrom(off: nat, buf: Bytes): (r: Option<seq<Attr>>)
    ensures r.Some? ==> forall k | 0 <= k < |r.value| :: r.value[k].Valid()
    decreases |buf|
  {
    if |buf| == 0 then Some([])
    else if |buf| < 4 then None
    else
      var len := Read16(buf, 2);
      var next := 4 + len + Pad(len);
      if next > |buf| then None
      else
        var more := AttrsFrom(off + next, buf[next..]);
        if more.None? then None else Some([Attr(off, Read16(buf, 0), len, buf[4..])] + more.value)
  }

  // ---------- Which attributes count ----------

  /**
   Up to the first integrity hash all attributes are looked at, but for network costs of another size, and after it only
   fingerprints.
   */
  function LookedAt(attrs: seq<Attr>, ignoreRest: bool): (r: seq<Attr>)
    ensures (forall k | 0 <= k < |attrs| :: attrs[k].Valid()) ==> forall k | 0 <= k < |r| :: r[k].Valid()
    decreases |attrs|
  {
    if |attrs| == 0 then []
    else if (ignoreRest && attrs[0].typ != FINGERPRINT) || (attrs[0].typ == NETWORK_COST && attrs[0].len != 4) then
      LookedAt(attrs[1..], ignoreRest)
    else [attrs[0]] + LookedAt(attrs[1..], ignoreRest || attrs[0].typ == MESSAGE_INTEGRITY)
  }

  predicate IsText(value: Bytes, utf8: Utf8) {
    |value| <= 128 && utf8(value)
  }

  predicate IsAddress(rest: Bytes) {
    |rest| >= 8 && (rest[1] == 1 || (rest[1] == 2 && |rest| >= 20))
  }

  /** Two zero bytes, a class of 3 to 6, a number, and a reason. */
  predicate IsErrorCode(a: Attr, utf8: Utf8)
    requires a.Valid()
  {
    && a.len >= 4 && a.rest[0] == 0 && a.rest[1] == 0 && 3 <= a.rest[2] <= 6
    && IsText(a.rest[4..a.len], utf8)
  }

  /** What an attribute that is looked at has to be. */
  predicate IsProper(a: Attr, utf8: Utf8)
    requires a.Valid()
  {
    && (a.typ == USERNAME || a.typ == REALM || a.typ == NONCE || a.typ == SOFTWARE ==> IsText(a.Value(), utf8))
    && (a.typ == MESSAGE_INTEGRITY ==> a.len == 20)
    && (a.typ == ERROR_CODE ==> IsErrorCode(a, utf8))
    && (a.typ == XOR_MAPPED_ADDRESS ==> IsAddress(a.rest))
    && (a.typ == PRIORITY ==> a.len == 4)
    && (a.typ == USE_CANDIDATE ==> a.len == 0)
    && (a.typ == FINGERPRINT ==> |a.rest| >= 4)
    && (a.typ == NETWORK_COST ==> a.len == 4)
    && (a.typ == ICE_CONTROLLED || a.typ == ICE_CONTROLLING ==> a.len == 8)
  }

  predicate AllProper(attrs: seq<Attr>, utf8: Utf8) {
    forall a | a in attrs :: a.Valid() && IsProper(a, utf8)
  }

  // ---------- What is read ----------

  /** The last attribute of a type. */
  function LastOf(attrs: seq<Attr>, typ: nat): (r: Option<Attr>)
    ensures r.Some? ==> r.value in attrs && r.value.typ == typ
    ensures r.None? ==> forall a | a in attrs :: a.typ != typ
    decreases |attrs|
  {
    if |attrs| == 0 then None
    else
      var n := |attrs| - 1;
      if attrs[n].typ == typ then Some(attrs[n]) else LastOf(attrs[..n], typ)
  }

  function AddressIn(rest: Bytes, transId: TransId): SocketAddr
    requires IsAddress(rest)
  {
    var port := FromBigEndian(XorAll(rest[2..4], MAGIC));
    if rest[1] == 1 then SocketAddr.V4(XorAll(rest[4..8], MAGIC), port) else V6(XorAll(rest[4..20], MAGIC + transId), port)
  }

  function Text(a: Option<Attr>, before: Option<Bytes>): Option<Bytes>
    requires a.Some? ==> a.value.Valid()
  {
    if a.Some? then Some(a.value.Value()) else before
  }

  function Number(a: Option<Attr>, before: Option<nat>): Option<nat>
    requires a.Some? ==> a.value.Valid()
  {
    if a.Some? then Some(FromBigEndian(a.value.Value())) else before
  }

  /** The values read from attributes, where x was read before. */
  predicate Reads(x: Attributes, attrs: seq<Attr>, transId: TransId, utf8: Utf8, y: Attributes)
    requires AllProper(attrs, utf8)
  {
    && y.username == Text(LastOf(attrs, USERNAME), x.username)
    && y.realm == Text(LastOf(attrs, REALM), x.realm)
    && y.nonce == Text(LastOf(attrs, NONCE), x.nonce)
    && y.software == Text(LastOf(attrs, SOFTWARE), x.software)
    && y.messageIntegrity == Text(LastOf(attrs, MESSAGE_INTEGRITY), x.messageIntegrity)
    && y.priority == Number(LastOf(attrs, PRIORITY), x.priority)
    && y.iceControlled == Number(LastOf(attrs, ICE_CONTROLLED), x.iceControlled)
    && y.iceControlling == Number(LastOf(attrs, ICE_CONTROLLING), x.iceControlling)
    && y.useCandidate == (x.useCandidate || LastOf(attrs, USE_CANDIDATE).Some?)
    && (var a := LastOf(attrs, XOR_MAPPED_ADDRESS);
        y.xorMappedAddress == if a.Some? then Some(AddressIn(a.value.rest, transId)) else x.xorMappedAddress)
    && (var a := LastOf(attrs, FINGERPRINT);
        y.fingerprint == if a.Some? then Some(FromBigEndian(a.value.rest[..4])) else x.fingerprint)
    && (var a := LastOf(attrs, ERROR_CODE);
        y.errorCode == if a.Some? then Some(ErrorIn(a.value, utf8)) else x.errorCode)
    && (var a := LastOf(attrs, NETWORK_COST);
        y.networkCost == if a.Some? then Some((Read16(a.value.rest, 0), Read16(a.value.rest, 2))) else x.networkCost)
  }

  /** The code as the class gives the hundreds, and the reason. */
  function ErrorIn(a: Attr, utf8: Utf8): (nat, Bytes)
    requires a.Valid() && IsErrorCode(a, utf8)
  {
    var cls: nat, number: nat := a.rest[2], a.rest[3];
    (cls * 100 + number % 100, a.rest[4..a.len])
  }

  // ---------- One attribute ----------

  /** Which attribute stands at the start of buf. */
  function AttrAt(off: nat, buf: Bytes): (a: Attr)
    requires |buf| >= 4 && 4 + Read16(buf, 2) <= |buf|
    ensures a.Valid()
  {
    Attr(off, Read16(buf, 0), Read16(buf, 2), buf[4..])
  }

  lemma LookedAtOne(a: Attr, ignoreRest: bool)
    ensures LookedAt([a], ignoreRest) ==
            if (ignoreRest && a.typ != FINGERPRINT) || (a.typ == NETWORK_COST && a.len != 4) then [] else [a]
  {
  }

  lemma LastOfOne(a: Attr, typ: nat)
    ensures LastOf([a], typ) == if a.typ == typ then Some(a) else None
  {
  }

  /** An attribute is accepted if and only if it is proper or not looked at. */
  lemma StepIsOkIff(s: ParserState, off: nat, buf: Bytes, transId: TransId, utf8: Utf8)
    requires |buf| >= 4 && 4 + Read16(buf, 2) <= |buf|
    ensures AttributeStep(s, off, buf, transId, utf8).Ok? <==> AllProper(LookedAt([AttrAt(off, buf)], s.ignoreRest), utf8)
  {
    var a := AttrAt(off, buf);
    LookedAtOne(a, s.ignoreRest);
    assert a.Value() == buf[4..4 + a.len];
    if a.typ == ERROR_CODE && a.len >= 4 {
      assert a.rest[4..a.len] == buf[8..4 + a.len];
    }
    hide LookedAt, FromBigEndian, Read16;
  }

  lemma AddressReads(buf: Bytes, transId: TransId)
    requires |buf| >= 4
    ensures DecodeXor(buf[4..], transId).Ok? <==> IsAddress(buf[4..])
    ensures IsAddress(buf[4..]) ==> DecodeXor(buf[4..], transId) == Ok(AddressIn(buf[4..], transId))
  {
    hide FromBigEndian, XorAll;
  }

  lemma ErrorReads(a: Attr, buf: Bytes, utf8: Utf8)
    requires |buf| >= 4 && a.Valid() && a.rest == buf[4..]
    ensures 4 + a.len <= |buf|
    ensures DecodeErrorCode(buf, a.len, utf8).Ok? <==> IsErrorCode(a, utf8)
    ensures IsErrorCode(a, utf8) ==> DecodeErrorCode(buf, a.len, utf8) == Ok(ErrorIn(a, utf8))
  {
    if a.len >= 4 {
      assert a.rest[4..a.len] == buf[8..4 + a.len];
    }
  }

  /** And what it says is read. */
  lemma StepReads(s: ParserState, off: nat, buf: Bytes, transId: TransId, utf8: Utf8)
    requires |buf| >= 4 && 4 + Read16(buf, 2) <= |buf| && AttributeStep(s, off, buf, transId, utf8).Ok?
    ensures var a, y := AttrAt(off, buf), AttributeStep(s, off, buf, transId, utf8).value;
            && AllProper(LookedAt([a], s.ignoreRest), utf8)
            && Reads(s.attrs, LookedAt([a], s.ignoreRest), transId, utf8, y.attrs)
            && y.ignoreRest == (s.ignoreRest || a.typ == MESSAGE_INTEGRITY)
            && y.integrityOffset == if a.typ == MESSAGE_INTEGRITY && !s.ignoreRest then off else s.integrityOffset
  {
    var a := AttrAt(off, buf);
    StepIsOkIff(s, off, buf, transId, utf8);
    LookedAtOne(a, s.ignoreRest);
    assert a.Value() == buf[4..4 + a.len];
    assert |buf| >= 8 ==> buf[4..8] == a.rest[..4];
    forall typ ensures LastOf([a], typ) == if a.typ == typ then Some(a) else None {
      LastOfOne(a, typ);
    }
    forall typ ensures LastOf([], typ) == None {
    }
    hide LookedAt, FromBigEndian, LastOf, DecodeXor, DecodeErrorCode, IsAddress, IsErrorCode, AddressIn, ErrorIn;
    if a.typ == XOR_MAPPED_ADDRESS {
      AddressReads(buf, transId);
    } else if a.typ == ERROR_CODE {
      ErrorReads(a, buf, utf8);
    }
  }

  // ---------- All attributes ----------

  lemma {:induction false} LastOfConcat(a: seq<Attr>, b: seq<Attr>, typ: nat)
    ensures LastOf(a + b, typ) == if LastOf(b, typ).Some? then LastOf(b, typ) else LastOf(a, typ)
    decreases |b|
  {
    if |b| == 0 {
      assert a + b == a;
    } else {
      assert (a + b)[..|a + b| - 1] == a + b[..|b| - 1];
      LastOfConcat(a, b[..|b| - 1], typ);
    }
  }

  lemma ReadsChain(x: Attributes, a: seq<Attr>, y: Attributes, b: seq<Attr>, z: Attributes, transId: TransId, utf8: Utf8)
    requires AllProper(a, utf8) && AllProper(b, utf8)
    requires Reads(x, a, transId, utf8, y) && Reads(y, b, transId, utf8, z)
    ensures AllProper(a + b, utf8) && Reads(x, a + b, transId, utf8, z)
  {
    forall typ ensures LastOf(a + b, typ) == if LastOf(b, typ).Some? then LastOf(b, typ) else LastOf(a, typ) {
      LastOfConcat(a, b, typ);
    }
    hide LastOf, IsProper, ErrorIn, AddressIn, FromBigEndian, Read16;
  }

  lemma LookedAtNext(a: Attr, more: seq<Attr>, ignoreRest: bool)
    ensures LookedAt([a] + more, ignoreRest) ==
            LookedAt([a], ignoreRest) + LookedAt(more, ignoreRest || a.typ == MESSAGE_INTEGRITY)
  {
    assert ([a] + more)[1..] == more;
    LookedAtOne(a, ignoreRest);
  }

  /** The offset of the first integrity hash. */
  function FirstIntegrity(attrs: seq<Attr>): Option<nat>
    decreases |attrs|
  {
    if |attrs| == 0 then None
    else if attrs[0].typ == MESSAGE_INTEGRITY then Some(attrs[0].off)
    else FirstIntegrity(attrs[1..])
  }

  predicate AllAccepted(attrs: Option<seq<Attr>>, ignoreRest: bool, utf8: Utf8) {
    attrs.Some? && AllProper(LookedAt(attrs.value, ignoreRest), utf8)
  }

  lemma NothingIsRead(x: Attributes, transId: TransId, utf8: Utf8)
    ensures AllProper([], utf8) && Reads(x, [], transId, utf8, x)
  {
  }

  /** An attribute and what follows it. */
  lemma StepAndMore(s: ParserState, off: nat, buf: Bytes, transId: TransId, utf8: Utf8, next: nat, more: seq<Attr>)
    requires |buf| >= 4 && 4 + Read16(buf, 2) <= |buf| && next == 4 + Read16(buf, 2) + Pad(Read16(buf, 2)) <= |buf|
    requires AttrsFrom(off + next, buf[next..]) == Some(more)
    ensures AttrsFrom(off, buf) == Some([AttrAt(off, buf)] + more)
    ensures var a := AttrAt(off, buf);
            var ignoreRest := s.ignoreRest || a.typ == MESSAGE_INTEGRITY;
            && FirstIntegrity([a] + more) == (if a.typ == MESSAGE_INTEGRITY then Some(off) else FirstIntegrity(more))
            && LookedAt([a] + more, s.ignoreRest) == LookedAt([a], s.ignoreRest) + LookedAt(more, ignoreRest)
            && (AllAccepted(AttrsFrom(off, buf), s.ignoreRest, utf8) <==>
                AttributeStep(s, off, buf, transId, utf8).Ok? && AllProper(LookedAt(more, ignoreRest), utf8))
  {
    hide AttributeStep, IsProper, Read16, LookedAt, AllProper;
    var a := AttrAt(off, buf);
    StepIsOkIff(s, off, buf, transId, utf8);
    LookedAtNext(a, more, s.ignoreRest);
    ProperConcat(LookedAt([a], s.ignoreRest), LookedAt(more, s.ignoreRest || a.typ == MESSAGE_INTEGRITY), utf8);
    assert ([a] + more)[1..] == more;
  }

  /** An attribute is all there with its padding at the start of buf; more come after it. */
  predicate IsThere(buf: Bytes) {
    |buf| >= 4 && 4 + Read16(buf, 2) + Pad(Read16(buf, 2)) <= |buf|
  }

  function Behind(buf: Bytes): nat
    requires IsThere(buf)
  {
    4 + Read16(buf, 2) + Pad(Read16(buf, 2))
  }

  lemma WalkEnds(s: ParserState, off: nat, buf: Bytes, transId: TransId, utf8: Utf8)
    requires |buf| > 0 && !IsThere(buf)
    ensures ParseFrom(s, off, buf, transId, utf8).Err? && AttrsFrom(off, buf).None?
  {
    hide AttributeStep, Read16;
  }

  lemma WalkNothing(s: ParserState, off: nat, buf: Bytes, transId: TransId, utf8: Utf8)
    requires |buf| == 0
    ensures ParseFrom(s, off, buf, transId, utf8) == Ok(s) && AttrsFrom(off, buf) == Some([])
    ensures LookedAt([], s.ignoreRest) == [] && FirstIntegrity([]) == None
    ensures AllProper([], utf8) && Reads(s.attrs, [], transId, utf8, s.attrs)
  {
    NothingIsRead(s.attrs, transId, utf8);
  }

  lemma BehindIsLess(buf: Bytes)
    requires IsThere(buf)
    ensures 4 <= Behind(buf) <= |buf| && Behind(buf) == 4 + Read16(buf, 2) + Pad(Read16(buf, 2)) && 4 + Read16(buf, 2) <= |buf|
  {
  }

  lemma WalkGoesOn(s: ParserState, off: nat, buf: Bytes, transId: TransId, utf8: Utf8)
    requires IsThere(buf)
    ensures AttributeStep(s, off, buf, transId, utf8).Err? ==> ParseFrom(s, off, buf, transId, utf8).Err?
    ensures var step, next := AttributeStep(s, off, buf, transId, utf8), Behind(buf);
            step.Ok? ==> ParseFrom(s, off, buf, transId, utf8) == ParseFrom(step.value, off + next, buf[next..], transId, utf8)
    ensures AttrsFrom(off + Behind(buf), buf[Behind(buf)..]).None? ==> AttrsFrom(off, buf).None?
  {
    hide AttributeStep, Read16;
  }

  /** The walk over attributes succeeds if and only if they are all there and proper, and reads what they say. */
  lemma {:induction false} WalkReads(s: ParserState, off: nat, buf: Bytes, transId: TransId, utf8: Utf8)
    ensures var r, attrs := ParseFrom(s, off, buf, transId, utf8), AttrsFrom(off, buf);
            && (r.Ok? <==> AllAccepted(attrs, s.ignoreRest, utf8))
            && (r.Ok? ==>
                  && Reads(s.attrs, LookedAt(attrs.value, s.ignoreRest), transId, utf8, r.value.attrs)
                  && r.value.integrityOffset ==
                     if !s.ignoreRest && FirstIntegrity(attrs.value).Some? then FirstIntegrity(attrs.value).value
                     else s.integrityOffset)
    decreases |buf|
  {
    hide AttributeStep, Reads, AllProper, Read16, ParseFrom, AttrsFrom, LookedAt, FirstIntegrity, AttrAt, IsThere, Behind;
    if |buf| == 0 {
      WalkNothing(s, off, buf, transId, utf8);
    } else if IsThere(buf) {
      BehindIsLess(buf);
      var a, step, next := AttrAt(off, buf), AttributeStep(s, off, buf, transId, utf8), Behind(buf);
      var more := AttrsFrom(off + next, buf[next..]);
      WalkGoesOn(s, off, buf, transId, utf8);
      if more.Some? {
        StepAndMore(s, off, buf, transId, utf8, next, more.value);
      }
      if step.Ok? {
        StepReads(s, off, buf, transId, utf8);
        WalkReads(step.value, off + next, buf[next..], transId, utf8);
        var r := ParseFrom(step.value, off + next, buf[next..], transId, utf8);
        if r.Ok? {
          ReadsChain(s.attrs, LookedAt([a], s.ignoreRest), step.value.attrs,
                     LookedAt(more.value, step.value.ignoreRest), r.value.attrs, transId, utf8);
        }
      }
    } else {
      WalkEnds(s, off, buf, transId, utf8);
    }
  }

  lemma ProperConcat(a: seq<Attr>, b: seq<Attr>, utf8: Utf8)
    ensures AllProper(a + b, utf8) <==> AllProper(a, utf8) && AllProper(b, utf8)
  {
    assert forall x | x in a :: x in a + b;
    assert forall x | x in b :: x in a + b;
    hide IsProper;
  }

  // ---------- Whole messages ----------

  predicate HeaderIsProper(buf: Bytes) {
    |buf| >= 20 && |buf| % 4 == 0 && Read16(buf, 2) == |buf| - 20 && buf[4..8] == MAGIC
  }

  /** The type without its two highest bits. */
  function TypeOf(buf: Bytes): nat
    requires |buf| >= 20
  {
    Read16(buf, 0) % 0x4000
  }

  const BINDING_REQUEST := 0x0001
  const BINDING_INDICATION := 0x0011
  const BINDING_SUCCESS := 0x0101
  const BINDING_FAILURE := 0x0111

  lemma TypesAre(typ: nat)
    requires typ < 0x4000
    ensures typ == BINDING_REQUEST <==> MethodFromTyp(typ) == Binding && ClassFromTyp(typ) == Request
    ensures typ == BINDING_INDICATION <==> MethodFromTyp(typ) == Binding && ClassFromTyp(typ) == Indication
    ensures typ == BINDING_SUCCESS <==> MethodFromTyp(typ) == Binding && ClassFromTyp(typ) == Success
    ensures typ == BINDING_FAILURE <==> MethodFromTyp(typ) == Binding && ClassFromTyp(typ) == Failure
  {
  }

  /** A name with a colon and something after the first one. */
  predicate IsName(value: Bytes) {
    exists k :: 0 <= k < |value| - 1 && value[k] == 0x3A
  }

  lemma {:induction false} ColonIsThere(v: Bytes)
    ensures FindColon(v).Some? ==> FindColon(v).value < |v| && v[FindColon(v).value] == 0x3A
    ensures forall j | 0 <= j < (if FindColon(v).Some? then FindColon(v).value else |v|) :: v[j] != 0x3A
  {
    if |v| > 0 && v[0] != 0x3A {
      ColonIsThere(v[1..]);
    }
  }

  lemma NameSplitsIff(v: Bytes)
    ensures SplitUsername(Some(v)).Some? <==> IsName(v)
  {
    ColonIsThere(v);
    hide FindColon;
    var k := FindColon(v);
    if k.Some? && k.value + 1 < |v| {
      assert v[k.value] == 0x3A;
    }
  }

  /** What the type of a message asks of its attributes. */
  predicate HasWhatItNeeds(typ: nat, attrs: seq<Attr>)
    requires forall a | a in attrs :: a.Valid()
  {
    && (typ == BINDING_REQUEST ==>
          && LastOf(attrs, USERNAME).Some? && IsName(LastOf(attrs, USERNAME).value.Value())
          && LastOf(attrs, PRIORITY).Some?)
    && (typ == BINDING_SUCCESS ==> LastOf(attrs, XOR_MAPPED_ADDRESS).Some?)
  }

  /** The message says what its header and these attributes say; what its hash covers ends with the hash. */
  predicate Says(m: StunMessage, buf: Bytes, attrs: seq<Attr>, utf8: Utf8, hash: nat)
    requires |buf| >= 20 && AllProper(attrs, utf8) && hash + 20 <= |buf|
  {
    && m.transId == buf[8..20]
    && (m.stunMethod == Binding && m.stunClass == Request <==> TypeOf(buf) == BINDING_REQUEST)
    && (m.stunMethod == Binding && m.stunClass == Indication <==> TypeOf(buf) == BINDING_INDICATION)
    && (m.stunMethod == Binding && m.stunClass == Success <==> TypeOf(buf) == BINDING_SUCCESS)
    && (m.stunMethod == Binding && m.stunClass == Failure <==> TypeOf(buf) == BINDING_FAILURE)
    && Reads(NO_ATTRIBUTES, attrs, buf[8..20], utf8, m.attrs)
    && m.integrity == buf[..hash + 20] && m.integrityLen == (hash + 24) % 0x1_0000
  }

  /**
   A message: its header fits, its attributes are proper, an integrity hash comes after at least one of them, and it has
   what its type needs.
   */
  predicate IsMessage(buf: Bytes, utf8: Utf8) {
    && HeaderIsProper(buf)
    && var attrs := AttrsFrom(0, buf[20..]);
       && AllAccepted(attrs, false, utf8)
       && FirstIntegrity(attrs.value).Some? && FirstIntegrity(attrs.value).value > 0
       && HasWhatItNeeds(TypeOf(buf), LookedAt(attrs.value, false))
  }

  lemma HeaderIff(buf: Bytes)
    ensures HeaderError(buf).None? <==> HeaderIsProper(buf)
  {
  }

  /**
   For every byte string: the parser accepts it if and only if it is a message, and then gives what the message says, which
   of each type is the last attribute before the integrity hash.
   */
  lemma ParsesIff(buf: Bytes, utf8: Utf8)
    ensures ParseSpec(buf, utf8).Ok? <==> IsMessage(buf, utf8)
    ensures ParseSpec(buf, utf8).Ok? ==>
              var attrs := AttrsFrom(0, buf[20..]).value;
              FirstIntegrity(attrs).value + 20 <= |buf|
              && Says(ParseSpec(buf, utf8).value, buf, LookedAt(attrs, false), utf8, FirstIntegrity(attrs).value)
  {
    HeaderIff(buf);
    if HeaderError(buf).None? {
      WalkReads(START, 0, buf[20..], buf[8..20], utf8);
      IntegrityIsInside(START, 0, buf[20..], buf[8..20], utf8);
      var attrs := AttrsFrom(0, buf[20..]);
      var r := ParseFrom(START, 0, buf[20..], buf[8..20], utf8);
      hide ParseFrom, AttrsFrom, LookedAt, LastOf, HeaderError, MethodFromTyp, ClassFromTyp, FirstIntegrity, SplitUsername;
      if r.Ok? {
        FinishIff(buf, r.value, LookedAt(attrs.value, false), utf8);
      }
    }
  }

  lemma FinishIff(buf: Bytes, s: ParserState, attrs: seq<Attr>, utf8: Utf8)
    requires HeaderIsProper(buf) && s.integrityOffset + 20 <= |buf| && AllProper(attrs, utf8)
    requires Reads(NO_ATTRIBUTES, attrs, buf[8..20], utf8, s.attrs)
    ensures Finish(buf, s).Ok? <==> s.integrityOffset > 0 && HasWhatItNeeds(TypeOf(buf), attrs)
    ensures Finish(buf, s).Ok? ==> Says(Finish(buf, s).value, buf, attrs, utf8, s.integrityOffset)
  {
    TypesAre(TypeOf(buf));
    TypeIsMasked(buf);
    var a := LastOf(attrs, USERNAME);
    if a.Some? {
      NameSplitsIff(a.value.Value());
    }
    hide LastOf, MethodFromTyp, ClassFromTyp, SplitUsername, IsName, FromBigEndian, AddressIn, ErrorIn, IsProper;
    assert s.attrs.username.None? ==> SplitUsername(s.attrs.username).None? by {
      NoName(s.attrs.username);
    }
  }

  lemma NoName(username: Option<Bytes>)
    ensures username.None? ==> SplitUsername(username).None?
  {
  }

  lemma TypeIsMasked(buf: Bytes)
    requires |buf| >= 20
    ensures var high: nat := buf[0] % 64; TypeOf(buf) == high * 256 + buf[1]
  {
  }
}
