/**
 ICE candidates (ice/candidate.rs) and their priorities: section 5.1.2.1 of RFC 8445 for candidates, section 6.1.2.3
 for pairs.
 */
module IceCandidate {
  import opened Bytes
  import opened IcePair

  datatype Protocol = Udp | Tcp | SslTcp | Tls
  datatype Kind = Host | PeerReflexive | ServerReflexive | Relayed

  /** A socket address; the IP address is an opaque number. */
  datatype Address = Address(ip: nat, port: nat, ipv6: bool)

  const TEMP_FOUNDATION := "tmp_prflx"

  datatype Candidate = Candidate(
    foundation: Option<string>, componentId: nat, proto: Protocol, setPrio: Option<nat>, addr: Address,
    setBase: Option<Address>, kind: Kind, raddr: Option<Address>, ufrag: Option<string>,
    setLocalPreference: Option<nat>, discarded: bool)
  {
    /** What every constructor of a candidate ensures. */
    predicate Valid() {
      && (setPrio.None? ==> componentId == 1)
      && (setLocalPreference.Some? ==> setLocalPreference.value < 0x1_0000)
    }

    function Base(): Address {
      if setBase.Some? then setBase.value else addr
    }

    function LocalPreference(): nat {
      if setLocalPreference.Some? then setLocalPreference.value else if addr.ipv6 then 65_535 else 65_534
    }

    function TypePreference(k: Kind): nat {
      match (k, proto)
      case (Host, Udp) => 126
      case (PeerReflexive, Udp) => 110
      case (ServerReflexive, _) => 100
      case (Host, _) => 90
      case (PeerReflexive, _) => 80
      case (Relayed, Udp) => 2
      case (Relayed, Tcp) => 1
      case (Relayed, _) => 0
    }

    /** (type preference) << 24 | (local preference) << 8 | (256 - component id); a priority that is set stays. */
    function DoPrio(asPeerReflexive: bool): nat
      requires Valid()
    {
      if setPrio.Some? then setPrio.value
      else
        TypePreference(if asPeerReflexive then PeerReflexive else kind) * 0x100_0000
        + LocalPreference() * 0x100 + (256 - componentId)
    }

    function Prio(): nat
      requires Valid()
    {
      DoPrio(false)
    }

    function IsTempPeerReflexive(at: Address): bool {
      foundation == Some(TEMP_FOUNDATION) && kind == PeerReflexive && addr == at
    }
  }

  function PeerReflexiveCandidate(proto: Protocol, addr: Address, base: Address, prio: nat,
                                  foundation: Option<string>, ufrag: string): (c: Candidate)
    ensures c.Valid() && !c.discarded && c.Base() == base && c.Prio() == prio
  {
    Candidate(foundation, 1, proto, Some(prio), addr, Some(base), PeerReflexive, None, Some(ufrag), None, false)
  }

  // ---------- Priority arithmetic ----------

  /** A computed priority is between 1 and 2^31 - 1, so the assertion in the source holds. */
  lemma PrioInRange(c: Candidate, asPeerReflexive: bool)
    requires c.Valid() && c.setPrio.None?
    ensures 1 <= c.DoPrio(asPeerReflexive) < 0x8000_0000
  {
  }

  /** The three parts of a computed priority can be read back, so distinct local preferences give distinct priorities. */
  lemma PrioParts(c: Candidate)
    requires c.Valid() && c.setPrio.None?
    ensures c.Prio() / 0x100_0000 == c.TypePreference(c.kind)
    ensures c.Prio() / 0x100 % 0x1_0000 == c.LocalPreference()
  {
    var t, l := c.TypePreference(c.kind), c.LocalPreference();
    assert c.Prio() == t * 0x100_0000 + l * 0x100 + 255;
    assert c.Prio() / 0x100 == t * 0x1_0000 + l;
  }

  /** How kinds are preferred, the best one first. */
  function Rank(k: Kind): nat {
    match k
    case Host => 0
    case PeerReflexive => 1
    case ServerReflexive => 2
    case Relayed => 3
  }

  /** Between candidates over UDP the kind decides, whatever their local preferences; and the same kind over UDP is no worse. */
  lemma KindDecides(c: Candidate, d: Candidate)
    requires c.Valid() && d.Valid() && c.setPrio.None? && d.setPrio.None? && c.proto == Udp
    ensures d.proto == Udp && Rank(c.kind) < Rank(d.kind) ==> c.Prio() > d.Prio()
    ensures c.kind == d.kind && c.kind != ServerReflexive && d.proto != Udp ==> c.Prio() > d.Prio()
  {
  }

  /** Type preferences are those that section 5.1.2.2 of RFC 8445 recommends, but for relayed candidates, which it gives 0. */
  lemma RecommendedPreferences(c: Candidate)
    requires c.proto == Udp
    ensures c.TypePreference(Host) == 126 && c.TypePreference(PeerReflexive) == 110 && c.TypePreference(ServerReflexive) == 100
    ensures c.TypePreference(Relayed) == 2
  {
  }

  /** A candidate that was not adopted has the preference of the first host candidate of its family. */
  lemma DefaultPreference(c: Candidate)
    requires c.setLocalPreference.None?
    ensures c.LocalPreference() == NextLocalPreference([], Host, c.addr.ipv6)
  {
  }

  /** Both agents compute the same priority for a pair. */
  lemma PairPrioIsSymmetric(controlling: bool, mine: nat, theirs: nat)
    ensures CalculatePrio(controlling, theirs, mine) == CalculatePrio(!controlling, mine, theirs)
  {
  }

  /** G and D in order, and which is larger. */
  function Order(g: nat, d: nat): (nat, nat, nat) {
    (if g < d then g else d, if g < d then d else g, if g > d then 1 else 0)
  }

  predicate Below(a: (nat, nat, nat), b: (nat, nat, nat)) {
    a.0 < b.0 || (a.0 == b.0 && (a.1 < b.1 || (a.1 == b.1 && a.2 < b.2)))
  }

  /**
   For candidate priorities below 2^31, the pair priority fits in 64 bits and orders pairs by the smaller candidate
   priority, then by the larger, then by which agent has the larger.
   */
  lemma PairPrioIsLexicographic(g: nat, d: nat, g': nat, d': nat)
    requires g < 0x8000_0000 && d < 0x8000_0000 && g' < 0x8000_0000 && d' < 0x8000_0000
    ensures CalculatePrio(true, d, g) < 0x1_0000_0000_0000_0000
    ensures CalculatePrio(true, d, g) < CalculatePrio(true, d', g') <==> Below(Order(g, d), Order(g', d'))
    ensures CalculatePrio(true, d, g) == CalculatePrio(true, d', g') <==> g == g' && d == d'
  {
    var (lo, hi, bit) := Order(g, d);
    var (lo', hi', bit') := Order(g', d');
    assert CalculatePrio(true, d, g) == 0x1_0000_0000 * lo + 2 * hi + bit;
    assert CalculatePrio(true, d', g') == 0x1_0000_0000 * lo' + 2 * hi' + bit';
    assert lo < lo' ==> 0x1_0000_0000 * lo + 0x1_0000_0000 <= 0x1_0000_0000 * lo';
    assert lo' < lo ==> 0x1_0000_0000 * lo' + 0x1_0000_0000 <= 0x1_0000_0000 * lo;
  }

  // ---------- Local preferences ----------

  function CounterStart(kind: Kind, ipv6: bool): nat {
    (match kind
     case Host => 65_535
     case PeerReflexive => 49_151
     case ServerReflexive => 32_767
     case Relayed => 16_383) - if ipv6 then 0 else 1
  }

  /** How many of the candidates have this kind and address family. */
  function SameKind(cs: seq<Candidate>, kind: Kind, ipv6: bool): (n: nat)
    ensures n <= |cs|
  {
    if cs == [] then 0
    else
      var last := cs[|cs| - 1];
      SameKind(cs[..|cs| - 1], kind, ipv6) + if last.kind == kind && last.addr.ipv6 == ipv6 then 1 else 0
  }

  /** The local preference for one more candidate; the Rust code stops when it would drop below zero. */
  function NextLocalPreference(cs: seq<Candidate>, kind: Kind, ipv6: bool): nat
    requires SameKind(cs, kind, ipv6) * 2 <= CounterStart(kind, ipv6)
  {
    CounterStart(kind, ipv6) - SameKind(cs, kind, ipv6) * 2
  }

  lemma {:induction false} SameKindGrows(cs: seq<Candidate>, i: nat, j: nat, kind: Kind, ipv6: bool)
    requires i <= j <= |cs|
    ensures SameKind(cs[..i], kind, ipv6) <= SameKind(cs[..j], kind, ipv6)
    ensures i < j && cs[i].kind == kind && cs[i].addr.ipv6 == ipv6 ==>
              SameKind(cs[..i], kind, ipv6) < SameKind(cs[..j], kind, ipv6)
    decreases j - i
  {
    if i < j {
      SameKindGrows(cs, i, j - 1, kind, ipv6);
      assert cs[..j][..j - 1] == cs[..j - 1];
    }
  }

  /** The candidate at i has the preference it was given when it was added. */
  predicate Assigned(cs: seq<Candidate>, i: nat)
    requires i < |cs|
  {
    && SameKind(cs[..i], cs[i].kind, cs[i].addr.ipv6) * 2 <= CounterStart(cs[i].kind, cs[i].addr.ipv6)
    && cs[i].setLocalPreference == Some(NextLocalPreference(cs[..i], cs[i].kind, cs[i].addr.ipv6))
  }

  /** The candidate at i is one of the first 8192 of its kind and address family. */
  predicate AmongFirst(cs: seq<Candidate>, i: nat)
    requires i < |cs|
  {
    SameKind(cs[..i], cs[i].kind, cs[i].addr.ipv6) < 8192
  }

  /** Preferences that were assigned are distinct, across all kinds and both address families. */
  lemma AssignedPreferencesAreDistinct(cs: seq<Candidate>, i: nat, j: nat)
    requires i < j < |cs| && Assigned(cs, i) && Assigned(cs, j) && AmongFirst(cs, i) && AmongFirst(cs, j)
    ensures cs[i].setLocalPreference != cs[j].setLocalPreference
  {
    if cs[i].kind == cs[j].kind && cs[i].addr.ipv6 == cs[j].addr.ipv6 {
      SameKindGrows(cs, i, j, cs[i].kind, cs[i].addr.ipv6);
    }
  }

  /** And so are the priorities computed from them. */
  lemma AssignedPrioritiesAreDistinct(cs: seq<Candidate>, i: nat, j: nat)
    requires i < j < |cs| && Assigned(cs, i) && Assigned(cs, j) && AmongFirst(cs, i) && AmongFirst(cs, j)
    requires cs[i].Valid() && cs[j].Valid() && cs[i].setPrio.None? && cs[j].setPrio.None?
    ensures cs[i].Prio() != cs[j].Prio()
    ensures 1 <= cs[i].Prio() < 0x8000_0000 && 1 <= cs[j].Prio() < 0x8000_0000
  {
    AssignedPreferencesAreDistinct(cs, i, j);
    PrioParts(cs[i]);
    PrioParts(cs[j]);
  }
}
