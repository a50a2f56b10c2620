/**
 Data channels of channel.rs: channel ids, the SCTP stream ids that are allocated to them, and the opening of
 confirmed channels.
 */
module StreamIds {
  import opened Bytes
  import opened Sets

  datatype Config = Config(name: string, negotiated: Option<nat>)

  /** The stream id may only be known once SCTP is up; the config is there from its confirmation to the opening. */
  datatype Allocation = Allocation(id: nat, stream: Option<nat>, config: Option<Config>)

  // ---------- The operations on the list ----------

  function FindStream(allocs: seq<Allocation>, stream: nat): (r: Option<nat>)
    ensures r.Some? ==> r.value < |allocs| && allocs[r.value].stream == Some(stream)
    ensures r.None? ==> forall k | 0 <= k < |allocs| :: allocs[k].stream != Some(stream)
  {
    if allocs == [] then None
    else if allocs[0].stream == Some(stream) then Some(0)
    else
      var r := FindStream(allocs[1..], stream);
      if r.None? then None else Some(r.value + 1)
  }

  function FindId(allocs: seq<Allocation>, id: nat): (r: Option<nat>)
    ensures r.Some? ==> r.value < |allocs| && allocs[r.value].id == id
    ensures r.None? ==> forall k | 0 <= k < |allocs| :: allocs[k].id != id
  {
    if allocs == [] then None
    else if allocs[0].id == id then Some(0)
    else
      var r := FindId(allocs[1..], id);
      if r.None? then None else Some(r.value + 1)
  }

  function ChannelIdByStreamId(allocs: seq<Allocation>, stream: nat): Option<nat> {
    var k := FindStream(allocs, stream);
    if k.None? then None else Some(allocs[k.value].id)
  }

  function StreamIdByChannelId(allocs: seq<Allocation>, id: nat): Option<nat> {
    var k := FindId(allocs, id);
    if k.None? then None else allocs[k.value].stream
  }

  function Taken(allocs: seq<Allocation>): set<nat> {
    set k | 0 <= k < |allocs| && allocs[k].stream.Some? :: allocs[k].stream.value
  }

  /** The first number from p on, in steps of two, that is not taken. */
  function LeastFree(taken: set<nat>, p: nat): (r: nat)
    ensures p <= r <= p + 2 * |taken| && r % 2 == p % 2 && r !in taken
    ensures forall q | p <= q < r && q % 2 == p % 2 :: q in taken
    decreases |taken|
  {
    if p !in taken then p
    else
      var r := LeastFree(taken - {p}, p + 2);
      assert forall q | p <= q < r && q % 2 == p % 2 :: q in taken by {
        forall q | p <= q < r && q % 2 == p % 2 ensures q in taken {
          assert q == p || q in taken - {p};
        }
      }
      r
  }

  /** Gives every channel that has no stream id the least free one of the base's parity, one after the other. */
  function Allocate(allocs: seq<Allocation>, taken: set<nat>, base: nat): (r: seq<Allocation>)
    ensures |r| == |allocs|
    ensures forall k | 0 <= k < |r| ::
              && r[k].stream.Some? && r[k] == allocs[k].(stream := r[k].stream)
              && (allocs[k].stream.Some? ==> r[k] == allocs[k])
  {
    if allocs == [] then []
    else if allocs[0].stream.Some? then [allocs[0]] + Allocate(allocs[1..], taken, base)
    else
      var p := LeastFree(taken, base);
      [allocs[0].(stream := Some(p))] + Allocate(allocs[1..], taken + {p}, base)
  }

  /** The streams to open, for the channels whose stream id is known. */
  function ToOpen(allocs: seq<Allocation>): seq<(nat, Config)> {
    if allocs == [] then []
    else
      var n := |allocs| - 1;
      ToOpen(allocs[..n]) +
      if allocs[n].config.Some? && allocs[n].stream.Some? then [(allocs[n].stream.value, allocs[n].config.value)] else []
  }

  /** No config is kept, whether its stream could be opened or not. */
  function WithoutConfigs(allocs: seq<Allocation>): (r: seq<Allocation>)
    ensures |r| == |allocs| && forall k | 0 <= k < |r| :: r[k] == allocs[k].(config := None)
  {
    seq(|allocs|, k requires 0 <= k < |allocs| => allocs[k].(config := None))
  }

  /** All channels but one (the standard library's retain). */
  function Without(allocs: seq<Allocation>, id: nat): seq<Allocation> {
    if allocs == [] then []
    else
      var n := |allocs| - 1;
      Without(allocs[..n], id) + if allocs[n].id != id then [allocs[n]] else []
  }

  // ---------- The objects ----------

  /** What the channels need of the SCTP association. */
  class Sctp {
    const isClient: bool
    var inited: bool
    var streams: seq<(nat, Config)>

    constructor (isClient: bool)
      ensures this.isClient == isClient && !inited && streams == []
    {
      this.isClient, inited, streams := isClient, false, [];
    }

    method OpenStream(stream: nat, config: Config)
      modifies this`streams
      ensures streams == old(streams) + [(stream, config)]
    {
      streams := streams + [(stream, config)];
    }
  }

  class ChannelHandler {
    var allocations: seq<Allocation>
    var nextChannelId: nat

    constructor ()
      ensures allocations == [] && nextChannelId == 0
    {
      allocations, nextChannelId := [], 0;
    }

    /** The Rust code panics when a negotiated stream id is in use. */
    method NewChannel(config: Config) returns (id: nat)
      requires config.negotiated.Some? ==> FindStream(allocations, config.negotiated.value).None?
      modifies this
      ensures id == old(nextChannelId) && nextChannelId == id + 1
      ensures allocations == old(allocations) + [Allocation(id, config.negotiated, None)]
    {
      id := nextChannelId;
      nextChannelId := nextChannelId + 1;
      allocations := allocations + [Allocation(id, config.negotiated, None)];
    }

    /** The Rust code panics on an id that it has not issued, or whose channel was removed. */
    method Confirm(id: nat, config: Config)
      requires FindId(allocations, id).Some?
      modifies this`allocations
      ensures var k := FindId(old(allocations), id).value;
              allocations == old(allocations)[k := old(allocations)[k].(config := Some(config))]
    {
      var k := FindId(allocations, id).value;
      allocations := allocations[k := allocations[k].(config := Some(config))];
    }

    method NextFree(taken: set<nat>, base: nat) returns (proposed: nat)
      ensures proposed == LeastFree(taken, base)
    {
      proposed := base;
      ghost var rest := taken;
      while proposed in taken
        invariant LeastFree(rest, proposed) == LeastFree(taken, base)
        invariant forall q | q >= proposed :: q in rest <==> q in taken
        decreases |rest|
      {
        rest := rest - {proposed};
        proposed := proposed + 2;
      }
    }

    method DoAllocations(isClient: bool)
      modifies this`allocations
      ensures allocations == Allocate(old(allocations), Taken(old(allocations)), if isClient then 0 else 1)
    {
      var need := exists k :: 0 <= k < |allocations| && allocations[k].stream.None?;
      if need {
        AllocateMissing(if isClient then 0 else 1, Taken(allocations));
      } else {
        AllocateNothing(allocations, Taken(allocations), if isClient then 0 else 1);
      }
    }

    method AllocateMissing(base: nat, inUse: set<nat>)
      modifies this`allocations
      ensures allocations == Allocate(old(allocations), inUse, base)
    {
      hide Allocate, LeastFree;
      var taken := inUse;
      ghost var before, all := allocations, Allocate(allocations, taken, base);
      assert before[0..] == before && all[0..] == all;
      var i := 0;
      while i < |allocations|
        invariant 0 <= i <= |allocations| == |before|
        invariant forall k | 0 <= k < i :: allocations[k] == all[k]
        invariant forall k | i <= k < |allocations| :: allocations[k] == before[k]
        invariant Allocate(before[i..], taken, base) == all[i..]
      {
        AllocateNext(before, i, taken, base, all);
        var a := allocations[i];
        if a.stream.None? {
          var proposed := NextFree(taken, base);
          a := a.(stream := Some(proposed));
          taken := taken + {proposed};
        }
        allocations := allocations[i := a];
        i := i + 1;
      }
    }

    method OpenChannels(sctp: Sctp)
      modifies this`allocations, sctp`streams
      ensures allocations == WithoutConfigs(old(allocations))
      ensures sctp.streams == old(sctp.streams) + ToOpen(old(allocations))
    {
      ghost var all := allocations;
      var i := 0;
      while i < |allocations|
        invariant 0 <= i <= |allocations| == |all|
        invariant forall k | 0 <= k < i :: allocations[k] == all[k].(config := None)
        invariant forall k | i <= k < |allocations| :: allocations[k] == all[k]
        invariant sctp.streams == old(sctp.streams) + ToOpen(all[..i])
      {
        assert all[..i + 1][..i] == all[..i];
        var a := allocations[i];
        allocations := allocations[i := a.(config := None)];
        if a.config.Some? && a.stream.Some? {
          sctp.OpenStream(a.stream.value, a.config.value);
        }
        i := i + 1;
      }
      assert all[..i] == all;
    }

    method HandleTimeout(sctp: Sctp)
      modifies this`allocations, sctp`streams
      ensures !sctp.inited ==> allocations == old(allocations) && sctp.streams == old(sctp.streams)
      ensures sctp.inited ==>
                var all := Allocate(old(allocations), Taken(old(allocations)), if sctp.isClient then 0 else 1);
                allocations == WithoutConfigs(all) && sctp.streams == old(sctp.streams) + ToOpen(all)
    {
      if !sctp.inited {
        return;
      }
      DoAllocations(sctp.isClient);
      OpenChannels(sctp);
    }

    method EnsureChannelIdFor(stream: nat)
      modifies this
      ensures allocations == old(allocations) + if FindStream(old(allocations), stream).Some? then []
                                                else [Allocation(old(nextChannelId), Some(stream), None)]
      ensures nextChannelId == old(nextChannelId) + if FindStream(old(allocations), stream).Some? then 0 else 1
    {
      if FindStream(allocations, stream).None? {
        allocations := allocations + [Allocation(nextChannelId, Some(stream), None)];
        nextChannelId := nextChannelId + 1;
      }
    }

    method RemoveChannel(id: nat)
      modifies this`allocations
      ensures allocations == Without(old(allocations), id)
    {
      allocations := Without(allocations, id);
    }
  }

  lemma {:induction false} AllocateNothing(allocs: seq<Allocation>, taken: set<nat>, base: nat)
    requires forall k | 0 <= k < |allocs| :: allocs[k].stream.Some?
    ensures Allocate(allocs, taken, base) == allocs
  {
    assert forall k | 0 <= k < |allocs| :: Allocate(allocs, taken, base)[k] == allocs[k];
  }

  lemma AllocateNext(allocs: seq<Allocation>, i: nat, taken: set<nat>, base: nat, all: seq<Allocation>)
    requires i < |allocs| == |all| && Allocate(allocs[i..], taken, base) == all[i..]
    ensures var a, p := allocs[i], LeastFree(taken, base);
            && all[i] == (if a.stream.Some? then a else a.(stream := Some(p)))
            && Allocate(allocs[i + 1..], if a.stream.Some? then taken else taken + {p}, base) == all[i + 1..]
  {
    assert allocs[i..][1..] == allocs[i + 1..];
    assert all[i..][1..] == all[i + 1..];
  }

  // ---------- What is allocated ----------

  /** No two channels have one stream. */
  predicate DistinctStreams(allocs: seq<Allocation>) {
    forall i, j | 0 <= i < j < |allocs| && allocs[i].stream.Some? :: allocs[i].stream != allocs[j].stream
  }

  /** Ids are issued in increasing order. */
  predicate IdsIncrease(allocs: seq<Allocation>, next: nat) {
    && (forall i, j | 0 <= i < j < |allocs| :: allocs[i].id < allocs[j].id)
    && (forall k | 0 <= k < |allocs| :: allocs[k].id < next)
  }

  /** Streams that were free get at most one channel; those in use before stay with theirs. */
  lemma {:induction false} AllocateKeepsDistinct(allocs: seq<Allocation>, taken: set<nat>, base: nat)
    requires DistinctStreams(allocs)
    requires Taken(allocs) <= taken
    ensures var r := Allocate(allocs, taken, base);
            && DistinctStreams(r)
            && forall k | 0 <= k < |r| && allocs[k].stream.None? :: r[k].stream.value !in taken
  {
    if |allocs| > 0 {
      var rest, first := allocs[1..], allocs[0];
      assert forall k | 0 <= k < |rest| :: rest[k] == allocs[k + 1];
      var p := LeastFree(taken, base);
      var t := if first.stream.Some? then taken else taken + {p};
      TakenNext(allocs);
      AllocateKeepsDistinct(rest, t, base);
      var r := Allocate(rest, t, base);
      assert Allocate(allocs, taken, base) == [if first.stream.Some? then first else first.(stream := Some(p))] + r;
      hide Allocate, Taken;
      forall k | 0 <= k < |r| ensures r[k].stream != (if first.stream.Some? then first.stream else Some(p)) {
        if rest[k].stream.Some? {
          assert r[k] == rest[k] == allocs[k + 1];
        }
      }
    }
  }

  lemma TakenNext(allocs: seq<Allocation>)
    requires |allocs| > 0
    ensures Taken(allocs[1..]) <= Taken(allocs)
    ensures forall k | 0 <= k < |allocs| && allocs[k].stream.Some? :: allocs[k].stream.value in Taken(allocs)
  {
    assert forall k | 0 <= k < |allocs| - 1 :: allocs[1..][k] == allocs[k + 1];
  }

  /** The ids that go to the channels after the first one. */
  lemma AllocateTail(allocs: seq<Allocation>, taken: set<nat>, base: nat)
    requires allocs != []
    ensures var r := Allocate(allocs, taken, base);
            var t := if allocs[0].stream.Some? then taken else taken + {r[0].stream.value};
            r[1..] == Allocate(allocs[1..], t, base)
  {
    assert Allocate(allocs, taken, base)[1..] == Allocate(allocs[1..],
      if allocs[0].stream.Some? then taken else taken + {LeastFree(taken, base)}, base);
  }

  lemma {:induction false} NewIdParity(allocs: seq<Allocation>, taken: set<nat>, base: nat, k: nat)
    requires k < |allocs| && allocs[k].stream.None?
    ensures var p := Allocate(allocs, taken, base)[k].stream.value;
            p % 2 == base % 2 && base <= p
    decreases k
  {
    if k > 0 {
      AllocateTail(allocs, taken, base);
      var r := Allocate(allocs, taken, base);
      hide Allocate, LeastFree;
      NewIdParity(allocs[1..], if allocs[0].stream.Some? then taken else taken + {r[0].stream.value}, base, k - 1);
      assert r[1..][k - 1] == r[k];
    }
  }

  lemma {:induction false} SmallerIsUsed(allocs: seq<Allocation>, taken: set<nat>, base: nat, k: nat, q: nat)
    requires k < |allocs| && allocs[k].stream.None?
    requires base <= q < Allocate(allocs, taken, base)[k].stream.value && q % 2 == base % 2
    ensures q in taken || exists j :: 0 <= j < k && Allocate(allocs, taken, base)[j].stream == Some(q)
    decreases k
  {
    if k > 0 {
      AllocateTail(allocs, taken, base);
      var r := Allocate(allocs, taken, base);
      hide Allocate, LeastFree;
      var t := if allocs[0].stream.Some? then taken else taken + {r[0].stream.value};
      assert r[1..][k - 1] == r[k];
      SmallerIsUsed(allocs[1..], t, base, k - 1, q);
      if q !in t {
        var j :| 0 <= j < k - 1 && r[1..][j].stream == Some(q);
        assert r[j + 1].stream == Some(q);
      }
    }
  }

  /** A new stream id has the role's parity, and all smaller ones of that parity are in use by channels before. */
  lemma NewIdIsLeast(allocs: seq<Allocation>, taken: set<nat>, base: nat, k: nat)
    requires k < |allocs| && allocs[k].stream.None?
    ensures var r := Allocate(allocs, taken, base);
            var p := r[k].stream.value;
            && p % 2 == base % 2 && base <= p
            && (forall q | base <= q < p && q % 2 == base % 2 ::
                  q in taken || exists j :: 0 <= j < k && r[j].stream == Some(q))
  {
    NewIdParity(allocs, taken, base, k);
    hide Allocate, LeastFree;
    forall q | base <= q < Allocate(allocs, taken, base)[k].stream.value && q % 2 == base % 2
      ensures q in taken || exists j :: 0 <= j < k && Allocate(allocs, taken, base)[j].stream == Some(q)
    {
      SmallerIsUsed(allocs, taken, base, k, q);
    }
  }

  /** It is at most as large as it is when everything in use is in its way. */
  lemma {:induction false} NewIdIsSmall(allocs: seq<Allocation>, taken: set<nat>, base: nat, k: nat)
    requires k < |allocs| && allocs[k].stream.None?
    ensures var r := Allocate(allocs, taken, base);
            r[k].stream.value <= base + 2 * |taken + Taken(r[..k])|
    decreases k
  {
    var r := Allocate(allocs, taken, base);
    hide LeastFree;
    if k > 0 {
      var t := if allocs[0].stream.Some? then taken else taken + {LeastFree(taken, base)};
      NewIdIsSmall(allocs[1..], t, base, k - 1);
      var rest := Allocate(allocs[1..], t, base);
      assert r == [r[0]] + rest;
      hide Allocate;
      TakenBefore(r[0], rest, k);
      hide Taken;
      SubsetIsSmaller(t + Taken(rest[..k - 1]), taken + Taken(r[..k]));
    } else {
      SubsetIsSmaller(taken, taken + Taken(r[..k]));
      LeastFreeIsSmall(taken, base);
    }
  }

  lemma TakenBefore(a: Allocation, rest: seq<Allocation>, k: nat)
    requires 0 < k <= |rest| + 1
    ensures var r := [a] + rest;
            Taken(rest[..k - 1]) <= Taken(r[..k]) && (a.stream.Some? ==> a.stream.value in Taken(r[..k]))
  {
    var r := [a] + rest;
    assert r[..k] == [a] + rest[..k - 1];
    TakenIn(rest[..k - 1], r[..k]);
    assert r[..k][0] == a;
  }

  lemma LeastFreeIsSmall(taken: set<nat>, p: nat)
    ensures LeastFree(taken, p) <= p + 2 * |taken|
  {
  }

  lemma TakenIn(a: seq<Allocation>, b: seq<Allocation>)
    requires forall j | 0 <= j < |a| && a[j].stream.Some? :: a[j] in b
    ensures Taken(a) <= Taken(b)
  {
    forall x | x in Taken(a) ensures x in Taken(b) {
      var j :| 0 <= j < |a| && a[j].stream == Some(x);
      var m :| 0 <= m < |b| && b[m] == a[j];
    }
  }

  lemma {:induction false} TakenIsSmall(allocs: seq<Allocation>)
    ensures |Taken(allocs)| <= |allocs|
  {
    if allocs != [] {
      var n := |allocs| - 1;
      var before := allocs[..n];
      TakenIsSmall(before);
      assert forall k | 0 <= k < n :: before[k] == allocs[k];
      var last := if allocs[n].stream.Some? then {allocs[n].stream.value} else {};
      assert Taken(allocs) == Taken(before) + last by {
        forall x | x in Taken(before) ensures x in Taken(allocs) {
          var k :| 0 <= k < n && before[k].stream == Some(x);
          assert allocs[k].stream == Some(x);
        }
        forall x | x in Taken(allocs) ensures x in Taken(before) + last {
          var k :| 0 <= k < |allocs| && allocs[k].stream == Some(x);
          assert k < n ==> before[k].stream == Some(x);
        }
      }
    }
  }

  /** With fewer than 32767 channels, stream ids that are allocated fit 16 bits, and spare the reserved 65535. */
  lemma AllocatedIdsFit(allocs: seq<Allocation>, isClient: bool, k: nat)
    requires |allocs| < 32767 && k < |allocs| && allocs[k].stream.None?
    ensures Allocate(allocs, Taken(allocs), if isClient then 0 else 1)[k].stream.value < 65535
  {
    var base := if isClient then 0 else 1;
    var r := Allocate(allocs, Taken(allocs), base);
    NewIdIsSmall(allocs, Taken(allocs), base, k);
    var others := r[..k] + r[k + 1..];
    assert forall j | 0 <= j < |allocs| && allocs[j].stream.Some? :: allocs[j] == r[j] && j != k;
    hide Allocate, Taken;
    OthersHave(r, k);
    TakenIn(allocs, others);
    TakenIn(r[..k], others);
    SubsetIsSmaller(Taken(allocs) + Taken(r[..k]), Taken(others));
    TakenIsSmall(others);
  }

  lemma OthersHave(s: seq<Allocation>, k: nat)
    requires k < |s|
    ensures forall j | 0 <= j < |s| && j != k :: s[j] in s[..k] + s[k + 1..]
  {
    forall j | 0 <= j < |s| && j != k ensures s[j] in s[..k] + s[k + 1..] {
      assert (s[..k] + s[k + 1..])[if j < k then j else j - 1] == s[j];
    }
  }

  // ---------- Runs ----------

  /** A stream that was opened, and the channel it was opened for. */
  datatype Opening = Opening(id: nat, stream: nat, config: Config)

  /** The channels, with all that was confirmed, opened, and given up before it was opened. */
  datatype System = System(
    allocs: seq<Allocation>, next: nat, log: seq<Opening>, confirmed: multiset<(nat, Config)>,
    dropped: multiset<(nat, Config)>)

  const START := System([], 0, [], multiset{}, multiset{})

  datatype Step =
    | New(config: Config) | Confirm(id: nat, config: Config) | Timeout(isClient: bool) | Ensure(stream: nat)
    | Remove(id: nat)

  predicate Legal(s: System, step: Step) {
    match step
    case New(config) => config.negotiated.Some? ==> FindStream(s.allocs, config.negotiated.value).None?
    case Confirm(id, _) => FindId(s.allocs, id).Some?
    case _ => true
  }

  function Openings(allocs: seq<Allocation>): seq<Opening> {
    if allocs == [] then []
    else
      var n := |allocs| - 1;
      var a := allocs[n];
      Openings(allocs[..n]) +
      if a.config.Some? && a.stream.Some? then [Opening(a.id, a.stream.value, a.config.value)] else []
  }

  /** The openings in the log are what SCTP is asked to open. */
  lemma {:induction false} OpeningsAreToOpen(allocs: seq<Allocation>)
    ensures |ToOpen(allocs)| == |Openings(allocs)|
    ensures forall k | 0 <= k < |ToOpen(allocs)| ::
              ToOpen(allocs)[k] == (Openings(allocs)[k].stream, Openings(allocs)[k].config)
  {
    if allocs != [] {
      OpeningsAreToOpen(allocs[..|allocs| - 1]);
    }
  }

  function Pending(allocs: seq<Allocation>): multiset<(nat, Config)> {
    if allocs == [] then multiset{}
    else
      var n := |allocs| - 1;
      Pending(allocs[..n]) + PendingOf(allocs[n])
  }

  function PendingOf(a: Allocation): multiset<(nat, Config)> {
    if a.config.Some? then multiset{(a.id, a.config.value)} else multiset{}
  }

  function OpenedConfigs(log: seq<Opening>): multiset<(nat, Config)> {
    if log == [] then multiset{}
    else
      var n := |log| - 1;
      OpenedConfigs(log[..n]) + multiset{(log[n].id, log[n].config)}
  }

  /** A step; a timeout is one with SCTP initialized, since it does nothing before. */
  function Next(s: System, step: Step): System
    requires Legal(s, step)
  {
    match step
    case New(config) =>
      s.(allocs := s.allocs + [Allocation(s.next, config.negotiated, None)], next := s.next + 1)
    case Confirm(id, config) =>
      var k := FindId(s.allocs, id).value;
      s.(allocs := s.allocs[k := s.allocs[k].(config := Some(config))],
         confirmed := s.confirmed + multiset{(id, config)}, dropped := s.dropped + PendingOf(s.allocs[k]))
    case Timeout(isClient) =>
      var all := Allocate(s.allocs, Taken(s.allocs), if isClient then 0 else 1);
      s.(allocs := WithoutConfigs(all), log := s.log + Openings(all))
    case Ensure(stream) =>
      if FindStream(s.allocs, stream).Some? then s
      else s.(allocs := s.allocs + [Allocation(s.next, Some(stream), None)], next := s.next + 1)
    case Remove(id) =>
      var k := FindId(s.allocs, id);
      s.(allocs := Without(s.allocs, id),
         dropped := s.dropped + if k.Some? then PendingOf(s.allocs[k.value]) else multiset{})
  }

  /** Every stream that was opened is still that of its channel, as long as the channel is there. */
  predicate LogMatches(allocs: seq<Allocation>, log: seq<Opening>) {
    forall o, a | o in log && a in allocs && a.id == o.id :: a.stream == Some(o.stream)
  }

  predicate LogBelow(log: seq<Opening>, next: nat) {
    forall o | o in log :: o.id < next
  }

  /** No config that was confirmed is lost or opened twice. */
  predicate Conserved(s: System) {
    s.confirmed == OpenedConfigs(s.log) + Pending(s.allocs) + s.dropped
  }

  predicate Inv(s: System) {
    && IdsIncrease(s.allocs, s.next) && DistinctStreams(s.allocs)
    && LogMatches(s.allocs, s.log) && LogBelow(s.log, s.next) && Conserved(s)
  }

  lemma PendingOfOneMore(allocs: seq<Allocation>, a: Allocation)
    ensures Pending(allocs + [a]) == Pending(allocs) + PendingOf(a)
  {
    assert (allocs + [a])[..|allocs|] == allocs;
  }

  lemma AddToBoth(a: multiset<(nat, Config)>, b: multiset<(nat, Config)>, c: multiset<(nat, Config)>,
                  d: multiset<(nat, Config)>, x: multiset<(nat, Config)>)
    requires a + b == c + d
    ensures a + x + b == c + x + d
  {
    assert a + x + b == a + b + x;
    assert c + x + d == c + d + x;
  }

  lemma {:induction false} PendingAfterConfirm(allocs: seq<Allocation>, k: nat, a: Allocation)
    requires k < |allocs|
    ensures Pending(allocs[k := a]) + PendingOf(allocs[k]) == Pending(allocs) + PendingOf(a)
  {
    hide PendingOf, Pending;
    var n := |allocs| - 1;
    assert allocs[..n] + [allocs[n]] == allocs;
    PendingOfOneMore(allocs[..n], allocs[n]);
    if k < n {
      assert allocs[..n][k] == allocs[k];
      PendingAfterConfirm(allocs[..n], k, a);
      assert allocs[k := a] == allocs[..n][k := a] + [allocs[n]];
      PendingOfOneMore(allocs[..n][k := a], allocs[n]);
      AddToBoth(Pending(allocs[..n][k := a]), PendingOf(allocs[k]), Pending(allocs[..n]), PendingOf(a), PendingOf(allocs[n]));
    } else {
      assert allocs[k := a] == allocs[..n] + [a];
      PendingOfOneMore(allocs[..n], a);
    }
  }

  lemma {:induction false} AllOpened(allocs: seq<Allocation>)
    requires forall k | 0 <= k < |allocs| :: allocs[k].stream.Some?
    ensures OpenedConfigs(Openings(allocs)) == Pending(allocs)
  {
    if allocs != [] {
      var n := |allocs| - 1;
      AllOpened(allocs[..n]);
      if allocs[n].config.Some? {
        var before, last := Openings(allocs[..n]), Opening(allocs[n].id, allocs[n].stream.value, allocs[n].config.value);
        assert (before + [last])[..|before|] == before;
      } else {
        assert Openings(allocs[..n]) + [] == Openings(allocs[..n]);
      }
    }
  }

  lemma {:induction false} NothingPending(allocs: seq<Allocation>)
    requires forall k | 0 <= k < |allocs| :: allocs[k].config.None?
    ensures Pending(allocs) == multiset{}
  {
    if allocs != [] {
      NothingPending(allocs[..|allocs| - 1]);
    }
  }

  lemma {:induction false} OpenedConcat(a: seq<Opening>, b: seq<Opening>)
    ensures OpenedConfigs(a + b) == OpenedConfigs(a) + OpenedConfigs(b)
  {
    if b == [] {
      assert a + b == a;
    } else {
      var n := |b| - 1;
      assert (a + b)[..|a| + n] == a + b[..n];
      OpenedConcat(a, b[..n]);
    }
  }

  lemma {:induction false} PendingAllocated(allocs: seq<Allocation>, r: seq<Allocation>)
    requires |allocs| == |r| && forall k | 0 <= k < |r| :: r[k] == allocs[k].(stream := r[k].stream)
    ensures Pending(r) == Pending(allocs)
  {
    if allocs != [] {
      var n := |allocs| - 1;
      PendingAllocated(allocs[..n], r[..n]);
    }
  }

  /** What is left without a channel is the rest, in order. */
  lemma {:induction false} WithoutFacts(allocs: seq<Allocation>, id: nat, next: nat)
    requires IdsIncrease(allocs, next) && DistinctStreams(allocs)
    ensures var r := Without(allocs, id);
            IdsIncrease(r, next) && DistinctStreams(r) && forall a | a in r :: a in allocs && a.id != id
  {
    hide IdsIncrease, DistinctStreams;
    if allocs != [] {
      var n := |allocs| - 1;
      var before, a := allocs[..n], allocs[n];
      assert before + [a] == allocs;
      OneLessFacts(before, a, next);
      WithoutFacts(before, id, a.id);
      WithoutOfOneMore(before, a, id);
      OneMoreFacts(Without(before, id), a, next);
    }
  }

  lemma OneLessFacts(s: seq<Allocation>, a: Allocation, next: nat)
    requires IdsIncrease(s + [a], next) && DistinctStreams(s + [a])
    ensures IdsIncrease(s, a.id) && DistinctStreams(s) && a.id < next
    ensures forall b | b in s && b.stream.Some? :: b.stream != a.stream
  {
    var all := s + [a];
    assert forall k | 0 <= k < |s| :: all[k] == s[k];
    assert all[|s|] == a;
  }

  lemma OneMoreFacts(s: seq<Allocation>, a: Allocation, next: nat)
    requires a.id < next
    ensures IdsIncrease(s, a.id) ==> IdsIncrease(s + [a], next) && IdsIncrease(s, next)
    ensures DistinctStreams(s) && (forall b | b in s && b.stream.Some? :: b.stream != a.stream) ==>
              DistinctStreams(s + [a])
  {
    assert forall k | 0 <= k < |s| :: s[k] in s;
  }

  lemma {:induction false} PendingWithout(allocs: seq<Allocation>, id: nat, next: nat)
    requires IdsIncrease(allocs, next)
    ensures var k := FindId(allocs, id);
            Pending(Without(allocs, id)) + (if k.Some? then PendingOf(allocs[k.value]) else multiset{}) == Pending(allocs)
  {
    if allocs != [] {
      var n := |allocs| - 1;
      var before, a := allocs[..n], allocs[n];
      PendingWithout(before, id, a.id);
      var r := Without(before, id);
      var k := FindId(before, id);
      FindIdOfOneMore(before, a, id);
      assert before + [a] == allocs;
      if a.id == id {
        NoneBelow(before, id);
      }
      hide FindId, PendingOf, Pending;
      PendingOfOneMore(before, a);
      PendingOfOneMore(r, a);
      WithoutOfOneMore(before, a, id);
      AddToBoth(Pending(r), if k.Some? then PendingOf(before[k.value]) else multiset{}, Pending(before), multiset{},
                PendingOf(a));
    }
  }

  lemma WithoutOfOneMore(s: seq<Allocation>, a: Allocation, id: nat)
    ensures Without(s + [a], id) == if a.id == id then Without(s, id) else Without(s, id) + [a]
  {
    assert (s + [a])[..|s|] == s;
  }

  lemma NoneBelow(allocs: seq<Allocation>, id: nat)
    requires IdsIncrease(allocs, id)
    ensures FindId(allocs, id).None?
  {
  }

  lemma {:induction false} FindIdOfOneMore(allocs: seq<Allocation>, a: Allocation, id: nat)
    ensures FindId(allocs + [a], id) ==
            if FindId(allocs, id).Some? then FindId(allocs, id)
            else if a.id == id then Some(|allocs|)
            else None
  {
    if allocs != [] {
      assert (allocs + [a])[1..] == allocs[1..] + [a];
      FindIdOfOneMore(allocs[1..], a, id);
    }
  }

  lemma NewChannelKeepsInv(s: System, a: Allocation)
    requires Inv(s) && a.id == s.next && a.config.None?
    requires a.stream.Some? ==> FindStream(s.allocs, a.stream.value).None?
    ensures Inv(s.(allocs := s.allocs + [a], next := s.next + 1))
  {
    hide FindStream, Pending, OpenedConfigs;
    PendingOfOneMore(s.allocs, a);
    OneMoreFacts(s.allocs, a, s.next + 1);
    assert forall b | b in s.allocs && b.stream.Some? :: b.stream != a.stream;
    assert Pending(s.allocs) + multiset{} == Pending(s.allocs);
    hide IdsIncrease, DistinctStreams;
  }

  /** An allocation that changes its config only leaves everything else as it is. */
  lemma ConfirmKeepsLists(allocs: seq<Allocation>, log: seq<Opening>, next: nat, k: nat, config: Config)
    requires k < |allocs| && IdsIncrease(allocs, next) && DistinctStreams(allocs) && LogMatches(allocs, log)
    ensures var r := allocs[k := allocs[k].(config := Some(config))];
            IdsIncrease(r, next) && DistinctStreams(r) && LogMatches(r, log)
  {
    var r := allocs[k := allocs[k].(config := Some(config))];
    forall o, a | o in log && a in r && a.id == o.id ensures a.stream == Some(o.stream) {
      var j :| 0 <= j < |r| && r[j] == a;
      assert allocs[j] in allocs && allocs[j].id == o.id;
    }
  }

  lemma ConfirmKeepsInv(s: System, id: nat, config: Config)
    requires Inv(s) && FindId(s.allocs, id).Some?
    ensures Inv(Next(s, Confirm(id, config)))
  {
    var k := FindId(s.allocs, id).value;
    ConfirmKeepsLists(s.allocs, s.log, s.next, k, config);
    var a := s.allocs[k].(config := Some(config));
    PendingAfterConfirm(s.allocs, k, a);
    assert PendingOf(a) == multiset{(id, config)};
    hide FindId, Pending, PendingOf, OpenedConfigs, IdsIncrease, DistinctStreams, LogMatches, LogBelow;
    AddToMiddle(OpenedConfigs(s.log), Pending(s.allocs), s.dropped, PendingOf(a), Pending(s.allocs[k := a]),
                PendingOf(s.allocs[k]));
  }

  lemma AddToMiddle(a: multiset<(nat, Config)>, b: multiset<(nat, Config)>, c: multiset<(nat, Config)>,
                    x: multiset<(nat, Config)>, b': multiset<(nat, Config)>, y: multiset<(nat, Config)>)
    requires b' + y == b + x
    ensures a + b + c + x == a + b' + (c + y)
  {
    assert a + b + c + x == a + c + (b + x);
    assert a + b' + (c + y) == a + c + (b' + y);
  }

  lemma RemoveConserves(s: System, id: nat)
    requires IdsIncrease(s.allocs, s.next) && Conserved(s)
    ensures Conserved(Next(s, Remove(id)))
  {
    PendingWithout(s.allocs, id, s.next);
    hide FindId, Pending, OpenedConfigs, Without, PendingOf, IdsIncrease;
    var k := FindId(s.allocs, id);
    var lost := if k.Some? then PendingOf(s.allocs[k.value]) else multiset{};
    assert Pending(s.allocs) + multiset{} == Pending(s.allocs);
    AddToMiddle(OpenedConfigs(s.log), Pending(s.allocs), s.dropped, multiset{}, Pending(Without(s.allocs, id)), lost);
    assert s.confirmed + multiset{} == s.confirmed;
  }

  lemma RemoveKeepsInv(s: System, id: nat)
    requires Inv(s)
    ensures Inv(Next(s, Remove(id)))
  {
    WithoutFacts(s.allocs, id, s.next);
    RemoveConserves(s, id);
    hide FindId, Without, IdsIncrease, DistinctStreams, Conserved;
  }

  /** Whatever is opened is opened for a channel of the list, on its stream. */
  lemma {:induction false} OpeningsMatch(allocs: seq<Allocation>)
    ensures forall o | o in Openings(allocs) :: Allocation(o.id, Some(o.stream), Some(o.config)) in allocs
  {
    if allocs != [] {
      var n := |allocs| - 1;
      OpeningsMatch(allocs[..n]);
      assert allocs == allocs[..n] + [allocs[n]];
    }
  }

  lemma OneChannelPerId(allocs: seq<Allocation>, next: nat, a: Allocation, b: Allocation)
    requires IdsIncrease(allocs, next) && a in allocs && b in allocs && a.id == b.id
    ensures a == b && a.id < next
  {
  }

  /** Allocation does not move channels to other streams. */
  lemma AllocateKeepsLog(allocs: seq<Allocation>, taken: set<nat>, base: nat, log: seq<Opening>, next: nat)
    requires IdsIncrease(allocs, next) && LogMatches(allocs, log)
    ensures var all := Allocate(allocs, taken, base);
            IdsIncrease(all, next) && LogMatches(all, log)
  {
    var all := Allocate(allocs, taken, base);
    forall o, a | o in log && a in all && a.id == o.id ensures a.stream == Some(o.stream) {
      var j :| 0 <= j < |all| && all[j] == a;
      assert allocs[j] in allocs && allocs[j].id == o.id;
    }
  }

  lemma OpeningKeepsLog(all: seq<Allocation>, log: seq<Opening>, next: nat)
    requires IdsIncrease(all, next) && LogMatches(all, log) && LogBelow(log, next)
    ensures LogMatches(all, log + Openings(all)) && LogBelow(log + Openings(all), next)
  {
    OpeningsMatch(all);
    hide Openings;
    forall o, a | o in Openings(all) && a in all && a.id == o.id ensures a.stream == Some(o.stream) {
      OneChannelPerId(all, next, a, Allocation(o.id, Some(o.stream), Some(o.config)));
    }
    forall o | o in Openings(all) ensures o.id < next {
      var a := Allocation(o.id, Some(o.stream), Some(o.config));
      OneChannelPerId(all, next, a, a);
    }
  }

  lemma ForgettingKeepsLists(all: seq<Allocation>, log: seq<Opening>, next: nat)
    requires IdsIncrease(all, next) && DistinctStreams(all) && LogMatches(all, log)
    ensures var r := WithoutConfigs(all);
            IdsIncrease(r, next) && DistinctStreams(r) && LogMatches(r, log)
  {
    var r := WithoutConfigs(all);
    forall o, a | o in log && a in r && a.id == o.id ensures a.stream == Some(o.stream) {
      var j :| 0 <= j < |r| && r[j] == a;
      assert all[j] in all && all[j].id == o.id;
    }
  }

  lemma PlusNothing(a: multiset<(nat, Config)>, b: multiset<(nat, Config)>)
    ensures a + multiset{} + b == a + b
  {
  }

  lemma PendingAfterTimeout(allocs: seq<Allocation>, taken: set<nat>, base: nat)
    ensures var all := Allocate(allocs, taken, base);
            OpenedConfigs(Openings(all)) == Pending(allocs) && Pending(WithoutConfigs(all)) == multiset{}
  {
    var all := Allocate(allocs, taken, base);
    PendingAllocated(allocs, all);
    AllOpened(all);
    NothingPending(WithoutConfigs(all));
  }

  lemma TimeoutConserves(s: System, isClient: bool)
    requires Conserved(s)
    ensures Conserved(Next(s, Timeout(isClient)))
    ensures Pending(Next(s, Timeout(isClient)).allocs) == multiset{}
  {
    hide Allocate, Taken, WithoutConfigs, Openings, OpenedConfigs, Pending;
    var all := Allocate(s.allocs, Taken(s.allocs), if isClient then 0 else 1);
    PendingAfterTimeout(s.allocs, Taken(s.allocs), if isClient then 0 else 1);
    OpenedConcat(s.log, Openings(all));
    PlusNothing(OpenedConfigs(s.log) + Pending(s.allocs), s.dropped);
  }

  lemma TimeoutKeepsInv(s: System, isClient: bool)
    requires Inv(s)
    ensures Inv(Next(s, Timeout(isClient)))
  {
    var taken, base := Taken(s.allocs), if isClient then 0 else 1;
    hide Allocate, Taken, WithoutConfigs, Openings, IdsIncrease, DistinctStreams, LogMatches, LogBelow, Conserved;
    var all := Allocate(s.allocs, taken, base);
    AllocateKeepsDistinct(s.allocs, taken, base);
    AllocateKeepsLog(s.allocs, taken, base, s.log, s.next);
    OpeningKeepsLog(all, s.log, s.next);
    ForgettingKeepsLists(all, s.log + Openings(all), s.next);
    TimeoutConserves(s, isClient);
  }

  lemma StepKeepsInv(s: System, step: Step)
    requires Inv(s) && Legal(s, step)
    ensures Inv(Next(s, step))
  {
    hide Inv, Pending, Openings, Allocate;
    match step
    case New(config) => NewChannelKeepsInv(s, Allocation(s.next, config.negotiated, None));
    case Confirm(id, config) => ConfirmKeepsInv(s, id, config);
    case Timeout(isClient) => TimeoutKeepsInv(s, isClient);
    case Ensure(stream) =>
      if FindStream(s.allocs, stream).None? {
        NewChannelKeepsInv(s, Allocation(s.next, Some(stream), None));
      }
    case Remove(id) => RemoveKeepsInv(s, id);
  }

  predicate LegalRun(s: System, steps: seq<Step>)
    decreases |steps|
  {
    steps == [] || (Legal(s, steps[0]) && LegalRun(Next(s, steps[0]), steps[1..]))
  }

  function Run(s: System, steps: seq<Step>): System
    requires LegalRun(s, steps)
    decreases |steps|
  {
    if steps == [] then s else Run(Next(s, steps[0]), steps[1..])
  }

  lemma {:induction false} RunKeepsInv(s: System, steps: seq<Step>)
    requires Inv(s) && LegalRun(s, steps)
    ensures Inv(Run(s, steps))
    decreases |steps|
  {
    hide Inv, Next, Legal;
    if steps != [] {
      StepKeepsInv(s, steps[0]);
      RunKeepsInv(Next(s, steps[0]), steps[1..]);
    }
  }

  /** In every run, each of the two lookups is the inverse of the other. */
  lemma LookupsAreInverse(steps: seq<Step>, id: nat, stream: nat)
    requires LegalRun(START, steps)
    ensures var allocs := Run(START, steps).allocs;
            ChannelIdByStreamId(allocs, stream) == Some(id) <==> StreamIdByChannelId(allocs, id) == Some(stream)
  {
    RunKeepsInv(START, steps);
    var allocs := Run(START, steps).allocs;
    hide Run, LegalRun;
    var k, j := FindStream(allocs, stream), FindId(allocs, id);
    assert IdsIncrease(allocs, Run(START, steps).next) && DistinctStreams(allocs);
    if k.Some? && j.Some? && k != j {
      assert allocs[k.value].id != allocs[j.value].id;
      assert allocs[k.value].stream != allocs[j.value].stream;
    }
  }

  /**
   In every run, right after a timeout, every config that was ever confirmed was opened, once for each confirmation,
   on the stream that its channel has, unless it was given up by a second confirmation or by a removal before.
   */
  lemma ConfirmedIsOpened(steps: seq<Step>, isClient: bool)
    requires LegalRun(START, steps)
    ensures var s := Next(Run(START, steps), Timeout(isClient));
            && s.confirmed == OpenedConfigs(s.log) + s.dropped
            && forall o | o in s.log && StreamIdByChannelId(s.allocs, o.id).Some? ::
                 StreamIdByChannelId(s.allocs, o.id) == Some(o.stream)
  {
    RunKeepsInv(START, steps);
    var s := Run(START, steps);
    hide Run, LegalRun;
    TimeoutKeepsInv(s, isClient);
    TimeoutConserves(s, isClient);
    var s' := Next(s, Timeout(isClient));
    hide Next, OpenedConfigs, Pending, IdsIncrease, DistinctStreams, LogBelow, FindStream;
    assert OpenedConfigs(s'.log) + multiset{} + s'.dropped == OpenedConfigs(s'.log) + s'.dropped;
    forall o | o in s'.log && StreamIdByChannelId(s'.allocs, o.id).Some?
      ensures StreamIdByChannelId(s'.allocs, o.id) == Some(o.stream)
    {
      assert s'.allocs[FindId(s'.allocs, o.id).value] in s'.allocs;
    }
  }

  /** After a channel was ensured for a stream, looking the stream up finds one; and it was added only if there was none. */
  lemma EnsuredIsFound(s: System, stream: nat)
    requires Inv(s) && Legal(s, Ensure(stream))
    ensures var s' := Next(s, Ensure(stream));
            && ChannelIdByStreamId(s'.allocs, stream).Some?
            && (ChannelIdByStreamId(s.allocs, stream).Some? ==> s' == s)
  {
    var s' := Next(s, Ensure(stream));
    if FindStream(s.allocs, stream).None? {
      assert s'.allocs[|s.allocs|].stream == Some(stream);
    }
  }

  /** A new channel is found by its id, with the stream that was negotiated for it. */
  lemma NewIsFound(s: System, config: Config)
    requires Inv(s) && Legal(s, New(config))
    ensures StreamIdByChannelId(Next(s, New(config)).allocs, s.next) == config.negotiated
  {
    var allocs := Next(s, New(config)).allocs;
    assert allocs[|s.allocs|].id == s.next;
    assert forall j | 0 <= j < |s.allocs| :: s.allocs[j].id < s.next;
  }
}
