/**
 What forming pairs achieves: every new combination of candidates is on the checklist, by itself or by a redundant
 pair that is no worse, no two pairs are redundant, and the limit cuts off the lowest priorities.
 */
module IceFormation {
  import opened Bytes
  import opened IcePair
  import opened IceCandidate
  import opened IceAgentSpec
  import opened IceAgentOps

  /** What redundant pairs have in common. */
  datatype Key = Key(base: Address, remote: Address, localProto: Protocol, remoteProto: Protocol)

  function KeyOf(l: Candidate, r: Candidate): Key {
    Key(l.Base(), r.addr, l.proto, r.proto)
  }

  function PairKey(p: Pair, local: seq<Candidate>, remote: seq<Candidate>): Key
    requires WellFormed(p, local, remote)
  {
    KeyOf(local[p.localIdx], remote[p.remoteIdx])
  }

  function PrioOf(a: Agent, l: nat, r: nat): nat
    requires l < |a.local| && r < |a.remote| && a.local[l].Valid() && a.remote[r].Valid()
  {
    CalculatePrio(a.controlling, a.remote[r].Prio(), a.local[l].Prio())
  }

  /** A pair with this key and at least this priority is on the list. */
  predicate Covers(a: Agent, key: Key, prio: nat)
    requires AllWellFormed(a.pairs, a.local, a.remote)
  {
    exists k :: 0 <= k < |a.pairs| && PairKey(a.pairs[k], a.local, a.remote) == key && a.pairs[k].prio >= prio
  }

  /** No two pairs on the list have the same key. */
  predicate NoneRedundant(a: Agent)
    requires AllWellFormed(a.pairs, a.local, a.remote)
  {
    forall j, k | 0 <= j < k < |a.pairs| ::
      PairKey(a.pairs[j], a.local, a.remote) != PairKey(a.pairs[k], a.local, a.remote)
  }

  predicate CanForm(a: Agent, l: nat, r: nat) {
    && AllWellFormed(a.pairs, a.local, a.remote) && AllValid(a.local) && AllValid(a.remote)
    && l < |a.local| && !a.local[l].discarded && r < |a.remote| && !a.remote[r].discarded
  }

  /** The first redundant pair is the first one with the key. */
  lemma {:induction false} FindRedundantIs(a: Agent, l: Candidate, r: Candidate, from: nat)
    requires AllWellFormed(a.pairs, a.local, a.remote) && from <= |a.pairs|
    ensures var k := FindRedundant(a, l, r, from);
            && (k.None? ==> forall j | from <= j < |a.pairs| :: PairKey(a.pairs[j], a.local, a.remote) != KeyOf(l, r))
            && (k.Some? ==> PairKey(a.pairs[k.value], a.local, a.remote) == KeyOf(l, r))
    decreases |a.pairs| - from
  {
    if from < |a.pairs| {
      FindRedundantIs(a, l, r, from + 1);
    }
  }

  /** What forming one pair does to the list. */
  lemma FormPairIs(a: Agent, l: nat, r: nat)
    requires CanForm(a, l, r) && a.local[l].proto == a.remote[r].proto
    ensures var a' := FormPair(a, l, r);
            var key, prio := KeyOf(a.local[l], a.remote[r]), PrioOf(a, l, r);
            var k := FindRedundant(a, a.local[l], a.remote[r], 0);
            if k.None? then
              |a'.pairs| == |a.pairs| + 1 && a'.pairs[..|a.pairs|] == a.pairs
              && PairKey(a'.pairs[|a.pairs|], a.local, a.remote) == key && a'.pairs[|a.pairs|].prio == prio
            else if a.pairs[k.value].prio >= prio then a'.pairs == a.pairs
            else
              |a'.pairs| == |a.pairs| && a'.pairs == a.pairs[k.value := a'.pairs[k.value]]
              && PairKey(a'.pairs[k.value], a.local, a.remote) == key && a'.pairs[k.value].prio == prio
  {
    hide FindRedundant;
  }

  lemma FormPairCovers(a: Agent, l: nat, r: nat)
    requires CanForm(a, l, r) && a.local[l].proto == a.remote[r].proto
    ensures Covers(FormPair(a, l, r), KeyOf(a.local[l], a.remote[r]), PrioOf(a, l, r))
  {
    FormPairIs(a, l, r);
    FindRedundantIs(a, a.local[l], a.remote[r], 0);
    hide FormPair, FindRedundant, CalculatePrio;
  }

  lemma FormPairKeepsCovers(a: Agent, l: nat, r: nat, key: Key, prio: nat)
    requires CanForm(a, l, r) && Covers(a, key, prio)
    ensures Covers(FormPair(a, l, r), key, prio)
  {
    var a' := FormPair(a, l, r);
    if a.local[l].proto == a.remote[r].proto {
      FormPairIs(a, l, r);
      FindRedundantIs(a, a.local[l], a.remote[r], 0);
      hide FormPair, FindRedundant, CalculatePrio;
      var k :| 0 <= k < |a.pairs| && PairKey(a.pairs[k], a.local, a.remote) == key && a.pairs[k].prio >= prio;
      assert k < |a'.pairs| && (a'.pairs[k] == a.pairs[k] || PairKey(a'.pairs[k], a.local, a.remote) == key);
      assert a'.pairs[k].prio >= prio;
    }
  }

  lemma FormPairKeepsNoneRedundant(a: Agent, l: nat, r: nat)
    requires CanForm(a, l, r) && NoneRedundant(a)
    ensures NoneRedundant(FormPair(a, l, r))
  {
    var a' := FormPair(a, l, r);
    if a.local[l].proto == a.remote[r].proto {
      FormPairIs(a, l, r);
      FindRedundantIs(a, a.local[l], a.remote[r], 0);
      hide FormPair, FindRedundant, CalculatePrio;
      forall j, k | 0 <= j < k < |a'.pairs|
        ensures PairKey(a'.pairs[j], a.local, a.remote) != PairKey(a'.pairs[k], a.local, a.remote)
      {
        assert j < |a.pairs| && PairKey(a'.pairs[j], a.local, a.remote) == PairKey(a.pairs[j], a.local, a.remote);
      }
    }
  }

  // ---------- Many pairs ----------

  lemma {:induction false} FormRowKeeps(a: Agent, l: nat, rs: seq<nat>, key: Key, prio: nat)
    requires Forming(a) && l < |a.local| && !a.local[l].discarded && Usable(a.remote, rs)
    ensures AllWellFormed(a.pairs, a.local, a.remote) && AllValid(a.local) && AllValid(a.remote)
    ensures Covers(a, key, prio) ==> Covers(FormRow(a, l, rs), key, prio)
    ensures NoneRedundant(a) ==> NoneRedundant(FormRow(a, l, rs))
    decreases |rs|
  {
    FormingMeans(a);
    hide Forming, FormPair, Covers, NoneRedundant;
    if rs != [] {
      var a1 := FormPair(a, l, rs[0]);
      FormPairKeepsForming(a, l, rs[0]);
      FormingMeans(a1);
      if Covers(a, key, prio) {
        FormPairKeepsCovers(a, l, rs[0], key, prio);
      }
      if NoneRedundant(a) {
        FormPairKeepsNoneRedundant(a, l, rs[0]);
      }
      FormRowKeeps(a1, l, rs[1..], key, prio);
    }
  }

  lemma {:induction false} FormRowCovers(a: Agent, l: nat, rs: seq<nat>, j: nat)
    requires Forming(a) && l < |a.local| && !a.local[l].discarded && Usable(a.remote, rs) && j < |rs|
    requires a.local[l].proto == a.remote[rs[j]].proto
    ensures AllWellFormed(a.pairs, a.local, a.remote) && AllValid(a.local) && AllValid(a.remote)
    ensures Covers(FormRow(a, l, rs), KeyOf(a.local[l], a.remote[rs[j]]), PrioOf(a, l, rs[j]))
    decreases |rs|
  {
    FormingMeans(a);
    hide Forming, FormPair, Covers, CalculatePrio;
    var a1 := FormPair(a, l, rs[0]);
    FormPairKeepsForming(a, l, rs[0]);
    FormingMeans(a1);
    if j == 0 {
      FormPairCovers(a, l, rs[0]);
      FormRowKeeps(a1, l, rs[1..], KeyOf(a.local[l], a.remote[rs[0]]), PrioOf(a, l, rs[0]));
    } else {
      FormRowCovers(a1, l, rs[1..], j - 1);
    }
  }

  lemma {:induction false} FormRowsKeeps(a: Agent, ls: seq<nat>, rs: seq<nat>, key: Key, prio: nat)
    requires Forming(a) && Usable(a.local, ls) && Usable(a.remote, rs)
    ensures AllWellFormed(a.pairs, a.local, a.remote) && AllValid(a.local) && AllValid(a.remote)
    ensures Covers(a, key, prio) ==> Covers(FormRows(a, ls, rs), key, prio)
    ensures NoneRedundant(a) ==> NoneRedundant(FormRows(a, ls, rs))
    decreases |ls|
  {
    FormingMeans(a);
    hide Forming, FormRow, Covers, NoneRedundant;
    if ls != [] {
      FormRowKeepsForming(a, ls[0], rs);
      FormRowKeeps(a, ls[0], rs, key, prio);
      FormRowsKeeps(FormRow(a, ls[0], rs), ls[1..], rs, key, prio);
    }
  }

  lemma {:induction false} FormRowsCovers(a: Agent, ls: seq<nat>, rs: seq<nat>, i: nat, j: nat)
    requires Forming(a) && Usable(a.local, ls) && Usable(a.remote, rs) && i < |ls| && j < |rs|
    requires a.local[ls[i]].proto == a.remote[rs[j]].proto
    ensures AllWellFormed(a.pairs, a.local, a.remote) && AllValid(a.local) && AllValid(a.remote)
    ensures Covers(FormRows(a, ls, rs), KeyOf(a.local[ls[i]], a.remote[rs[j]]), PrioOf(a, ls[i], rs[j]))
    decreases |ls|
  {
    FormingMeans(a);
    hide Forming, FormRow, Covers, CalculatePrio;
    var a1 := FormRow(a, ls[0], rs);
    FormRowKeepsForming(a, ls[0], rs);
    FormingMeans(a1);
    if i == 0 {
      FormRowCovers(a, ls[0], rs, j);
      FormRowsKeeps(a1, ls[1..], rs, KeyOf(a.local[ls[0]], a.remote[rs[j]]), PrioOf(a, ls[0], rs[j]));
    } else {
      FormRowsCovers(a1, ls[1..], rs, i - 1, j);
    }
  }

  function Limit(a: Agent): nat {
    if a.maxCandidatePairs.Some? then a.maxCandidatePairs.value else 100
  }

  /** The checklist is never over the limit right after forming pairs. */
  lemma WithinLimit(a: Agent, ls: seq<nat>, rs: seq<nat>)
    requires Forming(a) && Usable(a.local, ls) && Usable(a.remote, rs)
    ensures AllWellFormed(a.pairs, a.local, a.remote) && AllValid(a.local) && AllValid(a.remote)
    ensures |FormPairs(a, ls, rs).pairs| <= Limit(a)
  {
    FormingMeans(a);
  }

  /**
   Every new combination of candidates of one protocol is on the checklist, by itself or by a redundant pair with at
   least its priority, unless the checklist is full of pairs with at least its priority.
   */
  lemma CombinationsAreOnTheList(a: Agent, ls: seq<nat>, rs: seq<nat>, i: nat, j: nat)
    requires Forming(a) && Usable(a.local, ls) && Usable(a.remote, rs) && i < |ls| && j < |rs|
    requires a.local[ls[i]].proto == a.remote[rs[j]].proto
    ensures AllWellFormed(a.pairs, a.local, a.remote) && AllValid(a.local) && AllValid(a.remote)
    ensures var a' := FormPairs(a, ls, rs);
            var prio := PrioOf(a, ls[i], rs[j]);
            && AllWellFormed(a'.pairs, a.local, a.remote)
            && (Covers(a', KeyOf(a.local[ls[i]], a.remote[rs[j]]), prio) ||
                (|a'.pairs| == Limit(a) && forall x | x in a'.pairs :: x.prio >= prio))
  {
    FormingMeans(a);
    FormRowsCovers(a, ls, rs, i, j);
    FormPairsKeepsInv(a, ls, rs);
    var a1, a' := FormRows(a, ls, rs), FormPairs(a, ls, rs);
    var sorted := SortPairs(a1.pairs);
    SortPairsFacts(a1.pairs);
    InvMeans(a');
    hide Forming, Inv, FormRows, SortPairs, CalculatePrio, WellFormed;
    var key, prio := KeyOf(a.local[ls[i]], a.remote[rs[j]]), PrioOf(a, ls[i], rs[j]);
    var k :| 0 <= k < |a1.pairs| && PairKey(a1.pairs[k], a.local, a.remote) == key && a1.pairs[k].prio >= prio;
    var z := a1.pairs[k];
    CutOff(sorted, Limit(a), z);
    if z in a'.pairs {
      var m :| 0 <= m < |a'.pairs| && a'.pairs[m] == z;
    }
  }

  /** What is cut off is no higher than what stays. */
  lemma CutOff(sorted: seq<Pair>, max: nat, z: Pair)
    requires SortedByPrio(sorted) && z in sorted
    ensures var kept := if |sorted| > max then sorted[..max] else sorted;
            z in kept || (|kept| == max && forall x | x in kept :: x.prio >= z.prio)
  {
    if |sorted| > max {
      var m :| 0 <= m < |sorted| && sorted[m] == z;
      if m < max {
        assert sorted[..max][m] == z;
      }
    }
  }

  /** Sorting and cutting off make no two pairs redundant. */
  lemma SomeOfThemNoneRedundant(a: Agent, b: Agent)
    requires AllWellFormed(a.pairs, a.local, a.remote) && AllWellFormed(b.pairs, b.local, b.remote)
    requires b.local == a.local && b.remote == a.remote && DistinctIds(b.pairs)
    requires forall x | x in b.pairs :: x in a.pairs
    requires NoneRedundant(a)
    ensures NoneRedundant(b)
  {
    forall j, k | 0 <= j < k < |b.pairs|
      ensures PairKey(b.pairs[j], b.local, b.remote) != PairKey(b.pairs[k], b.local, b.remote)
    {
      assert b.pairs[j] in a.pairs && b.pairs[k] in a.pairs;
      var m :| 0 <= m < |a.pairs| && a.pairs[m] == b.pairs[j];
      var n :| 0 <= n < |a.pairs| && a.pairs[n] == b.pairs[k];
      assert m != n;
    }
  }

  /** Forming pairs leaves no redundant ones where there were none. */
  lemma FormPairsKeepsNoneRedundant(a: Agent, ls: seq<nat>, rs: seq<nat>)
    requires Forming(a) && Usable(a.local, ls) && Usable(a.remote, rs)
    requires AllWellFormed(a.pairs, a.local, a.remote) && NoneRedundant(a)
    ensures AllValid(a.local) && AllValid(a.remote)
    ensures var a' := FormPairs(a, ls, rs);
            AllWellFormed(a'.pairs, a'.local, a'.remote) && NoneRedundant(a')
  {
    FormingMeans(a);
    var any := Address(0, 0, false);
    FormRowsKeeps(a, ls, rs, Key(any, any, Udp, Udp), 0);
    FormPairsKeepsInv(a, ls, rs);
    var a1, a' := FormRows(a, ls, rs), FormPairs(a, ls, rs);
    SortPairsFacts(a1.pairs);
    InvMeans(a');
    InvMeansDistinct(a');
    hide Forming, Inv, FormRows, SortPairs, NoneRedundant, WellFormed;
    var sorted := SortPairs(a1.pairs);
    forall x | x in a'.pairs ensures x in a1.pairs {
      var n :| 0 <= n < |a'.pairs| && a'.pairs[n] == x;
      assert sorted[n] == x;
    }
    SomeOfThemNoneRedundant(a1, a');
  }

  lemma InvMeansDistinct(a: Agent)
    requires Inv(a)
    ensures DistinctIds(a.pairs)
  {
  }

  /**
   After a remote candidate was added, every usable local candidate of its address family and protocol makes a pair
   with it on the checklist, or has a redundant one that is no worse there, unless the checklist is full of pairs that
   are no worse.
   */
  lemma RemoteCandidateIsPaired(a: Agent, c: Candidate, l: nat)
    requires Inv(a) && c.Valid() && !c.discarded && c.componentId == 1
    requires !(a.remoteCreds.Some? && c.ufrag.Some? && c.ufrag.value != a.remoteCreds.value.ufrag)
    requires l < |a.local| && !a.local[l].discarded && a.local[l].addr.ipv6 == c.addr.ipv6 && a.local[l].proto == c.proto
    ensures var a' := AddRemoteCandidate(a, c);
            && AllWellFormed(a'.pairs, a'.local, a'.remote) && a'.local == a.local && a.local[l].Valid()
            && var prio := CalculatePrio(a.controlling, c.(ufrag := None).Prio(), a.local[l].Prio());
               Covers(a', KeyOf(a.local[l], c), prio) ||
               (|a'.pairs| == Limit(a) && forall x | x in a'.pairs :: x.prio >= prio)
  {
    var c1 := c.(ufrag := None);
    var (a1, idx) := PlaceRemote(a, c1);
    PlaceRemoteKeepsInv(a, c1);
    PlacedIs(a, c1);
    InvIsForming(a1);
    InvMeansValid(a);
    AddRemoteCandidateKeepsInv(a, c);
    InvMeans(AddRemoteCandidate(a, c));
    var ls := PairableFrom(a.local, c.addr.ipv6, 0);
    var i := PairableHas(a.local, c.addr.ipv6, 0, l);
    hide Inv, Forming, PlaceRemote, FormPairs, PairableFrom, CalculatePrio, Covers;
    CombinationsAreOnTheList(a1, ls, [idx], i, 0);
  }

  lemma PlacedIs(a: Agent, c: Candidate)
    ensures var (a1, idx) := PlaceRemote(a, c);
            idx < |a1.remote| && a1.remote[idx] == c && a1 == a.(remote := a1.remote)
  {
  }

  lemma {:induction false} PairableHas(cs: seq<Candidate>, ipv6: bool, from: nat, l: nat) returns (i: nat)
    requires from <= l < |cs| && !cs[l].discarded && cs[l].addr.ipv6 == ipv6
    ensures i < |PairableFrom(cs, ipv6, from)| && PairableFrom(cs, ipv6, from)[i] == l
    decreases l - from
  {
    if from == l {
      i := 0;
    } else {
      i := PairableHas(cs, ipv6, from + 1, l);
      var rest := PairableFrom(cs, ipv6, from + 1);
      assert PairableFrom(cs, ipv6, from) == (if !cs[from].discarded && cs[from].addr.ipv6 == ipv6 then [from] else []) + rest;
      hide PairableFrom;
      if !cs[from].discarded && cs[from].addr.ipv6 == ipv6 {
        i := i + 1;
      }
    }
  }

  lemma AppendedNoneRedundantIff(a: Agent, p: Pair)
    requires AllWellFormed(a.pairs, a.local, a.remote) && WellFormed(p, a.local, a.remote)
    ensures var b := a.(pairs := a.pairs + [p]);
            && AllWellFormed(b.pairs, b.local, b.remote)
            && (NoneRedundant(b) <==>
                NoneRedundant(a) && forall k | 0 <= k < |a.pairs| ::
                  PairKey(a.pairs[k], a.local, a.remote) != PairKey(p, a.local, a.remote))
  {
    var b := a.(pairs := a.pairs + [p]);
    assert b.pairs[|a.pairs|] == p;
    assert forall k | 0 <= k < |a.pairs| :: b.pairs[k] == a.pairs[k];
  }

  /** What a request makes of the checklist that its pair is not on. */
  lemma WithPairIs(a: Agent, l: nat, r: nat)
    requires Inv(a) && l < |a.local| && r < |a.remote| && !a.local[l].discarded && !a.remote[r].discarded
    requires FindPair(a.pairs, l, r).None?
    ensures var a', p := WithPair(a, l, r), WithPairNew(a, l, r);
            && AllWellFormed(a.pairs, a.local, a.remote) && WellFormed(p, a.local, a.remote)
            && p.localIdx == l && p.remoteIdx == r && DistinctIds(a.pairs + [p])
            && a'.local == a.local && a'.remote == a.remote && DistinctIds(a'.pairs)
            && AllWellFormed(a'.pairs, a'.local, a'.remote)
            && forall x :: x in a'.pairs <==> x in a.pairs + [p]
  {
    var p := WithPairNew(a, l, r);
    InvMeans(a);
    InvIsForming(a);
    AppendKeepsForming(a, p);
    SortPairsFacts(a.pairs + [p]);
    WithPairKeepsInv(a, l, r);
    InvMeans(WithPair(a, l, r));
    InvMeansDistinct(WithPair(a, l, r));
    hide Inv, SortPairs, FindPair, CalculatePrio;
  }

  /** The pair that a request brings to the checklist is not checked: it may be redundant with one that is there. */
  lemma RequestKeepsNoneRedundantIff(a: Agent, l: nat, r: nat)
    requires Inv(a) && l < |a.local| && r < |a.remote| && !a.local[l].discarded && !a.remote[r].discarded
    requires FindPair(a.pairs, l, r).None?
    ensures var a' := WithPair(a, l, r);
            && AllWellFormed(a.pairs, a.local, a.remote) && AllWellFormed(a'.pairs, a'.local, a'.remote)
            && (NoneRedundant(a') <==>
                NoneRedundant(a) && forall k | 0 <= k < |a.pairs| ::
                  PairKey(a.pairs[k], a.local, a.remote) != KeyOf(a.local[l], a.remote[r]))
  {
    hide Inv, FindPair, CalculatePrio, WithPair, WithPairNew, NoneRedundant;
    WithPairIs(a, l, r);
    var a', p := WithPair(a, l, r), WithPairNew(a, l, r);
    AppendedNoneRedundantIff(a, p);
    var b := a.(pairs := a.pairs + [p]);
    if NoneRedundant(b) {
      SomeOfThemNoneRedundant(b, a');
    }
    if NoneRedundant(a') {
      SomeOfThemNoneRedundant(a', b);
    }
  }
}
