/**
 The payload types of format.rs: negotiated ones are taken over from the remote side and locked, and the ones that
 are still open move out of their way.
 */
module PayloadTypes {
  import opened Bytes
  import opened Sets

  /** A payload type. The Rust code panics on larger ones, when it indexes its table of 128. */
  type Pt = n: nat | n < 128

  /** What a codec is, to be matched by a score; the payload types for it and its retransmissions. */
  datatype Params = Params(pt: Pt, resend: Option<Pt>, spec: string, locked: bool)

  type Score = (string, string) -> Option<nat>

  // ---------- Claims ----------

  /** The payload types of a codec, in the order that they are claimed. */
  function Uses(p: Params): seq<Pt> {
    if p.resend.Some? then [p.pt, p.resend.value] else [p.pt]
  }

  /** Claims a payload type; there is no result when it is claimed already. */
  function Claim(c: Option<set<Pt>>, pt: Pt): Option<set<Pt>> {
    if c.None? || pt in c.value then None else Some(c.value + {pt})
  }

  function ClaimUses(c: Option<set<Pt>>, p: Params): Option<set<Pt>> {
    if p.resend.Some? then Claim(Claim(c, p.pt), p.resend.value) else Claim(c, p.pt)
  }

  /** Claims the payload types of all locked codecs. */
  function ClaimAll(c: Option<set<Pt>>, params: seq<Params>): Option<set<Pt>> {
    if params == [] then c
    else
      var n := |params| - 1;
      var before := ClaimAll(c, params[..n]);
      if params[n].locked then ClaimUses(before, params[n]) else before
  }

  /** The remote codec with the highest score, the last one of several. */
  function BestMatch(p: Params, remote: seq<Params>, score: Score): (r: Option<nat>)
    ensures r.None? <==> forall k | 0 <= k < |remote| :: score(p.spec, remote[k].spec).None?
    ensures r.Some? ==>
              && r.value < |remote| && score(p.spec, remote[r.value].spec).Some?
              && forall k | 0 <= k < |remote| && score(p.spec, remote[k].spec).Some? ::
                   var best, s := score(p.spec, remote[r.value].spec).value, score(p.spec, remote[k].spec).value;
                   s <= best && (k > r.value ==> s < best)
  {
    if remote == [] then None
    else
      var n := |remote| - 1;
      var before := BestMatch(p, remote[..n], score);
      var s := score(p.spec, remote[n].spec);
      if s.None? then before
      else if before.Some? && score(p.spec, remote[before.value].spec).value > s.value then before
      else Some(n)
  }

  /** A codec after it has seen what the remote side offers. */
  function Locked(p: Params, remote: seq<Params>, score: Score): Params {
    var best := BestMatch(p, remote, score);
    if p.locked || best.None? then p
    else p.(pt := remote[best.value].pt, resend := remote[best.value].resend, locked := true)
  }

  function LockAll(params: seq<Params>, remote: seq<Params>, score: Score): (r: seq<Params>)
    ensures |r| == |params| && forall k | 0 <= k < |r| :: r[k] == Locked(params[k], remote, score)
  {
    seq(|params|, k requires 0 <= k < |params| => Locked(params[k], remote, score))
  }

  /** The codecs that become locked; all others count as open. */
  function NewlyLocked(params: seq<Params>, remote: seq<Params>, score: Score): (r: seq<Params>)
    ensures |r| == |params|
    ensures forall k | 0 <= k < |r| ::
              r[k] == if params[k].locked then params[k].(locked := false) else Locked(params[k], remote, score)
  {
    seq(|params|, k requires 0 <= k < |params| =>
      if params[k].locked then params[k].(locked := false) else Locked(params[k], remote, score))
  }

  // ---------- Reassignment ----------

  const RANGES := 87

  /** The payload types to choose from, in order of preference: 96..127, 80..95, 77..78, and 35..71. */
  function Preferred(k: nat): Pt
    requires k < RANGES
  {
    if k < 32 then 96 + k else if k < 48 then 48 + k else if k < 50 then 29 + k else k - 15
  }

  function FirstFree(c: set<Pt>, from: nat): (r: Option<Pt>)
    requires from <= RANGES
    ensures r.None? <==> forall k | from <= k < RANGES :: Preferred(k) in c
    ensures r.Some? ==>
              r.value !in c && exists k :: from <= k < RANGES && r.value == Preferred(k)
                                           && forall j | from <= j < k :: Preferred(j) in c
    decreases RANGES - from
  {
    if from == RANGES then None
    else if Preferred(from) !in c then Some(Preferred(from))
    else FirstFree(c, from + 1)
  }

  /** A payload type that is claimed is exchanged for a free one, which is claimed then; one that is not stays. */
  function Move(pt: Pt, c: set<Pt>): Option<(Pt, set<Pt>)> {
    if pt !in c then Some((pt, c))
    else
      var free := FirstFree(c, 0);
      if free.None? then None else Some((free.value, c + {free.value}))
  }

  function MoveUses(p: Params, c: set<Pt>): Option<(Params, set<Pt>)> {
    var m := Move(p.pt, c);
    if m.None? then None
    else if p.resend.None? then Some((p.(pt := m.value.0), m.value.1))
    else
      var m' := Move(p.resend.value, m.value.1);
      if m'.None? then None else Some((p.(pt := m.value.0, resend := Some(m'.value.0)), m'.value.1))
  }

  /** Moves the open codecs out of the way; there is no result when the ranges are exhausted. */
  function MoveAll(params: seq<Params>, c: set<Pt>): (r: Option<(seq<Params>, set<Pt>)>)
    ensures r.Some? ==> |r.value.0| == |params|
  {
    if params == [] then Some(([], c))
    else
      var n := |params| - 1;
      var before := MoveAll(params[..n], c);
      if before.None? then None
      else if params[n].locked then Some((before.value.0 + [params[n]], before.value.1))
      else
        var m := MoveUses(params[n], before.value.1);
        if m.None? then None else Some((before.value.0 + [m.value.0], m.value.1))
  }

  /** The new parameters; there are none where the Rust code panics. */
  function Updated(params: seq<Params>, remote: seq<Params>, score: Score): Option<seq<Params>> {
    var claimed := ClaimAll(ClaimAll(Some({}), params), NewlyLocked(params, remote, score));
    if claimed.None? then None
    else
      var moved := MoveAll(LockAll(params, remote, score), claimed.value);
      if moved.None? then None else Some(moved.value.0)
  }

  // ---------- The object ----------

  ghost function Claimed(a: array<bool>): set<Pt>
    requires a.Length == 128
    reads a
  {
    set pt: Pt | a[pt]
  }

  /** Marks a payload type; the flag is false where the Rust code panics. */
  method AssertClaimOnce(claimed: array<bool>, pt: Pt) returns (ok: bool)
    requires claimed.Length == 128
    modifies claimed
    ensures ok == (pt !in old(Claimed(claimed)))
    ensures ok ==> Claimed(claimed) == old(Claimed(claimed)) + {pt}
  {
    if claimed[pt] {
      return false;
    }
    claimed[pt] := true;
    return true;
  }

  method ClaimBoth(claimed: array<bool>, p: Params) returns (ok: bool)
    requires claimed.Length == 128
    modifies claimed
    ensures ok == ClaimUses(Some(old(Claimed(claimed))), p).Some?
    ensures ok ==> ClaimUses(Some(old(Claimed(claimed))), p) == Some(Claimed(claimed))
  {
    ok := AssertClaimOnce(claimed, p.pt);
    if ok && p.resend.Some? {
      ok := AssertClaimOnce(claimed, p.resend.value);
    }
  }

  method FindInRange(claimed: array<bool>, from: Pt, to: Pt, ghost start: nat) returns (r: Option<Pt>)
    requires claimed.Length == 128 && from <= to && start + (to - from) < RANGES
    requires forall k | start <= k <= start + (to - from) :: Preferred(k) == from + (k - start)
    ensures r.Some? ==> FirstFree(Claimed(claimed), start) == r
    ensures r.None? ==> FirstFree(Claimed(claimed), start) == FirstFree(Claimed(claimed), start + (to - from) + 1)
  {
    hide Preferred, FirstFree, Claimed;
    var i := from;
    ghost var k := start;
    while i <= to
      invariant from <= i <= to + 1 && k == start + (i - from)
      invariant FirstFree(Claimed(claimed), start) == FirstFree(Claimed(claimed), k)
    {
      FirstFreeNext(Claimed(claimed), k);
      ClaimedMeans(claimed, i);
      if !claimed[i] {
        return Some(i);
      }
      i, k := i + 1, k + 1;
    }
    return None;
  }

  /** The ranges in order of preference. */
  lemma RangesAre()
    ensures forall k | 0 <= k <= 31 :: Preferred(k) == 96 + k
    ensures forall k | 32 <= k <= 47 :: Preferred(k) == 80 + (k - 32)
    ensures forall k | 48 <= k <= 49 :: Preferred(k) == 77 + (k - 48)
    ensures forall k | 50 <= k <= 86 :: Preferred(k) == 35 + (k - 50)
  {
  }

  method FindUnclaimed(claimed: array<bool>) returns (r: Option<Pt>)
    requires claimed.Length == 128
    ensures r == FirstFree(Claimed(claimed), 0)
  {
    RangesAre();
    hide FirstFree, Claimed, Preferred;
    r := FindInRange(claimed, 96, 127, 0);
    if r.None? {
      r := FindInRange(claimed, 80, 95, 32);
    }
    if r.None? {
      r := FindInRange(claimed, 77, 78, 48);
    }
    if r.None? {
      r := FindInRange(claimed, 35, 71, 50);
    }
    AllTried(Claimed(claimed));
  }

  lemma FirstFreeNext(c: set<Pt>, k: nat)
    requires k < RANGES
    ensures FirstFree(c, k) == if Preferred(k) !in c then Some(Preferred(k)) else FirstFree(c, k + 1)
  {
  }

  lemma ClaimedMeans(a: array<bool>, pt: Pt)
    requires a.Length == 128
    ensures pt in Claimed(a) <==> a[pt]
  {
  }

  lemma AllTried(c: set<Pt>)
    ensures FirstFree(c, RANGES) == None
  {
  }

  /** Takes over the best match; the flag tells whether there is something new to claim. */
  method UpdateParam(p: Params, remote: seq<Params>, score: Score) returns (r: Params, locked: bool)
    ensures r == Locked(p, remote, score)
    ensures locked <==> !p.locked && r.locked
  {
    var best := BestMatch(p, remote, score);
    if best.None? || p.locked {
      return p, false;
    }
    var first := remote[best.value];
    return p.(pt := first.pt, resend := first.resend, locked := true), true;
  }

  method MoveOne(claimed: array<bool>, pt: Pt) returns (r: Option<Pt>)
    requires claimed.Length == 128
    modifies claimed
    ensures var m := Move(pt, old(Claimed(claimed)));
            r.Some? == m.Some? && (r.Some? ==> m == Some((r.value, Claimed(claimed))))
  {
    if !claimed[pt] {
      return Some(pt);
    }
    r := FindUnclaimed(claimed);
    if r.Some? {
      var _ := AssertClaimOnce(claimed, r.value);
    }
  }

  method MoveBoth(claimed: array<bool>, p: Params) returns (r: Option<Params>)
    requires claimed.Length == 128
    modifies claimed
    ensures var m := MoveUses(p, old(Claimed(claimed)));
            r.Some? == m.Some? && (r.Some? ==> m == Some((r.value, Claimed(claimed))))
  {
    var pt := MoveOne(claimed, p.pt);
    if pt.None? {
      return None;
    }
    if p.resend.None? {
      return Some(p.(pt := pt.value));
    }
    var rtx := MoveOne(claimed, p.resend.value);
    return if rtx.None? then None else Some(p.(pt := pt.value, resend := rtx));
  }

  class CodecConfig {
    var params: seq<Params>

    constructor (params: seq<Params>)
      ensures this.params == params
    {
      this.params := params;
    }

    /** Claims what was locked by an earlier negotiation. */
    method ClaimConfirmed(claimed: array<bool>) returns (ok: bool)
      requires claimed.Length == 128 && Claimed(claimed) == {}
      modifies claimed
      ensures ok == ClaimAll(Some({}), params).Some?
      ensures ok ==> ClaimAll(Some({}), params) == Some(Claimed(claimed))
    {
      var k := 0;
      while k < |params|
        invariant 0 <= k <= |params| && ClaimAll(Some({}), params[..k]) == Some(Claimed(claimed))
      {
        ClaimAllNext(Some({}), params, k);
        if params[k].locked {
          ok := ClaimBoth(claimed, params[k]);
          if !ok {
            ClaimAllFails(Some({}), params, k + 1);
            return;
          }
        }
        k := k + 1;
      }
      assert params[..k] == params;
      return true;
    }

    /** Takes over what the remote side offers, for all that is still open. */
    method LockParams(claimed: array<bool>, remote: seq<Params>, score: Score) returns (ok: bool)
      requires claimed.Length == 128
      modifies this, claimed
      ensures var c := ClaimAll(Some(old(Claimed(claimed))), NewlyLocked(old(params), remote, score));
              ok == c.Some? && (ok ==> c == Some(Claimed(claimed)) && params == LockAll(old(params), remote, score))
    {
      hide Locked, ClaimUses, Claimed;
      ghost var before, start := params, Claimed(claimed);
      ghost var newly := NewlyLocked(params, remote, score);
      var k := 0;
      while k < |params|
        invariant 0 <= k <= |params| == |before|
        invariant forall j | 0 <= j < k :: params[j] == Locked(before[j], remote, score)
        invariant forall j | k <= j < |params| :: params[j] == before[j]
        invariant ClaimAll(Some(start), newly[..k]) == Some(Claimed(claimed))
      {
        ClaimAllNext(Some(start), newly, k);
        var p, locked := UpdateParam(params[k], remote, score);
        params := params[k := p];
        if locked {
          ok := ClaimBoth(claimed, p);
          if !ok {
            ClaimAllFails(Some(start), newly, k + 1);
            return;
          }
        }
        k := k + 1;
      }
      assert newly[..k] == newly;
      return true;
    }

    /** Reassigns the open payload types that are claimed. */
    method MoveParams(claimed: array<bool>) returns (ok: bool)
      requires claimed.Length == 128
      modifies this, claimed
      ensures var moved := MoveAll(old(params), old(Claimed(claimed)));
              ok == moved.Some? && (ok ==> params == moved.value.0)
    {
      hide MoveUses, Claimed;
      ghost var before, start := params, Claimed(claimed);
      var k := 0;
      while k < |params|
        invariant 0 <= k <= |params| == |before|
        invariant MoveAll(before[..k], start) == Some((params[..k], Claimed(claimed)))
        invariant forall j | k <= j < |params| :: params[j] == before[j]
      {
        MoveAllNext(before, k, start);
        if !params[k].locked {
          var p := MoveBoth(claimed, params[k]);
          if p.None? {
            MoveAllFails(before, k + 1, start);
            return false;
          }
          params := params[k := p.value];
        }
        k := k + 1;
        assert params[..k] == params[..k - 1] + [params[k - 1]];
      }
      assert before[..k] == before && params[..k] == params;
      return true;
    }

    method UpdateParams(remote: seq<Params>, score: Score) returns (ok: bool)
      modifies this
      ensures var r := Updated(old(params), remote, score);
              ok == r.Some? && (ok ==> Some(params) == r)
    {
      var claimed := new bool[128](_ => false);
      ok := ClaimConfirmed(claimed);
      if !ok {
        ClaimAllOfNone(NewlyLocked(params, remote, score));
        return;
      }
      ok := LockParams(claimed, remote, score);
      if ok {
        ok := MoveParams(claimed);
      }
    }
  }

  lemma ClaimAllNext(c: Option<set<Pt>>, params: seq<Params>, k: nat)
    requires k < |params|
    ensures ClaimAll(c, params[..k + 1]) ==
            if params[k].locked then ClaimUses(ClaimAll(c, params[..k]), params[k]) else ClaimAll(c, params[..k])
  {
    assert params[..k + 1][..k] == params[..k];
  }

  /** A failure is not undone later. */
  lemma {:induction false} ClaimAllFails(c: Option<set<Pt>>, params: seq<Params>, k: nat)
    requires k <= |params| && ClaimAll(c, params[..k]).None?
    ensures ClaimAll(c, params).None?
    decreases |params| - k
  {
    if k < |params| {
      ClaimAllNext(c, params, k);
      ClaimAllFails(c, params, k + 1);
    } else {
      assert params[..k] == params;
    }
  }

  lemma ClaimAllOfNone(params: seq<Params>)
    ensures ClaimAll(None, params).None?
  {
    assert params[..0] == [];
    ClaimAllFails(None, params, 0);
  }

  lemma MoveAllNext(params: seq<Params>, k: nat, c: set<Pt>)
    requires k < |params|
    ensures var before, after := MoveAll(params[..k], c), MoveAll(params[..k + 1], c);
            if before.None? then after == None
            else if params[k].locked then after == Some((before.value.0 + [params[k]], before.value.1))
            else
              var m := MoveUses(params[k], before.value.1);
              after == if m.None? then None else Some((before.value.0 + [m.value.0], m.value.1))
  {
    assert params[..k + 1][..k] == params[..k];
  }

  lemma {:induction false} MoveAllFails(params: seq<Params>, k: nat, c: set<Pt>)
    requires k <= |params| && MoveAll(params[..k], c).None?
    ensures MoveAll(params, c).None?
    decreases |params| - k
  {
    if k < |params| {
      MoveAllNext(params, k, c);
      MoveAllFails(params, k + 1, c);
    } else {
      assert params[..k] == params;
    }
  }

  // ---------- When it works ----------

  function UseSet(p: Params): set<Pt> {
    set x | x in Uses(p)
  }

  /** All payload types of locked codecs differ. */
  predicate LockedDiffer(params: seq<Params>) {
    && (forall k | 0 <= k < |params| && params[k].locked :: params[k].resend != Some(params[k].pt))
    && (forall i, j | 0 <= i < j < |params| && params[i].locked && params[j].locked :: UseSet(params[i]) !! UseSet(params[j]))
  }

  function LockedUses(params: seq<Params>): set<Pt> {
    set k, x | 0 <= k < |params| && params[k].locked && x in UseSet(params[k]) :: x
  }

  lemma ClaimUsesIff(c: set<Pt>, p: Params)
    ensures ClaimUses(Some(c), p) ==
            if p.resend != Some(p.pt) && UseSet(p) !! c then Some(c + UseSet(p)) else None
    ensures ClaimUses(None, p) == None
  {
    assert p.pt in UseSet(p);
    if p.resend.Some? {
      assert UseSet(p) == {p.pt, p.resend.value};
      assert p.resend.value in UseSet(p);
      assert c + {p.pt} + {p.resend.value} == c + UseSet(p);
    } else {
      assert UseSet(p) == {p.pt};
    }
  }

  lemma LockedUsesOfOneMore(params: seq<Params>, p: Params)
    ensures LockedUses(params + [p]) == LockedUses(params) + if p.locked then UseSet(p) else {}
  {
    var all := params + [p];
    assert all[|params|] == p;
    assert forall k | 0 <= k < |params| :: all[k] == params[k];
  }

  lemma LockedDifferOfOneMore(params: seq<Params>, p: Params)
    ensures LockedDiffer(params + [p]) <==>
            LockedDiffer(params) && (p.locked ==> p.resend != Some(p.pt) && UseSet(p) !! LockedUses(params))
  {
    var all := params + [p];
    assert all[|params|] == p;
    assert forall k | 0 <= k < |params| :: all[k] == params[k];
    if LockedDiffer(all) && p.locked {
      forall x | x in LockedUses(params) ensures x !in UseSet(p) {
        var k :| 0 <= k < |params| && params[k].locked && x in UseSet(params[k]);
        assert UseSet(all[k]) !! UseSet(all[|params|]);
      }
    }
    if LockedDiffer(params) && (p.locked ==> p.resend != Some(p.pt) && UseSet(p) !! LockedUses(params)) {
      forall i, j | 0 <= i < j < |all| && all[i].locked && all[j].locked ensures UseSet(all[i]) !! UseSet(all[j]) {
        assert UseSet(all[i]) <= LockedUses(params);
      }
    }
  }

  lemma {:induction false} ClaimAllIff(c: set<Pt>, params: seq<Params>)
    ensures ClaimAll(Some(c), params) ==
            if LockedDiffer(params) && LockedUses(params) !! c then Some(c + LockedUses(params)) else None
  {
    if params != [] {
      var n := |params| - 1;
      var before, p := params[..n], params[n];
      ClaimAllIff(c, before);
      assert before + [p] == params;
      LockedUsesOfOneMore(before, p);
      LockedDifferOfOneMore(before, p);
      ClaimUsesIff(c + LockedUses(before), p);
      hide ClaimUses, UseSet, LockedDiffer, LockedUses;
      var used, uses := LockedUses(before), UseSet(p);
      assert c + used + uses == c + (used + uses) && used + {} == used;
      assert (used + uses) !! c <==> used !! c && uses !! c;
      assert uses !! (c + used) <==> uses !! c && uses !! used;
    } else {
      assert c + LockedUses([]) == c;
    }
  }

  lemma SplitByAge(params: seq<Params>, remote: seq<Params>, score: Score)
    ensures var newly, out := NewlyLocked(params, remote, score), LockAll(params, remote, score);
            && LockedUses(out) == LockedUses(params) + LockedUses(newly)
            && (LockedDiffer(out) <==> LockedDiffer(params) && LockedDiffer(newly) && LockedUses(newly) !! LockedUses(params))
  {
    var newly, out := NewlyLocked(params, remote, score), LockAll(params, remote, score);
    hide NewlyLocked, LockAll, Locked;
    Ages(params, remote, score);
    SplitUses(params, newly, out);
    SplitDiffer(params, newly, out);
  }

  /** Each locked codec is so either from before or newly. */
  predicate Split(before: seq<Params>, newly: seq<Params>, out: seq<Params>) {
    && |before| == |newly| == |out|
    && forall k | 0 <= k < |out| ::
         if before[k].locked then out[k] == before[k] && !newly[k].locked
         else if newly[k].locked then out[k] == newly[k]
         else !out[k].locked
  }

  lemma Ages(params: seq<Params>, remote: seq<Params>, score: Score)
    ensures Split(params, NewlyLocked(params, remote, score), LockAll(params, remote, score))
  {
  }

  lemma SplitUses(before: seq<Params>, newly: seq<Params>, out: seq<Params>)
    requires Split(before, newly, out)
    ensures LockedUses(out) == LockedUses(before) + LockedUses(newly)
  {
  }

  lemma SplitDiffer(before: seq<Params>, newly: seq<Params>, out: seq<Params>)
    requires Split(before, newly, out)
    ensures LockedDiffer(out) <==>
            LockedDiffer(before) && LockedDiffer(newly) && LockedUses(newly) !! LockedUses(before)
  {
    if LockedDiffer(out) {
      assert LockedDiffer(before) && LockedDiffer(newly);
      forall x | x in LockedUses(newly) ensures x !in LockedUses(before) {
        var k :| 0 <= k < |newly| && newly[k].locked && x in UseSet(newly[k]);
        forall j | 0 <= j < |before| && before[j].locked ensures x !in UseSet(before[j]) {
          if j < k {
            assert UseSet(out[j]) !! UseSet(out[k]);
          } else {
            assert UseSet(out[k]) !! UseSet(out[j]);
          }
        }
      }
    }
    if LockedDiffer(before) && LockedDiffer(newly) && LockedUses(newly) !! LockedUses(before) {
      forall i, j | 0 <= i < j < |out| && out[i].locked && out[j].locked ensures UseSet(out[i]) !! UseSet(out[j]) {
        assert before[i].locked ==> UseSet(out[i]) <= LockedUses(before);
        assert before[j].locked ==> UseSet(out[j]) <= LockedUses(before);
        assert newly[i].locked ==> UseSet(out[i]) <= LockedUses(newly);
        assert newly[j].locked ==> UseSet(out[j]) <= LockedUses(newly);
      }
    }
  }

  /** The claims of both passes, which succeed exactly when all locked payload types differ. */
  lemma ClaimsIff(params: seq<Params>, remote: seq<Params>, score: Score)
    ensures var out := LockAll(params, remote, score);
            ClaimAll(ClaimAll(Some({}), params), NewlyLocked(params, remote, score)) ==
            if LockedDiffer(out) then Some(LockedUses(out)) else None
  {
    ClaimAllIff({}, params);
    ClaimAllIff(LockedUses(params), NewlyLocked(params, remote, score));
    ClaimAllOfNone(NewlyLocked(params, remote, score));
    SplitByAge(params, remote, score);
    hide LockAll, NewlyLocked, LockedDiffer, LockedUses, ClaimAll;
    assert {} + LockedUses(params) == LockedUses(params);
  }

  // ---------- What is reassigned ----------

  /** The new payload types of a codec, among what it uses after. */
  function Moved(before: Params, after: Params): set<Pt> {
    (if after.pt != before.pt then {after.pt} else {}) +
    (if after.resend.Some? && after.resend != before.resend then {after.resend.value} else {})
  }

  function AllMoved(before: seq<Params>, after: seq<Params>): set<Pt>
    requires |before| == |after|
  {
    set k, x | 0 <= k < |before| && x in Moved(before[k], after[k]) :: x
  }

  lemma MoveFacts(pt: Pt, c: set<Pt>)
    ensures Move(pt, c).Some? ==>
              var (v, c') := Move(pt, c).value;
              v !in c && (v == pt <==> pt !in c) && c' == if v == pt then c else c + {v}
  {
  }

  /** Two searches, one after the other. */
  lemma TwoMoves(c: set<Pt>, pt: Pt, v: Pt, c1: set<Pt>, resend: Pt, w: Pt, c2: set<Pt>)
    requires v !in c && (v == pt <==> pt !in c) && c1 == if v == pt then c else c + {v}
    requires w !in c1 && (w == resend <==> resend !in c1) && c2 == if w == resend then c1 else c1 + {w}
    ensures {v, w} !! c && c2 == c + ((if v != pt then {v} else {}) + (if w != resend then {w} else {}))
    ensures v != pt ==> w != v
    ensures v == pt && w == resend <==> {pt, resend} !! c
  {
  }

  lemma MoveUsesFacts(p: Params, c: set<Pt>)
    requires MoveUses(p, c).Some?
    ensures var (r, c') := MoveUses(p, c).value;
            && r == p.(pt := r.pt, resend := r.resend) && (r.resend.Some? <==> p.resend.Some?)
            && UseSet(r) !! c && c' == c + Moved(p, r)
            && (r.pt != p.pt ==> r.resend != Some(r.pt))
            && (r == p <==> UseSet(p) !! c)
  {
    var (r, c') := MoveUses(p, c).value;
    MoveFacts(p.pt, c);
    UsesAre(p);
    UsesAre(r);
    if p.resend.None? {
      hide Move, UseSet;
      assert (if r.pt != p.pt then {r.pt} else {}) + {} == Moved(p, r);
    } else {
      var c1 := Move(p.pt, c).value.1;
      MoveFacts(p.resend.value, c1);
      hide Move, UseSet;
      TwoMoves(c, p.pt, r.pt, c1, p.resend.value, r.resend.value, c');
    }
  }

  lemma UsesAre(p: Params)
    ensures UseSet(p) == if p.resend.Some? then {p.pt, p.resend.value} else {p.pt}
  {
  }

  lemma AllMovedOfOneMore(before: seq<Params>, after: seq<Params>, p: Params, q: Params)
    requires |before| == |after|
    ensures AllMoved(before + [p], after + [q]) == AllMoved(before, after) + Moved(p, q)
  {
    var b, a := before + [p], after + [q];
    assert b[|before|] == p && a[|after|] == q;
    assert forall k | 0 <= k < |before| :: b[k] == before[k] && a[k] == after[k];
  }

  /** What holds of open codecs after reassignment, with c claimed before. */
  predicate OutOfTheWay(before: seq<Params>, after: seq<Params>, c: set<Pt>)
    requires |before| == |after|
  {
    && (forall k | 0 <= k < |before| && before[k].locked :: after[k] == before[k])
    && (forall k | 0 <= k < |before| && !before[k].locked ::
          && after[k] == before[k].(pt := after[k].pt, resend := after[k].resend)
          && (after[k].resend.Some? <==> before[k].resend.Some?)
          && UseSet(after[k]) !! c
          && (after[k].pt != before[k].pt ==> after[k].resend != Some(after[k].pt)))
    && (forall i, j | 0 <= i < j < |before| && !before[j].locked :: UseSet(after[j]) !! Moved(before[i], after[i]))
  }

  lemma OutOfTheWayOfOneMore(before: seq<Params>, after: seq<Params>, c: set<Pt>, p: Params, q: Params)
    requires |before| == |after| && OutOfTheWay(before, after, c)
    requires p.locked ==> q == p
    requires !p.locked ==>
               && q == p.(pt := q.pt, resend := q.resend) && (q.resend.Some? <==> p.resend.Some?)
               && UseSet(q) !! c && UseSet(q) !! AllMoved(before, after)
               && (q.pt != p.pt ==> q.resend != Some(q.pt))
    ensures OutOfTheWay(before + [p], after + [q], c)
  {
    var b, a := before + [p], after + [q];
    assert b[|before|] == p && a[|after|] == q;
    assert forall k | 0 <= k < |before| :: b[k] == before[k] && a[k] == after[k];
    hide UseSet, Moved;
    forall i, j | 0 <= i < j < |b| && !b[j].locked ensures UseSet(a[j]) !! Moved(b[i], a[i]) {
      if j == |before| {
        assert Moved(before[i], after[i]) <= AllMoved(before, after);
      }
    }
  }

  lemma {:induction false} MoveAllFacts(params: seq<Params>, c: set<Pt>)
    requires MoveAll(params, c).Some?
    ensures var (r, c') := MoveAll(params, c).value;
            OutOfTheWay(params, r, c) && c' == c + AllMoved(params, r)
  {
    if params == [] {
      assert c + AllMoved([], []) == c;
    } else {
      var n := |params| - 1;
      var before, p := params[..n], params[n];
      assert params[..n + 1] == params && before + [p] == params;
      MoveAllNext(params, n, c);
      hide MoveAll, MoveUses, UseSet, Moved, OutOfTheWay, AllMoved;
      MoveAllFacts(before, c);
      var (r, claimed) := MoveAll(before, c).value;
      var q := p;
      if !p.locked {
        MoveUsesFacts(p, claimed);
        q := MoveUses(p, claimed).value.0;
      } else {
        NothingMoved(p, claimed);
      }
      AllMovedOfOneMore(before, r, p, q);
      Regroup(c, AllMoved(before, r), Moved(p, q));
      OutOfTheWayOfOneMore(before, r, c, p, q);
    }
  }

  lemma NothingMoved(p: Params, c: set<Pt>)
    ensures c + Moved(p, p) == c
  {
  }

  lemma Regroup(a: set<Pt>, b: set<Pt>, c: set<Pt>)
    ensures a + b + c == a + (b + c)
  {
  }

  // ---------- The ranges suffice ----------

  function PreferredSet(n: nat): set<Pt>
    requires n <= RANGES
  {
    if n == 0 then {} else PreferredSet(n - 1) + {Preferred(n - 1)}
  }

  lemma {:induction false} PreferredDiffer(n: nat)
    requires n <= RANGES
    ensures |PreferredSet(n)| == n
    ensures forall x | x in PreferredSet(n) :: exists k :: 0 <= k < n && x == Preferred(k)
  {
    if n > 0 {
      PreferredDiffer(n - 1);
    }
  }

  lemma {:induction false} PreferredIsClaimed(c: set<Pt>, n: nat)
    requires n <= RANGES && forall k | 0 <= k < n :: Preferred(k) in c
    ensures PreferredSet(n) <= c
  {
    if n > 0 {
      PreferredIsClaimed(c, n - 1);
    }
  }

  lemma FreeIsLeft(c: set<Pt>)
    ensures FirstFree(c, 0).None? ==> |c| >= RANGES
  {
    hide PreferredSet, Preferred;
    if FirstFree(c, 0).None? {
      PreferredDiffer(RANGES);
      PreferredIsClaimed(c, RANGES);
      SubsetIsSmaller(PreferredSet(RANGES), c);
    }
  }

  function OpenCount(params: seq<Params>): nat {
    if params == [] then 0
    else OpenCount(params[..|params| - 1]) + if params[|params| - 1].locked then 0 else 1
  }

  lemma {:induction false} MoveAllWorks(params: seq<Params>, c: set<Pt>)
    requires |c| + 2 * OpenCount(params) <= RANGES
    ensures MoveAll(params, c).Some? && |MoveAll(params, c).value.1| <= |c| + 2 * OpenCount(params)
  {
    if params != [] {
      var n := |params| - 1;
      MoveAllWorks(params[..n], c);
      var claimed := MoveAll(params[..n], c).value.1;
      if !params[n].locked {
        FreeIsLeft(claimed);
        MoveFacts(params[n].pt, claimed);
        FreeIsLeft(Move(params[n].pt, claimed).value.1);
      }
    }
  }

  lemma TwoMore(c: set<Pt>, p: Params)
    ensures |c + UseSet(p)| <= |c| + 2
  {
    var uses := {p.pt} + if p.resend.Some? then {p.resend.value} else {};
    assert UseSet(p) <= uses;
    SubsetIsSmaller(c + UseSet(p), c + uses);
    assert c + uses == c + {p.pt} + if p.resend.Some? then {p.resend.value} else {};
  }

  lemma {:induction false} FewClaims(params: seq<Params>)
    ensures |LockedUses(params)| + 2 * OpenCount(params) <= 2 * |params|
  {
    if params != [] {
      var n := |params| - 1;
      var before, p := params[..n], params[n];
      FewClaims(before);
      assert before + [p] == params;
      LockedUsesOfOneMore(before, p);
      TwoMore(LockedUses(before), p);
      hide LockedUses, UseSet;
    } else {
      assert LockedUses([]) == {};
    }
  }

  // ---------- The update ----------

  /** With at most 43 codecs, the update fails exactly when two of the payload types to be locked are the same. */
  lemma UpdateWorksIff(params: seq<Params>, remote: seq<Params>, score: Score)
    requires |params| <= 43
    ensures Updated(params, remote, score).Some? <==> LockedDiffer(LockAll(params, remote, score))
  {
    var out := LockAll(params, remote, score);
    ClaimsIff(params, remote, score);
    hide LockAll, LockedDiffer, ClaimAll, NewlyLocked;
    FewClaims(out);
    if LockedDiffer(out) {
      MoveAllWorks(out, LockedUses(out));
    }
  }

  /**
   After an update, what was locked is as it was, what the remote side offers is locked with its payload types, these
   differ from each other and from all payload types of open codecs, and those that were reassigned differ from each
   other and from all that open codecs after them use.
   */
  lemma UpdateKeepsApart(params: seq<Params>, remote: seq<Params>, score: Score)
    requires Updated(params, remote, score).Some?
    ensures var r, out := Updated(params, remote, score).value, LockAll(params, remote, score);
            && |r| == |params| && LockedDiffer(r)
            && (forall k | 0 <= k < |r| :: r[k].locked <==> params[k].locked || BestMatch(params[k], remote, score).Some?)
            && (forall k | 0 <= k < |r| && r[k].locked :: r[k] == Locked(params[k], remote, score))
            && (forall k | 0 <= k < |r| && !r[k].locked :: UseSet(r[k]) !! LockedUses(r))
            && (forall i, j | 0 <= i < j < |r| && !r[j].locked :: UseSet(r[j]) !! Moved(out[i], r[i]))
            && (forall k | 0 <= k < |r| && r[k].pt != out[k].pt :: r[k].resend != Some(r[k].pt))
  {
    var out := LockAll(params, remote, score);
    ClaimsIff(params, remote, score);
    MoveAllFacts(out, LockedUses(out));
    var r := Updated(params, remote, score).value;
    hide ClaimAll, NewlyLocked, MoveAll, UseSet, Moved, BestMatch;
    assert forall k | 0 <= k < |r| :: r[k].locked == out[k].locked && (out[k].locked ==> r[k] == out[k]);
    SameLocked(out, r);
  }

  /** The remote codec at j matches best: no other one has a higher score, and none after it has the same. */
  predicate IsBest(p: Params, remote: seq<Params>, score: Score, j: nat)
    requires j < |remote|
  {
    var best := score(p.spec, remote[j].spec);
    && best.Some?
    && forall k | 0 <= k < |remote| && score(p.spec, remote[k].spec).Some? ::
         var s := score(p.spec, remote[k].spec).value;
         s <= best.value && (k > j ==> s < best.value)
  }

  predicate Matches(p: Params, remote: seq<Params>, score: Score) {
    exists j :: 0 <= j < |remote| && score(p.spec, remote[j].spec).Some?
  }

  /** There is at most one best match. */
  lemma OneIsBest(p: Params, remote: seq<Params>, score: Score, i: nat, j: nat)
    requires i < |remote| && j < |remote| && IsBest(p, remote, score, i) && IsBest(p, remote, score, j)
    ensures i == j
  {
    assert score(p.spec, remote[i].spec).Some? && score(p.spec, remote[j].spec).Some?;
  }

  /**
   What an update makes of every codec: one that was locked is as it was; one that was open is locked if and only if some
   remote codec matches it, and then has the payload types of the best match; and no codec becomes another one.
   */
  lemma LocksToBestMatch(params: seq<Params>, remote: seq<Params>, score: Score)
    requires Updated(params, remote, score).Some?
    ensures var r := Updated(params, remote, score).value;
            && |r| == |params|
            && (forall k | 0 <= k < |r| && params[k].locked :: r[k] == params[k])
            && (forall k | 0 <= k < |r| && !params[k].locked :: r[k].locked <==> Matches(params[k], remote, score))
            && (forall k | 0 <= k < |r| && !params[k].locked && r[k].locked ::
                  exists j :: 0 <= j < |remote| && IsBest(params[k], remote, score, j))
            && (forall k, j | 0 <= k < |r| && !params[k].locked && 0 <= j < |remote| && IsBest(params[k], remote, score, j) ::
                  r[k].pt == remote[j].pt && r[k].resend == remote[j].resend)
            && (forall k | 0 <= k < |r| :: r[k].spec == params[k].spec)
            && (forall k | 0 <= k < |r| && !r[k].locked :: r[k].resend.Some? <==> params[k].resend.Some?)
  {
    var out := LockAll(params, remote, score);
    ClaimsIff(params, remote, score);
    MoveAllFacts(out, LockedUses(out));
    var r := Updated(params, remote, score).value;
    hide ClaimAll, NewlyLocked, MoveAll, UseSet, Moved, LockAll;
    forall k | 0 <= k < |params| && !params[k].locked
      ensures out[k].locked <==> Matches(params[k], remote, score)
      ensures out[k].locked ==> exists j :: 0 <= j < |remote| && IsBest(params[k], remote, score, j)
    {
      LockedIffMatches(params[k], remote, score);
    }
    forall k, j | 0 <= k < |params| && !params[k].locked && 0 <= j < |remote| && IsBest(params[k], remote, score, j)
      ensures out[k].locked && out[k].pt == remote[j].pt && out[k].resend == remote[j].resend
    {
      LocksToBest(params[k], remote, score, j);
    }
    hide IsBest, Matches;
  }

  lemma LockedIffMatches(p: Params, remote: seq<Params>, score: Score)
    requires !p.locked
    ensures Locked(p, remote, score).locked <==> Matches(p, remote, score)
    ensures Locked(p, remote, score).locked ==> exists j :: 0 <= j < |remote| && IsBest(p, remote, score, j)
  {
    hide BestMatch;
    var best := BestMatch(p, remote, score);
    if best.Some? {
      assert IsBest(p, remote, score, best.value);
    }
  }

  lemma LocksToBest(p: Params, remote: seq<Params>, score: Score, j: nat)
    requires !p.locked && j < |remote| && IsBest(p, remote, score, j)
    ensures var q := Locked(p, remote, score); q.locked && q.pt == remote[j].pt && q.resend == remote[j].resend
  {
    hide BestMatch;
    var best := BestMatch(p, remote, score);
    assert IsBest(p, remote, score, best.value);
    OneIsBest(p, remote, score, best.value, j);
  }

  lemma SameLocked(a: seq<Params>, b: seq<Params>)
    requires |a| == |b| && forall k | 0 <= k < |a| :: a[k].locked == b[k].locked && (a[k].locked ==> a[k] == b[k])
    ensures LockedDiffer(a) <==> LockedDiffer(b)
    ensures LockedUses(a) == LockedUses(b)
  {
  }
}
