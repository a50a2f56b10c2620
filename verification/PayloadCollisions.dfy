/**
 When the payload types of codecs that are still open stay different from each other. Codecs that keep their types do
 not claim them, so that a type that was given to a codec which had to move may be in use.
 */
module PayloadCollisions {
  import opened Bytes
  import opened PayloadTypes

  /** All payload types of open codecs differ. */
  predicate OpenDiffer(params: seq<Params>) {
    && (forall k | 0 <= k < |params| && !params[k].locked :: params[k].resend != Some(params[k].pt))
    && (forall i, j | 0 <= i < j < |params| && !params[i].locked && !params[j].locked ::
          UseSet(params[i]) !! UseSet(params[j]))
  }

  /** How many payload types of open codecs are among those given. */
  function HitCount(params: seq<Params>, c: set<Pt>): nat {
    if params == [] then 0
    else
      var p := params[|params| - 1];
      HitCount(params[..|params| - 1], c) + if p.locked then 0 else Hits(p, c)
  }

  function Hits(p: Params, c: set<Pt>): nat {
    (if p.pt in c then 1 else 0) + if p.resend.Some? && p.resend.value in c then 1 else 0
  }

  /** The claimed payload types and the next n free ones, in order of preference. */
  function ClaimFree(c: set<Pt>, n: nat): set<Pt> {
    if n == 0 then c
    else
      var before := ClaimFree(c, n - 1);
      var free := FirstFree(before, 0);
      if free.None? then before else before + {free.value}
  }

  /** Of the next free payload types, as many as have to be given out, none is in use by an open codec. */
  predicate NextFreeAreUnused(params: seq<Params>, c: set<Pt>) {
    FreeAreUnused(params, c, HitCount(params, c))
  }

  /** A codec keeps those of its payload types that were not claimed by negotiated codecs. */
  predicate KeepsUnclaimed(before: Params, after: Params, c: set<Pt>) {
    && (before.pt !in c ==> after.pt == before.pt)
    && (before.resend.Some? && before.resend.value !in c ==> after.resend == before.resend)
  }

  predicate AllKeepUnclaimed(before: seq<Params>, after: seq<Params>, c: set<Pt>)
    requires |before| == |after|
  {
    forall k | 0 <= k < |before| && !before[k].locked :: KeepsUnclaimed(before[k], after[k], c)
  }

  lemma {:induction false} ClaimFreeGrows(c: set<Pt>, h: nat, n: nat)
    requires h <= n
    ensures ClaimFree(c, h) <= ClaimFree(c, n)
    decreases n - h
  {
    hide FirstFree;
    if h < n {
      ClaimFreeGrows(c, h + 1, n);
    }
  }

  lemma ClaimFreeHas(c: set<Pt>, n: nat)
    ensures c <= ClaimFree(c, n)
  {
    hide FirstFree;
    ClaimFreeGrows(c, 0, n);
  }

  /** A claimed type is exchanged for the next free one, one that is not stays. */
  lemma MoveClaimsNext(pt: Pt, c: set<Pt>, h: nat)
    requires pt in c || pt !in ClaimFree(c, h)
    ensures Move(pt, ClaimFree(c, h)).Some? ==>
              var (v, c') := Move(pt, ClaimFree(c, h)).value;
              (v == pt <==> pt !in c) && c' == ClaimFree(c, if pt in c then h + 1 else h)
  {
    ClaimFreeHas(c, h);
    MoveFacts(pt, ClaimFree(c, h));
    hide FirstFree;
  }

  lemma MoveUsesClaimsNext(p: Params, c: set<Pt>, h: nat)
    requires MoveUses(p, ClaimFree(c, h)).Some?
    requires forall x | x in UseSet(p) && x !in c :: x !in ClaimFree(c, h + Hits(p, c))
    ensures var (r, c') := MoveUses(p, ClaimFree(c, h)).value;
            KeepsUnclaimed(p, r, c) && c' == ClaimFree(c, h + Hits(p, c))
  {
    UsesAre(p);
    hide ClaimFree, Move, UseSet, FirstFree;
    var h1 := if p.pt in c then h + 1 else h;
    ClaimFreeGrows(c, h, h + Hits(p, c));
    ClaimFreeGrows(c, h1, h + Hits(p, c));
    assert p.pt in UseSet(p);
    MoveClaimsNext(p.pt, c, h);
    if p.resend.Some? {
      assert p.resend.value in UseSet(p);
      MoveClaimsNext(p.resend.value, c, h1);
    }
  }

  /** None of the open codecs uses one of the next n free types. */
  predicate FreeAreUnused(params: seq<Params>, c: set<Pt>, n: nat) {
    forall k, x | 0 <= k < |params| && !params[k].locked && x in UseSet(params[k]) && x !in c :: x !in ClaimFree(c, n)
  }

  lemma FreeAreUnusedBefore(before: seq<Params>, p: Params, c: set<Pt>, n: nat)
    requires FreeAreUnused(before + [p], c, n)
    ensures FreeAreUnused(before, c, n)
    ensures !p.locked ==> forall x | x in UseSet(p) && x !in c :: x !in ClaimFree(c, n)
  {
    hide ClaimFree, UseSet;
    var all := before + [p];
    assert all[|before|] == p;
    assert forall k | 0 <= k < |before| :: before[k] == all[k];
  }

  lemma KeepOneMore(before: seq<Params>, after: seq<Params>, c: set<Pt>, p: Params, q: Params)
    requires |before| == |after|
    ensures AllKeepUnclaimed(before + [p], after + [q], c) <==>
            AllKeepUnclaimed(before, after, c) && (p.locked || KeepsUnclaimed(p, q, c))
  {
    hide KeepsUnclaimed;
    var b, a := before + [p], after + [q];
    assert b[|before|] == p && a[|after|] == q;
    assert forall k | 0 <= k < |before| :: b[k] == before[k] && a[k] == after[k];
  }

  lemma HitCountOfOneMore(before: seq<Params>, p: Params, c: set<Pt>)
    ensures HitCount(before + [p], c) == HitCount(before, c) + if p.locked then 0 else Hits(p, c)
  {
    assert (before + [p])[..|before|] == before;
  }

  /** With unused free types ahead, only claimed types are exchanged, for the next free ones in order. */
  lemma {:induction false} OnlyClaimedMove(params: seq<Params>, c: set<Pt>, n: nat)
    requires MoveAll(params, c).Some? && HitCount(params, c) <= n && FreeAreUnused(params, c, n)
    ensures var (r, c') := MoveAll(params, c).value;
            AllKeepUnclaimed(params, r, c) && c' == ClaimFree(c, HitCount(params, c))
  {
    hide ClaimFree, MoveUses, UseSet, FreeAreUnused, KeepsUnclaimed, AllKeepUnclaimed, HitCount, MoveAll;
    if |params| == 0 {
      NothingMoves(params, c);
      return;
    }
    var m := |params| - 1;
    var before, p := params[..m], params[m];
    assert params[..m + 1] == params && before + [p] == params;
    MoveAllNext(params, m, c);
    FreeAreUnusedBefore(before, p, c, n);
    HitCountOfOneMore(before, p, c);
    OnlyClaimedMove(before, c, n);
    var (r, claimed) := MoveAll(before, c).value;
    var h := HitCount(before, c);
    ClaimFreeGrows(c, h + (if p.locked then 0 else Hits(p, c)), n);
    if p.locked {
      KeepOneMore(before, r, c, p, p);
    } else {
      MoveUsesClaimsNext(p, c, h);
      KeepOneMore(before, r, c, p, MoveUses(p, claimed).value.0);
    }
  }

  lemma NothingMoves(params: seq<Params>, c: set<Pt>)
    requires |params| == 0
    ensures MoveAll(params, c) == Some(([], c)) && HitCount(params, c) == 0 && ClaimFree(c, 0) == c
    ensures AllKeepUnclaimed(params, [], c)
  {
  }

  lemma KeptMeansNotClaimed(p: Params, c: set<Pt>, h: nat)
    requires MoveUses(p, ClaimFree(c, h)).Some? && KeepsUnclaimed(p, MoveUses(p, ClaimFree(c, h)).value.0, c)
    ensures MoveUses(p, ClaimFree(c, h)).value.1 == ClaimFree(c, h + Hits(p, c))
  {
    hide ClaimFree, Move, UseSet, FirstFree;
    var h1 := if p.pt in c then h + 1 else h;
    MoveFacts(p.pt, ClaimFree(c, h));
    MoveClaimsNext(p.pt, c, h);
    if p.resend.Some? {
      MoveFacts(p.resend.value, ClaimFree(c, h1));
      MoveClaimsNext(p.resend.value, c, h1);
    }
  }

  /** When only claimed types are exchanged, the types given out are the next free ones, as many as were claimed. */
  lemma {:induction false} KeepingClaimsNext(params: seq<Params>, c: set<Pt>)
    requires MoveAll(params, c).Some? && AllKeepUnclaimed(params, MoveAll(params, c).value.0, c)
    ensures MoveAll(params, c).value.1 == ClaimFree(c, HitCount(params, c))
  {
    hide ClaimFree, MoveUses, UseSet, KeepsUnclaimed, AllKeepUnclaimed, HitCount, MoveAll;
    if |params| == 0 {
      NothingMoves(params, c);
      return;
    }
    var m := |params| - 1;
    var before, p := params[..m], params[m];
    assert params[..m + 1] == params && before + [p] == params;
    MoveAllNext(params, m, c);
    HitCountOfOneMore(before, p, c);
    var (r, claimed) := MoveAll(before, c).value;
    var q := if p.locked then p else MoveUses(p, claimed).value.0;
    KeepOneMore(before, r, c, p, q);
    KeepingClaimsNext(before, c);
    if !p.locked {
      KeptMeansNotClaimed(p, c, HitCount(before, c));
    }
  }

  // ---------- What stays different ----------

  /** What a codec uses after is new, or one of its payload types before. */
  lemma KeptOrMoved(before: Params, after: Params, x: Pt)
    requires before.resend.Some? <==> after.resend.Some?
    requires x in UseSet(after) && x !in Moved(before, after)
    ensures x in UseSet(before)
  {
    UsesAre(before);
    UsesAre(after);
  }

  /**
   Types of open codecs that differed still differ if and only if none that was given to a codec is one that a codec
   before it, or itself, has kept.
   */
  lemma OpenDifferAfterIff(before: seq<Params>, after: seq<Params>, c: set<Pt>)
    requires |before| == |after| && OutOfTheWay(before, after, c) && OpenDiffer(before)
    ensures OpenDiffer(after) <==>
            && (forall k | 0 <= k < |after| && !after[k].locked :: after[k].resend != Some(after[k].pt))
            && (forall i, j | 0 <= i < j < |after| && !after[i].locked && !after[j].locked ::
                  UseSet(after[i]) !! Moved(before[j], after[j]))
  {
    assert forall k | 0 <= k < |after| :: after[k].locked == before[k].locked;
    if forall i, j | 0 <= i < j < |after| && !after[i].locked && !after[j].locked ::
         UseSet(after[i]) !! Moved(before[j], after[j])
    {
      forall i, j, x | 0 <= i < j < |after| && !after[i].locked && !after[j].locked && x in UseSet(after[i])
        ensures x !in UseSet(after[j])
      {
        StillApart(before, after, i, j, c, x);
      }
    }
    if OpenDiffer(after) {
      forall i, j | 0 <= i < j < |after| && !after[i].locked && !after[j].locked
        ensures UseSet(after[i]) !! Moved(before[j], after[j])
      {
        MovedIsUsed(before[j], after[j]);
      }
    }
  }

  lemma MovedIsUsed(before: Params, after: Params)
    ensures Moved(before, after) <= UseSet(after)
  {
    UsesAre(after);
  }

  lemma StillApart(before: seq<Params>, after: seq<Params>, i: nat, j: nat, c: set<Pt>, x: Pt)
    requires |before| == |after| && OutOfTheWay(before, after, c) && OpenDiffer(before)
    requires i < j < |after| && !before[i].locked && !before[j].locked
    requires x in UseSet(after[i]) && x !in Moved(before[j], after[j])
    ensures x !in UseSet(after[j])
  {
    hide UseSet, Moved;
    if x in UseSet(after[j]) {
      KeptOrMoved(before[j], after[j], x);
      KeptOrMoved(before[i], after[i], x);
    }
  }

  /**
   When the types of open codecs differ before, they differ afterwards, with no type given up that no negotiated codec
   has claimed, if and only if none of the next free types, as many as open codecs have to give up, is in use by an
   open codec.
   */
  lemma MovedStayIff(params: seq<Params>, c: set<Pt>)
    requires MoveAll(params, c).Some? && OpenDiffer(params)
    ensures var r := MoveAll(params, c).value.0;
            OpenDiffer(r) && AllKeepUnclaimed(params, r, c) <==> NextFreeAreUnused(params, c)
  {
    var (r, claimed) := MoveAll(params, c).value;
    MoveAllFacts(params, c);
    OpenDifferAfterIff(params, r, c);
    if NextFreeAreUnused(params, c) {
      OnlyClaimedMove(params, c, HitCount(params, c));
      NothingCollides(params, r, c);
    }
    if OpenDiffer(r) && AllKeepUnclaimed(params, r, c) {
      KeepingClaimsNext(params, c);
      NextWasUnused(params, r, c);
    }
  }

  /** What a codec used before and does not have to give up is not handed out. */
  lemma UnclaimedIsNotMoved(params: seq<Params>, r: seq<Params>, c: set<Pt>, i: nat, j: nat, x: Pt)
    requires |params| == |r| && NextFreeAreUnused(params, c)
    requires c + AllMoved(params, r) == ClaimFree(c, HitCount(params, c))
    requires i < |r| && j < |r| && !params[i].locked && x in UseSet(params[i]) && x !in c
    ensures x !in Moved(params[j], r[j])
  {
    hide ClaimFree, HitCount, UseSet, Moved;
    assert x !in ClaimFree(c, HitCount(params, c));
    assert x !in AllMoved(params, r);
  }

  /** Types that are handed out are not those that are kept. */
  lemma NothingCollides(params: seq<Params>, r: seq<Params>, c: set<Pt>)
    requires |params| == |r| && OutOfTheWay(params, r, c) && OpenDiffer(params) && NextFreeAreUnused(params, c)
    requires c + AllMoved(params, r) == ClaimFree(c, HitCount(params, c))
    ensures OpenDiffer(r)
  {
    hide ClaimFree, HitCount, NextFreeAreUnused, AllMoved;
    forall k | 0 <= k < |r| && !r[k].locked ensures r[k].resend != Some(r[k].pt) {
      UsesAre(params[k]);
      UsesAre(r[k]);
      if r[k].pt == params[k].pt {
        UnclaimedIsNotMoved(params, r, c, k, k, r[k].pt);
      }
    }
    forall i, j, x | 0 <= i < j < |r| && !r[i].locked && !r[j].locked && x in UseSet(r[i])
      ensures x !in Moved(params[j], r[j])
    {
      MovedIsUsed(params[j], r[j]);
      if x !in Moved(params[i], r[i]) {
        KeptOrMoved(params[i], r[i], x);
        UnclaimedIsNotMoved(params, r, c, i, j, x);
      }
    }
    OpenDifferAfterIff(params, r, c);
    hide UseSet, Moved;
  }

  /** Where nothing collides, what was handed out was not in use. */
  lemma NextWasUnused(params: seq<Params>, r: seq<Params>, c: set<Pt>)
    requires |params| == |r| && OutOfTheWay(params, r, c) && OpenDiffer(r) && AllKeepUnclaimed(params, r, c)
    requires c + AllMoved(params, r) == ClaimFree(c, HitCount(params, c))
    ensures NextFreeAreUnused(params, c)
  {
    hide ClaimFree, HitCount;
    forall k, x | 0 <= k < |params| && !params[k].locked && x in UseSet(params[k]) && x !in c
      ensures x !in AllMoved(params, r)
    {
      forall j | 0 <= j < |r| ensures x !in Moved(params[j], r[j]) {
        MovedElsewhere(params, r, c, k, j, x);
      }
    }
  }

  lemma MovedElsewhere(params: seq<Params>, r: seq<Params>, c: set<Pt>, k: nat, j: nat, x: Pt)
    requires |params| == |r| && OutOfTheWay(params, r, c) && OpenDiffer(r) && AllKeepUnclaimed(params, r, c)
    requires k < |r| && j < |r| && !params[k].locked && x in UseSet(params[k]) && x !in c
    ensures x !in Moved(params[j], r[j])
  {
    UsesAre(params[k]);
    UsesAre(r[k]);
    assert x in UseSet(r[k]);
    if j != k {
      MovedIsUsed(params[j], r[j]);
      hide UseSet;
      assert !params[j].locked ==> (if j < k then UseSet(r[j]) !! UseSet(r[k]) else UseSet(r[k]) !! UseSet(r[j]));
    }
  }

  // ---------- Exactly when they differ ----------

  /** How many of a codec's types are claimed at its turn, when the next h free types were given out before. */
  function GivenTo(p: Params, c: set<Pt>, h: nat): nat {
    var first := if p.pt in ClaimFree(c, h) then 1 else 0;
    first + if p.resend.Some? && p.resend.value in ClaimFree(c, h + first) then 1 else 0
  }

  /** How many free types are given out. */
  function GivenOut(params: seq<Params>, c: set<Pt>): nat {
    if |params| == 0 then 0
    else
      var p, h := params[|params| - 1], GivenOut(params[..|params| - 1], c);
      h + if p.locked then 0 else GivenTo(p, c, h)
  }

  /** Those of a codec's types that are claimed in the end were so at its turn: then it did not keep them. */
  predicate ClaimedInTime(p: Params, c: set<Pt>, h: nat, claimed: set<Pt>) {
    var first := if p.pt in ClaimFree(c, h) then 1 else 0;
    && (p.pt in claimed ==> first == 1)
    && (p.resend.Some? && p.resend.value in claimed ==> p.resend.value in ClaimFree(c, h + first))
  }

  predicate AllClaimedInTime(params: seq<Params>, c: set<Pt>, claimed: set<Pt>) {
    forall k | 0 <= k < |params| && !params[k].locked ::
      ClaimedInTime(params[k], c, GivenOut(params[..k], c), claimed)
  }

  lemma GivenOutOneMore(before: seq<Params>, p: Params, c: set<Pt>)
    ensures var h := GivenOut(before, c);
            GivenOut(before + [p], c) == h + if p.locked then 0 else GivenTo(p, c, h)
  {
    assert (before + [p])[..|before|] == before;
  }

  lemma {:induction false} GivenOutGrows(params: seq<Params>, c: set<Pt>, k: nat)
    requires k <= |params|
    ensures GivenOut(params[..k], c) <= GivenOut(params, c)
    decreases |params|
  {
    hide GivenTo;
    if k == |params| {
      assert params[..k] == params;
    } else {
      var m := |params| - 1;
      GivenOutGrows(params[..m], c, k);
      assert params[..m][..k] == params[..k];
    }
  }

  lemma MoveGives(pt: Pt, c: set<Pt>, h: nat)
    requires Move(pt, ClaimFree(c, h)).Some?
    ensures Move(pt, ClaimFree(c, h)).value.1 == ClaimFree(c, h + if pt in ClaimFree(c, h) then 1 else 0)
  {
    hide FirstFree;
  }

  lemma MoveUsesGives(p: Params, c: set<Pt>, h: nat)
    requires MoveUses(p, ClaimFree(c, h)).Some?
    ensures MoveUses(p, ClaimFree(c, h)).value.1 == ClaimFree(c, h + GivenTo(p, c, h))
  {
    hide ClaimFree, Move;
    MoveGives(p.pt, c, h);
    if p.resend.Some? {
      MoveGives(p.resend.value, c, h + if p.pt in ClaimFree(c, h) then 1 else 0);
    }
  }

  /** What is claimed after some codecs: what was claimed before, and the next free types, as many as were given out. */
  lemma {:induction false} MoveAllGives(params: seq<Params>, c: set<Pt>)
    requires MoveAll(params, c).Some?
    ensures MoveAll(params, c).value.1 == ClaimFree(c, GivenOut(params, c))
  {
    hide ClaimFree, MoveUses, GivenTo, MoveAll, GivenOut;
    if |params| == 0 {
      NothingGiven(params, c);
      return;
    }
    var m := |params| - 1;
    var before, p := params[..m], params[m];
    assert params[..m + 1] == params && before + [p] == params;
    MoveAllNext(params, m, c);
    GivenOutOneMore(before, p, c);
    MoveAllGives(before, c);
    if !p.locked {
      MoveUsesGives(p, c, GivenOut(before, c));
    }
  }

  lemma NothingGiven(params: seq<Params>, c: set<Pt>)
    requires |params| == 0
    ensures MoveAll(params, c) == Some(([], c)) && GivenOut(params, c) == 0 && ClaimFree(c, 0) == c
  {
  }

  // ---------- One codec more ----------

  /** A type that is not claimed in the end is kept by a codec that has it, and not given to one that has not. */
  lemma OneKeeps(p: Params, c: set<Pt>, x: Pt)
    requires MoveUses(p, c).Some? && x !in MoveUses(p, c).value.1
    ensures x in UseSet(p) <==> x in UseSet(MoveUses(p, c).value.0)
  {
    var (q, claimed) := MoveUses(p, c).value;
    UsesAre(p);
    UsesAre(q);
    MoveFacts(p.pt, c);
    if p.resend.Some? {
      MoveFacts(p.resend.value, Move(p.pt, c).value.1);
    }
    hide Move, UseSet;
  }

  lemma {:induction false} AllKeep(params: seq<Params>, c: set<Pt>, i: nat, x: Pt)
    requires MoveAll(params, c).Some? && i < |params| && x !in MoveAll(params, c).value.1
    ensures var r := MoveAll(params, c).value.0;
            r[i].locked == params[i].locked && (x in UseSet(params[i]) <==> x in UseSet(r[i]))
    decreases |params|
  {
    hide MoveUses, MoveAll, UseSet;
    var m := |params| - 1;
    var p := params[m];
    assert params[..m + 1] == params;
    MoveAllNext(params, m, c);
    var before := MoveAll(params[..m], c).value;
    if !p.locked {
      MoveUsesFacts(p, before.1);
    }
    if i < m {
      AllKeep(params[..m], c, i, x);
    } else if !p.locked {
      OneKeeps(p, before.1, x);
    }
  }

  lemma OpenDifferOneMore(r: seq<Params>, q: Params)
    ensures OpenDiffer(r + [q]) <==>
            OpenDiffer(r) &&
            (q.locked ||
             (q.resend != Some(q.pt) && forall i | 0 <= i < |r| && !r[i].locked :: UseSet(r[i]) !! UseSet(q)))
  {
    hide UseSet;
    var all := r + [q];
    assert all[|r|] == q && forall i | 0 <= i < |r| :: all[i] == r[i];
  }

  /** What is given out between a codec's turn and the end is what it must not have kept. */
  lemma InTimeOneMore(p: Params, c: set<Pt>, h: nat, n: nat, claimed: set<Pt>)
    requires ClaimFree(c, n) <= claimed && h + GivenTo(p, c, h) <= n
    ensures ClaimedInTime(p, c, h, claimed) <==>
            ClaimedInTime(p, c, h, ClaimFree(c, n)) && UseSet(p) !! claimed - ClaimFree(c, n)
  {
    UsesAre(p);
    var first := if p.pt in ClaimFree(c, h) then 1 else 0;
    ClaimFreeGrows(c, h, n);
    ClaimFreeGrows(c, h + first, n);
    hide ClaimFree, UseSet;
  }

  lemma AllInTimeBefore(before: seq<Params>, p: Params, c: set<Pt>, claimed: set<Pt>)
    ensures AllClaimedInTime(before + [p], c, claimed) <==>
            AllClaimedInTime(before, c, claimed) && (p.locked || ClaimedInTime(p, c, GivenOut(before, c), claimed))
  {
    hide ClaimedInTime, GivenOut;
    var all := before + [p];
    assert all[..|before|] == before && all[|before|] == p;
    assert forall k | 0 <= k < |before| :: all[k] == before[k] && all[..k] == before[..k];
  }

  lemma AllInTimeOneMore(before: seq<Params>, c: set<Pt>, claimed: set<Pt>)
    requires ClaimFree(c, GivenOut(before, c)) <= claimed
    ensures AllClaimedInTime(before, c, claimed) <==>
            && AllClaimedInTime(before, c, ClaimFree(c, GivenOut(before, c)))
            && forall i | 0 <= i < |before| && !before[i].locked ::
                 UseSet(before[i]) !! claimed - ClaimFree(c, GivenOut(before, c))
  {
    hide ClaimFree, UseSet, ClaimedInTime, GivenOut, GivenTo;
    var n := GivenOut(before, c);
    forall i | 0 <= i < |before| && !before[i].locked
      ensures ClaimedInTime(before[i], c, GivenOut(before[..i], c), claimed) <==>
              ClaimedInTime(before[i], c, GivenOut(before[..i], c), ClaimFree(c, n)) &&
              UseSet(before[i]) !! claimed - ClaimFree(c, n)
    {
      GivenOutOneMore(before[..i], before[i], c);
      assert before[..i] + [before[i]] == before[..i + 1];
      GivenOutGrows(before, c, i + 1);
      InTimeOneMore(before[i], c, GivenOut(before[..i], c), n, claimed);
    }
  }

  /** Two searches for two types of one codec: they end at different types if and only if nothing kept was given out. */
  lemma TwoMovesInTime(c: set<Pt>, pt: Pt, v: Pt, c1: set<Pt>, resend: Pt, w: Pt, c2: set<Pt>)
    requires v !in c && (v == pt <==> pt !in c) && c1 == if v == pt then c else c + {v}
    requires w !in c1 && (w == resend <==> resend !in c1) && c2 == if w == resend then c1 else c1 + {w}
    requires pt != resend
    ensures v != w <==> (pt in c2 ==> pt in c) && (resend in c2 ==> resend in c1)
  {
  }

  /** The last codec: its own types differ afterwards if and only if its main type was not given away in between. */
  lemma LastInTime(p: Params, c: set<Pt>, h: nat)
    requires MoveUses(p, ClaimFree(c, h)).Some? && p.resend != Some(p.pt)
    ensures var (q, claimed) := MoveUses(p, ClaimFree(c, h)).value;
            q.resend != Some(q.pt) <==> ClaimedInTime(p, c, h, claimed)
  {
    hide ClaimFree, Move;
    var before := ClaimFree(c, h);
    var (q, claimed) := MoveUses(p, before).value;
    MoveGives(p.pt, c, h);
    MoveFacts(p.pt, before);
    if p.resend.Some? {
      var c1 := Move(p.pt, before).value.1;
      MoveFacts(p.resend.value, c1);
      TwoMovesInTime(before, p.pt, q.pt, c1, p.resend.value, q.resend.value, claimed);
    }
  }

  /** Two codecs, the later one of which had its turn just now. */
  lemma PairDiffers(p: Params, r: Params, q: Params, q': Params, c: set<Pt>, claimed: set<Pt>)
    requires UseSet(p) !! UseSet(q) && UseSet(q') !! c && claimed == c + Moved(q, q')
    requires q.resend.Some? <==> q'.resend.Some?
    requires forall x | x !in c :: x in UseSet(p) <==> x in UseSet(r)
    ensures UseSet(r) !! UseSet(q') <==> UseSet(p) !! claimed - c
  {
    hide UseSet, Moved;
    MovedIsUsed(q, q');
    forall x | x in UseSet(q') && x !in Moved(q, q') ensures x in UseSet(q) {
      KeptOrMoved(q, q', x);
    }
    if UseSet(r) !! UseSet(q') {
      forall x | x in UseSet(p) ensures x !in claimed - c {
      }
    }
    if UseSet(p) !! claimed - c {
      forall x | x in UseSet(r) ensures x !in UseSet(q') {
      }
    }
  }

  /**
   When the types of open codecs differ before the reassignment, they differ afterwards if and only if every type of an
   open codec that is claimed by then was so at the turn of that codec.
   */
  lemma {:induction false} MovedDifferIff(params: seq<Params>, c: set<Pt>)
    requires MoveAll(params, c).Some? && OpenDiffer(params)
    ensures OpenDiffer(MoveAll(params, c).value.0) <==>
            AllClaimedInTime(params, c, ClaimFree(c, GivenOut(params, c)))
  {
    hide ClaimFree, MoveUses, GivenTo, MoveAll, GivenOut, OpenDiffer, AllClaimedInTime, ClaimedInTime, UseSet, Moved;
    if |params| == 0 {
      NothingDiffers(params, c);
      return;
    }
    var m := |params| - 1;
    var before, p := params[..m], params[m];
    assert params[..m + 1] == params && before + [p] == params;
    MoveAllNext(params, m, c);
    MoveAllGives(before, c);
    MoveAllGives(params, c);
    OpenDifferOneMore(before, p);
    MovedDifferIff(before, c);
    var (r, claimed) := MoveAll(before, c).value;
    var all := MoveAll(params, c).value.1;
    AllInTimeBefore(before, p, c, all);
    if p.locked {
      OpenDifferOneMore(r, p);
    } else {
      var q := MoveUses(p, claimed).value.0;
      MoveUsesFacts(p, claimed);
      AllInTimeOneMore(before, c, all);
      LastInTime(p, c, GivenOut(before, c));
      OpenDifferOneMore(r, q);
      LocksStay(before, c);
      forall i | 0 <= i < m && !before[i].locked
        ensures r[i].locked == before[i].locked
        ensures UseSet(r[i]) !! UseSet(q) <==> UseSet(before[i]) !! all - claimed
      {
        KeepsAll(before, c, i);
        PairDiffers(before[i], r[i], p, q, claimed, all);
      }
    }
  }

  lemma KeepsAll(params: seq<Params>, c: set<Pt>, i: nat)
    requires MoveAll(params, c).Some? && i < |params|
    ensures var r := MoveAll(params, c).value.0;
            forall x | x !in MoveAll(params, c).value.1 :: x in UseSet(params[i]) <==> x in UseSet(r[i])
  {
    forall x | x !in MoveAll(params, c).value.1
      ensures x in UseSet(params[i]) <==> x in UseSet(MoveAll(params, c).value.0[i])
    {
      AllKeep(params, c, i, x);
    }
  }

  lemma LocksStay(params: seq<Params>, c: set<Pt>)
    requires MoveAll(params, c).Some?
    ensures forall i | 0 <= i < |params| :: MoveAll(params, c).value.0[i].locked == params[i].locked
  {
    MoveAllFacts(params, c);
  }

  lemma NothingDiffers(params: seq<Params>, c: set<Pt>)
    requires |params| == 0
    ensures MoveAll(params, c) == Some(([], c)) && OpenDiffer([])
    ensures forall claimed :: AllClaimedInTime(params, c, claimed)
  {
  }

  // ---------- The update ----------

  /**
   An update of codecs whose open payload types differ leaves them different, with none given up that was not
   negotiated for another codec, if and only if none of the next free types, as many as are given up, is in use.
   */
  lemma OpenTypesStayIff(params: seq<Params>, remote: seq<Params>, score: Score)
    requires Updated(params, remote, score).Some? && OpenDiffer(LockAll(params, remote, score))
    ensures var r, out := Updated(params, remote, score).value, LockAll(params, remote, score);
            && |r| == |out|
            && (OpenDiffer(r) && AllKeepUnclaimed(out, r, LockedUses(out)) <==> NextFreeAreUnused(out, LockedUses(out)))
  {
    var out := LockAll(params, remote, score);
    ClaimsIff(params, remote, score);
    hide ClaimAll, NewlyLocked, LockAll, MoveAll;
    MovedStayIff(out, LockedUses(out));
  }

  /**
   After an update, open types that differed still differ if and only if every type of an open codec that is claimed by
   then, because it was negotiated or given out, was so when it was that codec's turn.
   */
  lemma OpenTypesDifferIff(params: seq<Params>, remote: seq<Params>, score: Score)
    requires Updated(params, remote, score).Some? && OpenDiffer(params)
    ensures var out := LockAll(params, remote, score);
            var c := LockedUses(out);
            OpenDiffer(Updated(params, remote, score).value) <==>
            AllClaimedInTime(out, c, ClaimFree(c, GivenOut(out, c)))
  {
    var out := LockAll(params, remote, score);
    ClaimsIff(params, remote, score);
    LockingKeepsOpenDiffer(params, remote, score);
    hide ClaimAll, NewlyLocked, LockAll, MoveAll, OpenDiffer, AllClaimedInTime, GivenOut, ClaimFree;
    MovedDifferIff(out, LockedUses(out));
  }

  /** What is locked by an update does not make the remaining open types equal. */
  lemma LockingKeepsOpenDiffer(params: seq<Params>, remote: seq<Params>, score: Score)
    requires OpenDiffer(params)
    ensures OpenDiffer(LockAll(params, remote, score))
  {
    hide BestMatch, UseSet;
    var out := LockAll(params, remote, score);
    assert forall k | 0 <= k < |out| && !out[k].locked :: out[k] == params[k];
  }

  // ---------- Where types do collide ----------

  /** Three codecs as configured, and an offer for the first one that takes the type of the third. */
  const LOCAL := [Params(100, None, "a", false), Params(96, None, "b", false), Params(105, None, "c", false)]
  const REMOTE := [Params(105, None, "a", false)]
  const LOCKED := [Params(105, None, "a", true), LOCAL[1], LOCAL[2]]

  function SameSpec(): Score {
    (x, y) => if x == y then Some(100) else None
  }

  lemma LocalLocked()
    ensures LockAll(LOCAL, REMOTE, SameSpec()) == LOCKED && LockedUses(LOCKED) == {105}
  {
    assert BestMatch(LOCAL[0], REMOTE, SameSpec()) == Some(0);
    assert BestMatch(LOCAL[1], REMOTE, SameSpec()) == None && BestMatch(LOCAL[2], REMOTE, SameSpec()) == None;
    assert LockAll(LOCAL, REMOTE, SameSpec()) == LOCKED;
    assert UseSet(LOCKED[0]) == {105};
    assert LOCKED[0].locked && 105 in UseSet(LOCKED[0]);
    assert LockedUses(LOCKED) == {105};
  }

  lemma LocalMoves()
    ensures var moved := Params(96, None, "c", false);
            MoveAll(LOCKED, {105}) == Some(([LOCKED[0], LOCKED[1], moved], {105, 96}))
  {
    assert MoveAll(LOCKED[..0], {105}) == Some(([], {105}));
    assert Preferred(0) == 96;
    hide MoveAll;
    MoveAllNext(LOCKED, 0, {105});
    assert [] + [LOCKED[0]] == [LOCKED[0]];
    MoveAllNext(LOCKED, 1, {105});
    assert [LOCKED[0]] + [LOCKED[1]] == [LOCKED[0], LOCKED[1]];
    MoveAllNext(LOCKED, 2, {105});
    var moved := Params(96, None, "c", false);
    assert [LOCKED[0], LOCKED[1]] + [moved] == [LOCKED[0], LOCKED[1], moved];
    assert LOCKED[..3] == LOCKED && {105} + {96} == {105, 96};
    assert FirstFree({105}, 0) == Some(96);
    assert MoveUses(LOCKED[2], {105}) == Some((moved, {105} + {96}));
  }

  lemma LocalDiffer()
    ensures OpenDiffer(LOCAL) && LockedDiffer(LOCKED)
  {
    UsesAre(LOCAL[0]);
    UsesAre(LOCAL[1]);
    UsesAre(LOCAL[2]);
    hide UseSet;
  }

  lemma TwoAreEqual(r: seq<Params>)
    requires |r| == 3 && !r[1].locked && !r[2].locked && r[1].pt == r[2].pt
    ensures !OpenDiffer(r)
  {
    assert r[1].pt in UseSet(r[1]) && r[1].pt in UseSet(r[2]);
  }

  /** A first offer, to codecs with different types of which none is locked, that leaves two of them with one type. */
  lemma OpenTypesMayCollide()
    ensures OpenDiffer(LOCAL) && forall k | 0 <= k < |LOCAL| :: !LOCAL[k].locked
    ensures var r := [Params(105, None, "a", true), LOCAL[1], Params(96, None, "c", false)];
            Updated(LOCAL, REMOTE, SameSpec()) == Some(r) && !OpenDiffer(r)
  {
    hide MoveAll, ClaimAll, LockAll, NewlyLocked, LockedUses, OpenDiffer, LockedDiffer;
    LocalLocked();
    LocalMoves();
    LocalDiffer();
    ClaimsIff(LOCAL, REMOTE, SameSpec());
    TwoAreEqual([Params(105, None, "a", true), LOCAL[1], Params(96, None, "c", false)]);
  }
}
