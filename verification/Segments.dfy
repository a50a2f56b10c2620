/**
 Complete frames in the reordering queue: what update_segments of packet/buffer_rx.rs is to find, said without
 its scan, and the facts about it that the buffer needs.
 */
module Segments {
  import opened Bytes

  /** The parts of an RTP header the buffer looks at; the sequence number is already extended. */
  datatype Meta = Meta(seqNo: nat, time: int, marker: bool)

  datatype Entry = Entry(meta: Meta, data: Bytes, head: bool, tail: bool) {
    function Seq(): nat {
      meta.seqNo
    }

    function Time(): int {
      meta.time
    }
  }

  predicate Sorted(q: seq<Entry>) {
    forall i, j | 0 <= i < j < |q| :: q[i].Seq() < q[j].Seq()
  }

  /** Entry i + 1 has the next sequence number after entry i. */
  predicate Adjacent(q: seq<Entry>, i: nat)
    requires i + 1 < |q|
  {
    q[i + 1].Seq() == q[i].Seq() + 1
  }

  /** Entry i + 1 belongs to the same frame as entry i. */
  predicate Linked(q: seq<Entry>, i: nat)
    requires i + 1 < |q|
  {
    Adjacent(q, i) && q[i].Time() == q[i + 1].Time() && !q[i].tail
  }

  /** From a head at s on to e: no gap, one timestamp, and no tail before e. */
  predicate Run(q: seq<Entry>, s: int, e: int) {
    && 0 <= s <= e < |q|
    && q[s].head
    && forall i | s <= i < e :: Linked(q, i)
  }

  /** A frame may end at e: it is a tail, or the next sequence number has a new timestamp. */
  predicate Ends(q: seq<Entry>, e: nat)
    requires e < |q|
  {
    q[e].tail || (e + 1 < |q| && Adjacent(q, e) && q[e].Time() != q[e + 1].Time())
  }

  /** A complete frame: a run that ends, with the leftmost start there is for that end. */
  ghost predicate IsSegment(q: seq<Entry>, s: int, e: int) {
    && Run(q, s, e)
    && Ends(q, e)
    && forall s' | 0 <= s' < s :: !Run(q, s', e)
  }

  /** All the complete frames of q that end before n, and nothing else, in order and without overlap. */
  ghost predicate IsScanTo(q: seq<Entry>, segments: seq<(nat, nat)>, n: nat) {
    && (forall k | 0 <= k < |segments| :: IsSegment(q, segments[k].0, segments[k].1) && segments[k].1 < n)
    && (forall j, k | 0 <= j < k < |segments| :: segments[j].1 < segments[k].0)
    && (forall s: nat, e: nat | e < n && IsSegment(q, s, e) :: (s, e) in segments)
  }

  ghost predicate IsScan(q: seq<Entry>, segments: seq<(nat, nat)>) {
    IsScanTo(q, segments, |q|)
  }

  /** The numbers in a run go up by one. */
  lemma {:induction false} RunIsConsecutive(q: seq<Entry>, s: int, e: int, k: int)
    requires Run(q, s, e) && s <= k <= e
    ensures q[k].Seq() == q[s].Seq() + (k - s)
    decreases k - s
  {
    if k > s {
      RunIsConsecutive(q, s, e, k - 1);
      assert Linked(q, k - 1);
    }
  }

  /** There is only one such list. */
  lemma {:induction false} ScanIsUnique(q: seq<Entry>, a: seq<(nat, nat)>, b: seq<(nat, nat)>)
    requires IsScan(q, a) && IsScan(q, b)
    ensures a == b
  {
    ScansAgree(q, a, b, |a|);
    ScansAgree(q, b, a, |b|);
  }

  lemma {:induction false} ScansAgree(q: seq<Entry>, a: seq<(nat, nat)>, b: seq<(nat, nat)>, n: nat)
    requires IsScan(q, a) && IsScan(q, b) && n <= |a|
    ensures n <= |b| && a[..n] == b[..n]
  {
    if n > 0 {
      ScansAgree(q, a, b, n - 1);
      var k := PlaceOfNext(q, a, b, n - 1);
      var j := PlaceOfNext(q, b, a, n - 1);
      assert k == n - 1;
      assert a[..n] == a[..n - 1] + [a[n - 1]] && b[..n] == b[..n - 1] + [b[n - 1]];
    }
  }

  /** Where b has the segment that comes after n common ones in a. */
  lemma PlaceOfNext(q: seq<Entry>, a: seq<(nat, nat)>, b: seq<(nat, nat)>, n: nat) returns (k: nat)
    requires IsScan(q, a) && IsScan(q, b)
    requires n < |a| && n <= |b| && a[..n] == b[..n]
    ensures n <= k < |b| && b[k] == a[n] && a[n].0 <= a[n].1 && b[n].0 <= b[n].1
  {
    assert IsSegment(q, a[n].0, a[n].1);
    forall i | 0 <= i < n ensures b[i] != a[n] {
      assert a[i] == a[..n][i] == b[..n][i] == b[i];
    }
    k :| 0 <= k < |b| && b[k] == a[n];
    assert IsSegment(q, b[n].0, b[n].1);
  }

  /** Whether some run ends at e. */
  ghost predicate Reaches(q: seq<Entry>, e: nat) {
    exists s :: Run(q, s, e)
  }

  /** Where the leftmost run that reaches e starts. */
  ghost function LeftmostStart(q: seq<Entry>, e: nat): (s: nat)
    requires e < |q| && Reaches(q, e)
    ensures Run(q, s, e)
    ensures forall s' | 0 <= s' < s :: !Run(q, s', e)
  {
    LeastStart(q, 0, e)
  }

  ghost function LeastStart(q: seq<Entry>, from: nat, e: nat): (s: nat)
    requires from <= e < |q| && exists s :: Run(q, s, e) && s >= from
    ensures from <= s && Run(q, s, e)
    ensures forall s' | from <= s' < s :: !Run(q, s', e)
    decreases e - from
  {
    if Run(q, from, e) then from
    else
      assert exists s :: Run(q, s, e) && s >= from + 1;
      LeastStart(q, from + 1, e)
  }

  /** The complete frames that end before n. */
  ghost function SegmentsTo(q: seq<Entry>, n: nat): (r: seq<(nat, nat)>)
    requires n <= |q|
  {
    if n == 0 then []
    else if Reaches(q, n - 1) && Ends(q, n - 1) then SegmentsTo(q, n - 1) + [(LeftmostStart(q, n - 1), n - 1)]
    else SegmentsTo(q, n - 1)
  }

  ghost function SegmentsOf(q: seq<Entry>): (r: seq<(nat, nat)>)
    ensures IsScan(q, r)
  {
    SegmentsToScans(q, |q|);
    SegmentsTo(q, |q|)
  }

  lemma {:induction false} SegmentsToScans(q: seq<Entry>, n: nat)
    requires n <= |q|
    ensures IsScanTo(q, SegmentsTo(q, n), n)
  {
    if n > 0 {
      var e := n - 1;
      SegmentsToScans(q, e);
      var ends := Reaches(q, e) && Ends(q, e);
      var s := if ends then LeftmostStart(q, e) else 0;
      ScanExtends(q, SegmentsTo(q, e), e, ends, s);
    }
  }

  lemma ScanExtends(q: seq<Entry>, r: seq<(nat, nat)>, e: nat, ends: bool, s: nat)
    requires e < |q| && IsScanTo(q, r, e)
    requires ends <==> Reaches(q, e) && Ends(q, e)
    requires ends ==> s == LeftmostStart(q, e)
    ensures IsScanTo(q, if ends then r + [(s, e)] else r, e + 1)
  {
    hide Run, Reaches, Ends, LeftmostStart, IsSegment;
    forall s': nat ensures IsSegment(q, s', e) <==> ends && s' == s {
      SegmentStartsLeftmost(q, s', e);
    }
    if ends {
      forall k | 0 <= k < |r| ensures r[k].1 < s {
        SegmentEndsSeparate(q, r[k].0, r[k].1, s, e);
      }
      var r' := r + [(s, e)];
      assert r'[|r|] == (s, e);
      assert forall x | x in r :: x in r';
    }
  }

  lemma SegmentStartsLeftmost(q: seq<Entry>, s: nat, e: nat)
    requires e < |q|
    ensures Reaches(q, e) && Ends(q, e) && s == LeftmostStart(q, e) <==> IsSegment(q, s, e)
  {
  }

  /** A run does not go across a place where a frame ends. */
  lemma SegmentEndsSeparate(q: seq<Entry>, s: int, e: nat, s': int, e': nat)
    requires e < e' && IsSegment(q, s, e) && Run(q, s', e')
    ensures e < s'
  {
    assert s' <= e ==> Linked(q, e);
  }

  lemma SegmentsAreInRange(q: seq<Entry>)
    ensures forall k | 0 <= k < |SegmentsOf(q)| :: SegmentsOf(q)[k].0 <= SegmentsOf(q)[k].1 < |q|
  {
    forall k | 0 <= k < |SegmentsOf(q)| ensures SegmentsOf(q)[k].0 <= SegmentsOf(q)[k].1 < |q| {
      assert IsSegment(q, SegmentsOf(q)[k].0, SegmentsOf(q)[k].1);
    }
  }

  /** How the runs that reach e come from those that reach e - 1. */
  lemma ReachesStep(q: seq<Entry>, e: nat)
    requires e < |q|
    ensures if e > 0 && Reaches(q, e - 1) && Linked(q, e - 1) then
              Reaches(q, e) && LeftmostStart(q, e) == LeftmostStart(q, e - 1)
            else
              (Reaches(q, e) <==> q[e].head) && (q[e].head ==> LeftmostStart(q, e) == e)
  {
    assert forall s | 0 <= s < e :: Run(q, s, e) <==> Run(q, s, e - 1) && Linked(q, e - 1);
    assert Run(q, e, e) <==> q[e].head;
    if e > 0 && Reaches(q, e - 1) && Linked(q, e - 1) {
      var t := LeftmostStart(q, e - 1);
      assert Run(q, t, e);
      assert LeftmostStart(q, e) <= t;
    }
  }
}
