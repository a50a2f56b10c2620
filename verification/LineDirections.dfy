/**
 What offers and answers do to the directions of media: each one is the opposite of what its line in the SDP says, as the
 other side sees it from there.
 */
module LineDirections {
  import opened Bytes
  import opened MediaLines

  predicate MaySend(d: Direction) {
    d == SendOnly || d == SendRecv
  }

  predicate MayReceive(d: Direction) {
    d == RecvOnly || d == SendRecv
  }

  /** One side may send exactly what the other one may receive. */
  predicate Opposite(here: Direction, there: Direction) {
    (MaySend(here) <==> MayReceive(there)) && (MayReceive(here) <==> MaySend(there))
  }

  /** Two sides with the same opposite have the same direction. */
  lemma OppositeIsUnique(a: Direction, b: Direction, there: Direction)
    requires Opposite(a, there) && Opposite(b, there)
    ensures a == b
  {
  }

  predicate DistinctMedias(medias: seq<Media>) {
    forall i, j | 0 <= i < j < |medias| :: medias[i].mid != medias[j].mid
  }

  predicate LineFor(l: Line, mid: Mid) {
    l.typ.IsMedia() && l.mid == mid
  }

  /** The other side wants media of this side that is inactive to be sent. */
  predicate IsToldToSend(m: Media, l: Line) {
    !m.remoteCreated && m.dir == Inactive && MayReceive(l.dir) && !MaySend(l.dir)
  }

  /** Media after a line for it: nothing but its direction changes, and that to the opposite, with one exception. */
  predicate Obeys(m: Media, l: Line, m': Media) {
    && m'.mid == m.mid && m'.index == m.index && m'.remoteCreated == m.remoteCreated
    && if IsToldToSend(m, l) then m'.dir == Inactive else Opposite(m'.dir, l.dir)
  }

  predicate SameButName(m: Media, m': Media) {
    m'.mid == m.mid && m'.index == m.index && m'.remoteCreated == m.remoteCreated && m'.dir == m.dir
  }

  lemma UpdateObeys(m: Media, l: Line)
    ensures Obeys(m, l, UpdateMedia(m, l)) && UpdateMedia(m, l).msid == m.msid
  {
  }

  /** What the lines from a place on do to one media. */
  predicate ObeysAll(m: Media, lines: seq<Line>, from: nat, m': Media) {
    && (forall j | from <= j < |lines| && LineFor(lines[j], m.mid) :: Obeys(m, lines[j], m'))
    && ((forall j | from <= j < |lines| :: !LineFor(lines[j], m.mid)) ==> SameButName(m, m'))
    && m'.mid == m.mid && m'.index == m.index && m'.remoteCreated == m.remoteCreated
  }

  lemma ObeysNext(m: Media, lines: seq<Line>, from: nat, m1: Media, m': Media)
    requires from < |lines| && DistinctMids(lines) && ObeysAll(m1, lines, from + 1, m')
    requires if LineFor(lines[from], m.mid) then Obeys(m, lines[from], m1) else m1 == m
    ensures ObeysAll(m, lines, from, m')
  {
    if LineFor(lines[from], m.mid) {
      forall j | from < j < |lines| ensures !LineFor(lines[j], m.mid) {
      }
    }
  }

  /** Comparing lines leaves every media as its line says, and finds new lines for media that is not there. */
  lemma {:induction false} SyncObeys(s: Lines, lines: seq<Line>, idx: nat)
    requires idx <= |lines| && DistinctMedias(s.medias) && DistinctMids(lines) && SyncSpec(s, lines, idx).1.Some?
    ensures var (s', found) := SyncSpec(s, lines, idx);
            && |s'.medias| == |s.medias|
            && (forall k | 0 <= k < |s.medias| :: ObeysAll(s.medias[k], lines, idx, s'.medias[k]))
            && (forall k | 0 <= k < |s.medias| :: s'.medias[k].msid == s.medias[k].msid)
            && (forall l | l in found.value :: l in lines)
            && (forall l, k | l in found.value && 0 <= k < |s.medias| :: !LineFor(l, s.medias[k].mid))
    decreases |lines| - idx
  {
    hide ObeysAll, Obeys, UpdateMedia;
    if idx == |lines| {
      forall k | 0 <= k < |s.medias| ensures ObeysAll(s.medias[k], lines, idx, s.medias[k]) {
        NothingObeyed(s.medias[k], lines);
      }
      return;
    }
    var l := lines[idx];
    var k := FindMedia(s.medias, l.mid);
    var s1 := if l.typ.IsMedia() && k.Some? then s.(medias := s.medias[k.value := UpdateMedia(s.medias[k.value], l)]) else s;
    if l.typ.IsMedia() && k.Some? {
      UpdateObeys(s.medias[k.value], l);
      ObeyedIsSame(s.medias[k.value], l, UpdateMedia(s.medias[k.value], l));
    }
    SyncObeys(s1, lines, idx + 1);
    var s' := SyncSpec(s, lines, idx).0;
    forall i | 0 <= i < |s.medias| ensures ObeysAll(s.medias[i], lines, idx, s'.medias[i]) {
      ObeysNext(s.medias[i], lines, idx, s1.medias[i], s'.medias[i]);
    }
  }

  lemma NothingObeyed(m: Media, lines: seq<Line>)
    ensures ObeysAll(m, lines, |lines|, m)
  {
  }

  lemma ObeyedIsSame(m: Media, l: Line, m': Media)
    requires Obeys(m, l, m')
    ensures m'.mid == m.mid
  {
  }

  /** New media is made by its line, and only that. */
  predicate MadeBy(m: Media, lines: seq<Line>, isOffer: bool) {
    && m.remoteCreated == isOffer && m.msid == ""
    && exists l :: l in lines && LineFor(l, m.mid) && Opposite(m.dir, l.dir)
  }

  lemma NewObeys(l: Line, idx: nat, isOffer: bool)
    requires l.typ.IsMedia()
    ensures var m := NewMedia(l, idx, isOffer);
            m.remoteCreated == isOffer && m.msid == "" && LineFor(l, m.mid) && Opposite(m.dir, l.dir)
  {
  }

  lemma {:induction false} AddObeys(s: Lines, lines: seq<Line>, isOffer: bool)
    ensures var s' := AddNewLinesSpec(s, lines, isOffer).0;
            && s.medias <= s'.medias
            && forall k | |s.medias| <= k < |s'.medias| :: MadeBy(s'.medias[k], lines, isOffer)
    decreases |lines|
  {
    hide NewMedia;
    if lines != [] {
      var l, idx := lines[0], s.Count();
      assert forall x | x in lines[1..] :: x in lines;
      if l.typ.IsMedia() {
        NewObeys(l, idx, isOffer);
        AddObeys(s.(medias := s.medias + [NewMedia(l, idx, isOffer)]), lines[1..], isOffer);
      } else if l.typ == Application {
        AddObeys(SetAppSpec(s, l.mid, idx).0, lines[1..], isOffer);
      }
    }
  }

  /** New media has mids of new lines, each once. */
  lemma {:induction false} AddKeepsDistinct(s: Lines, lines: seq<Line>, isOffer: bool)
    requires DistinctMedias(s.medias) && DistinctMids(lines)
    requires forall l, k | l in lines && 0 <= k < |s.medias| :: !LineFor(l, s.medias[k].mid)
    ensures DistinctMedias(AddNewLinesSpec(s, lines, isOffer).0.medias)
    decreases |lines|
  {
    hide NewMedia;
    if lines != [] {
      var l, idx := lines[0], s.Count();
      assert forall x | x in lines[1..] :: x in lines;
      assert l in lines;
      if l.typ.IsMedia() {
        NewObeys(l, idx, isOffer);
        AddKeepsDistinct(s.(medias := s.medias + [NewMedia(l, idx, isOffer)]), lines[1..], isOffer);
      } else if l.typ == Application {
        AddKeepsDistinct(SetAppSpec(s, l.mid, idx).0, lines[1..], isOffer);
      }
    }
  }

  /** What accepted offers and answers make of every media. */
  ghost predicate TurnedBy(s: Lines, lines: seq<Line>, isOffer: bool, s': Lines) {
    && |s.medias| <= |s'.medias| && DistinctMedias(s'.medias)
    && (forall k, j | 0 <= k < |s.medias| && 0 <= j < |lines| && LineFor(lines[j], s.medias[k].mid) ::
          Obeys(s.medias[k], lines[j], s'.medias[k]))
    && (forall k | 0 <= k < |s.medias| && (forall j | 0 <= j < |lines| :: !LineFor(lines[j], s.medias[k].mid)) ::
          SameButName(s.medias[k], s'.medias[k]))
    && (forall k | |s.medias| <= k < |s'.medias| ::
          && s'.medias[k].remoteCreated == isOffer
          && exists j :: 0 <= j < |lines| && LineFor(lines[j], s'.medias[k].mid) && Opposite(s'.medias[k].dir, lines[j].dir))
  }

  lemma SyncedAndAdded(s: Lines, lines: seq<Line>, isOffer: bool)
    requires DistinctMedias(s.medias) && DistinctMids(lines) && SyncSpec(s, lines, 0).1.Some?
    ensures var (s1, found) := SyncSpec(s, lines, 0);
            TurnedBy(s, lines, isOffer, AddNewLinesSpec(s1, found.value, isOffer).0)
    ensures var (s1, found) := SyncSpec(s, lines, 0);
            var s' := AddNewLinesSpec(s1, found.value, isOffer).0;
            && (forall k | 0 <= k < |s.medias| :: s'.medias[k].msid == s.medias[k].msid)
            && (forall k | |s.medias| <= k < |s'.medias| :: s'.medias[k].msid == "")
  {
    var (s1, found) := SyncSpec(s, lines, 0);
    var s' := AddNewLinesSpec(s1, found.value, isOffer).0;
    SyncObeys(s, lines, 0);
    NewLinesDiffer(s, lines, 0);
    MidsStay(s, lines);
    AddObeys(s1, found.value, isOffer);
    AddKeepsDistinct(s1, found.value, isOffer);
    hide Obeys, Opposite, SyncSpec, AddNewLinesSpec;
    forall k | 0 <= k < |s.medias| ensures s'.medias[k] == s1.medias[k] {
    }
    forall k | |s.medias| <= k < |s'.medias|
      ensures exists j :: 0 <= j < |lines| && LineFor(lines[j], s'.medias[k].mid) && Opposite(s'.medias[k].dir, lines[j].dir)
    {
      var l :| l in found.value && LineFor(l, s'.medias[k].mid) && Opposite(s'.medias[k].dir, l.dir);
      assert l in lines;
    }
  }

  lemma MidsStay(s: Lines, lines: seq<Line>)
    requires DistinctMedias(s.medias)
    ensures var s1 := SyncSpec(s, lines, 0).0;
            && |s1.medias| == |s.medias| && DistinctMedias(s1.medias)
            && forall k | 0 <= k < |s.medias| :: s1.medias[k].mid == s.medias[k].mid
  {
    SyncKeeps(s, lines, 0);
    hide SyncSpec;
  }

  /**
   After an offer that is accepted: every media that has a line in it may send exactly when the line may receive, and may
   receive exactly when the line may send, but for own media that is inactive and told to send, which stays inactive.
   Media without a line is as before, and new media belongs to the other side.
   */
  lemma OfferTurnsDirections(s: Lines, lines: seq<Line>)
    requires DistinctMedias(s.medias) && DistinctMids(lines) && ApplyOfferSpec(s, lines).1 == Accepted
    ensures TurnedBy(s, lines, true, ApplyOfferSpec(s, lines).0)
  {
    SyncedAndAdded(s, lines, true);
  }

  /** Of the changes that wait, the one that adds media with a mid. */
  predicate Announces(pending: seq<Change>, mid: Mid, msid: string) {
    exists j :: 0 <= j < |pending| && pending[j] == AddMedia(mid, msid)
  }

  lemma {:induction false} PendingNames(s: Lines, pending: seq<Change>)
    requires DistinctMedias(s.medias) && DistinctNews(pending) && AddPendingSpec(s, pending).Some?
    ensures var s' := AddPendingSpec(s, pending).value;
            && |s'.medias| == |s.medias|
            && (forall k | 0 <= k < |s.medias| :: SameButName(s.medias[k], s'.medias[k]))
            && (forall k, msid | 0 <= k < |s.medias| && Announces(pending, s.medias[k].mid, msid) :: s'.medias[k].msid == msid)
            && (forall k | 0 <= k < |s.medias| && (forall msid :: !Announces(pending, s.medias[k].mid, msid)) ::
                  s'.medias[k].msid == s.medias[k].msid)
    decreases |pending|
  {
    if pending == [] {
      return;
    }
    var rest := pending[1..];
    var c := pending[0];
    assert forall j | 0 <= j < |rest| :: rest[j] == pending[j + 1];
    var k := if c.AddMedia? then FindMedia(s.medias, c.mid) else None;
    var s1 := if k.Some? then s.(medias := s.medias[k.value := s.medias[k.value].(msid := c.msid)]) else s;
    PendingNames(s1, rest);
    var s' := AddPendingSpec(s, pending).value;
    forall i | 0 <= i < |s.medias|
      ensures forall msid :: Announces(pending, s.medias[i].mid, msid) ==> s'.medias[i].msid == msid
      ensures (forall msid :: !Announces(pending, s.medias[i].mid, msid)) ==> s'.medias[i].msid == s.medias[i].msid
    {
      AnnouncesNext(pending, s.medias[i].mid);
    }
  }

  /** The first change announces its media, and then no other one does. */
  lemma AnnouncesNext(pending: seq<Change>, mid: Mid)
    requires pending != [] && DistinctNews(pending)
    ensures forall msid :: Announces(pending, mid, msid) <==>
                           pending[0] == AddMedia(mid, msid) || Announces(pending[1..], mid, msid)
    ensures pending[0].AddMedia? && pending[0].mid == mid ==> forall msid :: !Announces(pending[1..], mid, msid)
  {
    var rest := pending[1..];
    assert forall j | 0 <= j < |rest| :: rest[j] == pending[j + 1];
    forall msid ensures Announces(pending, mid, msid) <==> pending[0] == AddMedia(mid, msid) || Announces(rest, mid, msid) {
      if Announces(rest, mid, msid) {
        var j :| 0 <= j < |rest| && rest[j] == AddMedia(mid, msid);
        assert pending[j + 1] == AddMedia(mid, msid);
      }
      if Announces(pending, mid, msid) && pending[0] != AddMedia(mid, msid) {
        var j :| 0 <= j < |pending| && pending[j] == AddMedia(mid, msid);
        assert rest[j - 1] == AddMedia(mid, msid);
      }
    }
  }

  /** The same after an answer; and the media that was announced has the name that it was announced with. */
  lemma AnswerTurnsDirections(s: Lines, pending: seq<Change>, lines: seq<Line>)
    requires DistinctMedias(s.medias) && DistinctMids(lines) && DistinctNews(pending)
    requires ApplyAnswerSpec(s, pending, lines).1 == Accepted
    ensures var s' := ApplyAnswerSpec(s, pending, lines).0;
            && TurnedBy(s, lines, false, s')
            && (forall k, msid | 0 <= k < |s'.medias| && Announces(pending, s'.medias[k].mid, msid) :: s'.medias[k].msid == msid)
            && (forall k | 0 <= k < |s.medias| && (forall msid :: !Announces(pending, s.medias[k].mid, msid)) ::
                  s'.medias[k].msid == s.medias[k].msid)
  {
    SyncedAndAdded(s, lines, false);
    var (s1, found) := SyncSpec(s, lines, 0);
    var s2 := AddNewLinesSpec(s1, found.value, false).0;
    MidsStay(s, lines);
    AddObeys(s1, found.value, false);
    PendingNames(s2, pending);
    hide SyncSpec, AddNewLinesSpec, AddPendingSpec, Obeys, Opposite, Announces;
    NamesDoNotTurn(s, lines, s2, ApplyAnswerSpec(s, pending, lines).0);
  }

  lemma NamesDoNotTurn(s: Lines, lines: seq<Line>, s2: Lines, s3: Lines)
    requires TurnedBy(s, lines, false, s2)
    requires |s3.medias| == |s2.medias| && forall k | 0 <= k < |s2.medias| :: SameButName(s2.medias[k], s3.medias[k])
    ensures TurnedBy(s, lines, false, s3)
  {
  }

  /** An offer that is rejected turns the media whose lines come before the one that is wrong. */
  lemma RejectedOfferTurns()
    ensures var a, b := Media("a", 0, SendRecv, true, ""), Media("b", 1, SendRecv, true, "");
            var (s', outcome) := ApplyOfferSpec(Lines(None, [a, b]), [Line("a", Video, RecvOnly), Line("c", Video, SendRecv),
                                                                     Line("b", Video, SendRecv)]);
            outcome == Rejected && s' == Lines(None, [a.(dir := SendOnly), b])
  {
    var a, b := Media("a", 0, SendRecv, true, ""), Media("b", 1, SendRecv, true, "");
    var lines := [Line("a", Video, RecvOnly), Line("c", Video, SendRecv), Line("b", Video, SendRecv)];
    var turned := Lines(None, [a.(dir := SendOnly), b]);
    assert SyncSpec(turned, lines, 2) == (turned, None) by {
      assert FindMedia(turned.medias, "b") == Some(1);
    }
    assert SyncSpec(turned, lines, 1) == (turned, None) by {
      assert FindMedia(turned.medias, "c") == None;
    }
    assert FindMedia([a, b], "a") == Some(0) && [a, b][0 := a.(dir := SendOnly)] == turned.medias;
  }

  /** A direct change turns the first media with a mid, and no other. */
  lemma DirectTurns(s: Lines, mid: Mid, dir: Direction)
    requires DistinctMedias(s.medias)
    ensures var s' := SetDirection(s, mid, dir);
            && s'.app == s.app && |s'.medias| == |s.medias|
            && forall k | 0 <= k < |s.medias| ::
                 s'.medias[k] == if s.medias[k].mid == mid then s.medias[k].(dir := dir) else s.medias[k]
  {
  }
}
