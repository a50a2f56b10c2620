/**
 The m-lines of a session: how offers and answers (change/sdp.rs) change the list of lines that the session
 (session.rs) keeps, and that each line stays where it is.
 */
module MediaLines {
  import opened Bytes

  type Mid = string

  datatype LineType = Audio | Video | Application | Other {
    predicate IsMedia() {
      Audio? || Video?
    }
  }

  datatype Direction = SendOnly | RecvOnly | SendRecv | Inactive {
    function Invert(): Direction {
      match this
      case SendOnly => RecvOnly
      case RecvOnly => SendOnly
      case _ => this
    }
  }

  /** An m-line of an SDP. */
  datatype Line = Line(mid: Mid, typ: LineType, dir: Direction)

  datatype Media = Media(mid: Mid, index: nat, dir: Direction, remoteCreated: bool, msid: string)

  /** The lines of a session: at most one application line, and the media. */
  datatype Lines = Lines(app: Option<(Mid, nat)>, medias: seq<Media>) {
    function Count(): nat {
      |medias| + if app.Some? then 1 else 0
    }
  }

  /** Changes that wait for an answer; those that are no lines are all alike here. */
  datatype Change = AddMedia(mid: Mid, msid: string) | AddApp(mid: Mid) | NoLine

  datatype Outcome = Accepted | Rejected | Panicked

  // ---------- The steps as functions ----------

  /** The first media with a mid. */
  function FindMedia(medias: seq<Media>, mid: Mid): (r: Option<nat>)
    ensures r.Some? ==> r.value < |medias| && medias[r.value].mid == mid
    ensures r.None? ==> forall k | 0 <= k < |medias| :: medias[k].mid != mid
  {
    if medias == [] then None
    else if medias[0].mid == mid then Some(0)
    else
      var r := FindMedia(medias[1..], mid);
      if r.None? then None else Some(r.value + 1)
  }

  /** The remote side does not turn media that this side made, and made inactive, into media that this side sends. */
  function UpdateMedia(m: Media, l: Line): Media {
    var dir := l.dir.Invert();
    if !m.remoteCreated && m.dir == Inactive && dir == SendOnly then m else m.(dir := dir)
  }

  /** Compares lines with those of the session; the result is the new lines, or none where the order changed. */
  function SyncSpec(s: Lines, lines: seq<Line>, idx: nat): (Lines, Option<seq<Line>>)
    requires idx <= |lines|
    decreases |lines| - idx
  {
    if idx == |lines| then (s, Some([]))
    else
      var l := lines[idx];
      var k := FindMedia(s.medias, l.mid);
      if l.typ == Other then SyncSpec(s, lines, idx + 1)
      else if l.typ == Application && s.app.Some? then
        if idx != s.app.value.1 then (s, None) else SyncSpec(s, lines, idx + 1)
      else if l.typ.IsMedia() && k.Some? then
        if idx != s.medias[k.value].index then (s, None)
        else SyncSpec(s.(medias := s.medias[k.value := UpdateMedia(s.medias[k.value], l)]), lines, idx + 1)
      else
        var (s', rest) := SyncSpec(s, lines, idx + 1);
        (s', if rest.None? then None else Some([l] + rest.value))
  }

  function NewMedia(l: Line, idx: nat, isOffer: bool): Media {
    UpdateMedia(Media(l.mid, idx, l.dir.Invert(), isOffer, ""), l)
  }

  function SetAppSpec(s: Lines, mid: Mid, idx: nat): (Lines, bool) {
    if s.app.Some? then (s, s.app.value == (mid, idx)) else (s.(app := Some((mid, idx))), true)
  }

  /** Adds new lines at the end; the flag is false when one cannot be added. */
  function AddNewLinesSpec(s: Lines, lines: seq<Line>, isOffer: bool): (Lines, bool)
    decreases |lines|
  {
    if lines == [] then (s, true)
    else
      var l, idx := lines[0], s.Count();
      if l.typ.IsMedia() then
        AddNewLinesSpec(s.(medias := s.medias + [NewMedia(l, idx, isOffer)]), lines[1..], isOffer)
      else if l.typ == Application then
        var (s', ok) := SetAppSpec(s, l.mid, idx);
        if ok then AddNewLinesSpec(s', lines[1..], isOffer) else (s', false)
      else (s, false)
  }

  function ApplyOfferSpec(s: Lines, lines: seq<Line>): (Lines, Outcome) {
    var (s1, new_lines) := SyncSpec(s, lines, 0);
    if new_lines.None? then (s1, Rejected)
    else
      var (s2, ok) := AddNewLinesSpec(s1, new_lines.value, true);
      (s2, if ok then Accepted else Rejected)
  }

  /** The first change that adds a line with a mid. */
  function FindChange(pending: seq<Change>, mid: Mid): (r: Option<nat>)
    ensures r.Some? ==> r.value < |pending| && !pending[r.value].NoLine? && pending[r.value].mid == mid
    ensures r.None? ==> forall k | 0 <= k < |pending| && !pending[k].NoLine? :: pending[k].mid != mid
  {
    if pending == [] then None
    else if !pending[0].NoLine? && pending[0].mid == mid then Some(0)
    else
      var r := FindChange(pending[1..], mid);
      if r.None? then None else Some(r.value + 1)
  }

  function CountNewMedias(pending: seq<Change>): nat {
    if pending == [] then 0
    else CountNewMedias(pending[1..]) + if pending[0].NoLine? then 0 else 1
  }

  predicate Answers(pending: seq<Change>, l: Line) {
    var k := FindChange(pending, l.mid);
    k.Some? && if pending[k.value].AddMedia? then l.typ.IsMedia() else l.typ == Application
  }

  predicate IsCorrectAnswer(pending: seq<Change>, lines: seq<Line>) {
    CountNewMedias(pending) == |lines| && forall k | 0 <= k < |lines| :: Answers(pending, lines[k])
  }

  /** Gives new media the names announced in the offer; there is no result where media is missing. */
  function AddPendingSpec(s: Lines, pending: seq<Change>): Option<Lines>
    decreases |pending|
  {
    if pending == [] then Some(s)
    else if !pending[0].AddMedia? then AddPendingSpec(s, pending[1..])
    else
      var k := FindMedia(s.medias, pending[0].mid);
      if k.None? then None
      else AddPendingSpec(s.(medias := s.medias[k.value := s.medias[k.value].(msid := pending[0].msid)]), pending[1..])
  }

  function ApplyAnswerSpec(s: Lines, pending: seq<Change>, lines: seq<Line>): (Lines, Outcome) {
    var (s1, newLines) := SyncSpec(s, lines, 0);
    if newLines.None? || !IsCorrectAnswer(pending, newLines.value) then (s1, Rejected)
    else
      var (s2, ok) := AddNewLinesSpec(s1, newLines.value, false);
      if !ok then (s2, Rejected)
      else
        var s3 := AddPendingSpec(s2, pending);
        if s3.None? then (s2, Panicked) else (s3.value, Accepted)
  }

  /** What the user can do directly. */
  function SetDirection(s: Lines, mid: Mid, dir: Direction): Lines {
    var k := FindMedia(s.medias, mid);
    if k.None? then s else s.(medias := s.medias[k.value := s.medias[k.value].(dir := dir)])
  }

  // ---------- The object ----------

  class Session {
    var app: Option<(Mid, nat)>
    var medias: seq<Media>

    constructor ()
      ensures View() == Lines(None, [])
    {
      app, medias := None, [];
    }

    ghost function View(): Lines
      reads this
    {
      Lines(app, medias)
    }

    method LineCount() returns (n: nat)
      ensures n == View().Count()
    {
      n := |medias| + if app.Some? then 1 else 0;
    }

    method SetApp(mid: Mid, index: nat) returns (ok: bool)
      modifies this
      ensures (View(), ok) == SetAppSpec(old(View()), mid, index)
    {
      if app.Some? {
        var (existingMid, existingIndex) := app.value;
        return existingMid == mid && existingIndex == index;
      }
      app := Some((mid, index));
      return true;
    }

    method SyncMedias(lines: seq<Line>) returns (newLines: Option<seq<Line>>)
      modifies this
      ensures (View(), newLines) == SyncSpec(old(View()), lines, 0)
    {
      var found: seq<Line> := [];
      var idx := 0;
      SyncedEnds(found, SyncSpec(View(), lines, 0));
      while idx < |lines|
        invariant 0 <= idx <= |lines|
        invariant SyncSpec(old(View()), lines, 0) == SyncedAfter(found, SyncSpec(View(), lines, idx))
      {
        var l := lines[idx];
        var isNew := true;
        if l.typ == Application {
          if app.Some? {
            if idx != app.value.1 {
              return None;
            }
            isNew := false;
          }
        } else if l.typ.IsMedia() {
          var k := FindMedia(medias, l.mid);
          if k.Some? {
            if idx != medias[k.value].index {
              return None;
            }
            medias := medias[k.value := UpdateMedia(medias[k.value], l)];
            isNew := false;
          }
        } else {
          isNew := false;
        }
        if isNew {
          SyncedPrepend(found, l, SyncSpec(View(), lines, idx + 1));
          found := found + [l];
        }
        idx := idx + 1;
      }
      SyncedEnds(found, (View(), Some([])));
      return Some(found);
    }

    method AddNewLines(lines: seq<Line>, isOffer: bool) returns (ok: bool)
      modifies this
      ensures (View(), ok) == AddNewLinesSpec(old(View()), lines, isOffer)
    {
      var k := 0;
      assert lines[0..] == lines;
      while k < |lines|
        invariant 0 <= k <= |lines|
        invariant AddNewLinesSpec(old(View()), lines, isOffer) == AddNewLinesSpec(View(), lines[k..], isOffer)
      {
        var l := lines[k];
        assert lines[k..][1..] == lines[k + 1..];
        var idx := LineCount();
        if l.typ.IsMedia() {
          medias := medias + [NewMedia(l, idx, isOffer)];
        } else if l.typ == Application {
          ok := SetApp(l.mid, idx);
          if !ok {
            return;
          }
        } else {
          return false;
        }
        k := k + 1;
      }
      return true;
    }

    /** The flag is false where the Rust code panics. */
    method AddPendingChanges(pending: seq<Change>) returns (ok: bool)
      modifies this
      ensures ok == AddPendingSpec(old(View()), pending).Some?
      ensures ok ==> AddPendingSpec(old(View()), pending) == Some(View())
    {
      var i := 0;
      assert pending[0..] == pending;
      while i < |pending|
        invariant 0 <= i <= |pending|
        invariant AddPendingSpec(old(View()), pending) == AddPendingSpec(View(), pending[i..])
      {
        assert pending[i..][1..] == pending[i + 1..];
        if pending[i].AddMedia? {
          var k := FindMedia(medias, pending[i].mid);
          if k.None? {
            return false;
          }
          medias := medias[k.value := medias[k.value].(msid := pending[i].msid)];
        }
        i := i + 1;
      }
      return true;
    }

    method ApplyOffer(lines: seq<Line>) returns (outcome: Outcome)
      modifies this
      ensures (View(), outcome) == ApplyOfferSpec(old(View()), lines)
    {
      var newLines := SyncMedias(lines);
      if newLines.None? {
        return Rejected;
      }
      var ok := AddNewLines(newLines.value, true);
      return if ok then Accepted else Rejected;
    }

    method ApplyAnswer(pending: seq<Change>, lines: seq<Line>) returns (outcome: Outcome)
      modifies this
      ensures outcome == ApplyAnswerSpec(old(View()), pending, lines).1
      ensures outcome != Panicked ==> View() == ApplyAnswerSpec(old(View()), pending, lines).0
    {
      var newLines := SyncMedias(lines);
      if newLines.None? {
        return Rejected;
      }
      var correct := EnsureCorrectAnswer(pending, newLines.value);
      if !correct {
        return Rejected;
      }
      var ok := AddNewLines(newLines.value, false);
      if !ok {
        return Rejected;
      }
      ok := AddPendingChanges(pending);
      return if ok then Accepted else Panicked;
    }
  }

  method EnsureCorrectAnswer(pending: seq<Change>, lines: seq<Line>) returns (correct: bool)
    ensures correct <==> IsCorrectAnswer(pending, lines)
  {
    if CountNewMedias(pending) != |lines| {
      return false;
    }
    var i := 0;
    while i < |lines|
      invariant 0 <= i <= |lines| && forall k | 0 <= k < i :: Answers(pending, lines[k])
    {
      var l := lines[i];
      var found := false;
      var k := 0;
      while k < |pending| && !found
        invariant 0 <= k <= |pending|
        invariant found ==> Answers(pending, l)
        invariant !found ==> FindChangeFrom(pending, l.mid, k) == FindChange(pending, l.mid)
      {
        FindChangeNext(pending, l.mid, k);
        match pending[k] {
          case AddMedia(mid, _) =>
            if mid == l.mid {
              if !l.typ.IsMedia() {
                return false;
              }
              found := true;
            }
          case AddApp(mid) =>
            if mid == l.mid {
              if l.typ != Application {
                return false;
              }
              found := true;
            }
          case NoLine =>
        }
        k := k + 1;
      }
      if !found {
        return false;
      }
      i := i + 1;
    }
    return true;
  }

  /** Some new lines, and what comes after them. */
  function SyncedAfter(found: seq<Line>, rest: (Lines, Option<seq<Line>>)): (Lines, Option<seq<Line>>) {
    (rest.0, if rest.1.None? then None else Some(found + rest.1.value))
  }

  lemma SyncedEnds(found: seq<Line>, rest: (Lines, Option<seq<Line>>))
    ensures found == [] ==> SyncedAfter(found, rest) == rest
    ensures rest.1 == Some([]) ==> SyncedAfter(found, rest) == (rest.0, Some(found))
  {
    if rest.1.Some? {
      assert [] + rest.1.value == rest.1.value && found + [] == found;
    }
  }

  lemma SyncedPrepend(found: seq<Line>, l: Line, rest: (Lines, Option<seq<Line>>))
    ensures SyncedAfter(found, SyncedAfter([l], rest)) == SyncedAfter(found + [l], rest)
  {
    if rest.1.Some? {
      assert found + ([l] + rest.1.value) == found + [l] + rest.1.value;
    }
  }

  /** The first change from a place on that adds a line with a mid. */
  function FindChangeFrom(pending: seq<Change>, mid: Mid, from: nat): Option<nat>
    requires from <= |pending|
  {
    var r := FindChange(pending[from..], mid);
    if r.None? then None else Some(from + r.value)
  }

  lemma FindChangeNext(pending: seq<Change>, mid: Mid, from: nat)
    requires from < |pending|
    ensures FindChangeFrom(pending, mid, from) ==
            if !pending[from].NoLine? && pending[from].mid == mid then Some(from)
            else FindChangeFrom(pending, mid, from + 1)
    ensures FindChangeFrom(pending, mid, |pending|).None? && pending[0..] == pending
  {
    assert pending[from..][1..] == pending[from + 1..];
  }

  // ---------- Each line has its place ----------

  datatype Entry = AppEntry(mid: Mid, index: nat) | MediaEntry(media: Media) {
    function Index(): nat {
      if AppEntry? then index else media.index
    }
  }

  function Entries(medias: seq<Media>): (r: seq<Entry>)
    ensures |r| == |medias| && forall k | 0 <= k < |r| :: r[k] == MediaEntry(medias[k])
  {
    seq(|medias|, k requires 0 <= k < |medias| => MediaEntry(medias[k]))
  }

  /** Insertion before the first entry with the same or a higher index: with it, sorting is stable. */
  function InsertEntry(e: Entry, s: seq<Entry>): seq<Entry> {
    if s == [] || e.Index() <= s[0].Index() then [e] + s else [s[0]] + InsertEntry(e, s[1..])
  }

  /** The standard library's stable sort by index. */
  function SortByIndex(s: seq<Entry>): seq<Entry> {
    if s == [] then [] else InsertEntry(s[0], SortByIndex(s[1..]))
  }

  /** All lines, by index. */
  function AsMediaLines(s: Lines): seq<Entry> {
    SortByIndex((if s.app.Some? then [AppEntry(s.app.value.0, s.app.value.1)] else []) + Entries(s.medias))
  }

  /** How many of the application line come before the media line at k. */
  function Before(app: Option<(Mid, nat)>, k: nat): nat {
    if app.Some? && app.value.1 <= k then 1 else 0
  }

  /** The lines have the indices from 0 on, in the order in which they are kept, with the application line among them. */
  predicate InPlace(s: Lines) {
    && (s.app.Some? ==> s.app.value.1 <= |s.medias|)
    && forall k | 0 <= k < |s.medias| :: s.medias[k].index == k + Before(s.app, k)
  }

  /** The entry that belongs at a place. */
  function EntryAt(s: Lines, i: nat): Entry
    requires i < s.Count()
    requires s.app.Some? ==> s.app.value.1 <= |s.medias|
  {
    if s.app.None? then MediaEntry(s.medias[i])
    else if i == s.app.value.1 then AppEntry(s.app.value.0, i)
    else MediaEntry(s.medias[if i < s.app.value.1 then i else i - 1])
  }

  predicate Ascending(s: seq<Entry>) {
    forall i, j | 0 <= i < j < |s| :: s[i].Index() < s[j].Index()
  }

  lemma {:induction false} SortedStays(s: seq<Entry>)
    requires Ascending(s)
    ensures SortByIndex(s) == s
  {
    if s != [] {
      SortedStays(s[1..]);
    }
  }

  lemma {:induction false} InsertPlace(e: Entry, s: seq<Entry>, k: nat)
    requires k <= |s| && Ascending(s)
    requires forall j | 0 <= j < k :: s[j].Index() < e.Index()
    requires forall j | k <= j < |s| :: e.Index() <= s[j].Index()
    ensures InsertEntry(e, s) == s[..k] + [e] + s[k..]
  {
    if k > 0 {
      InsertPlace(e, s[1..], k - 1);
      assert s[1..][..k - 1] == s[1..k] && s[1..][k - 1..] == s[k..];
      assert [s[0]] + s[1..k] == s[..k];
    }
  }

  lemma EntriesAscend(s: Lines)
    requires InPlace(s)
    ensures Ascending(Entries(s.medias))
  {
  }

  lemma SortedWithApp(s: Lines)
    requires InPlace(s) && s.app.Some?
    ensures var (mid, a) := s.app.value;
            var es := Entries(s.medias);
            AsMediaLines(s) == es[..a] + [AppEntry(mid, a)] + es[a..]
  {
    var (mid, a) := s.app.value;
    var es := Entries(s.medias);
    var e := AppEntry(mid, a);
    EntriesAscend(s);
    SortedStays(es);
    InsertPlace(e, es, a);
    assert ([e] + es)[1..] == es;
  }

  /** Sorting puts every line at the place that its index says, and nothing else there. */
  lemma LinesAreAtTheirIndex(s: Lines)
    requires InPlace(s)
    ensures |AsMediaLines(s)| == s.Count()
    ensures forall i | 0 <= i < s.Count() :: AsMediaLines(s)[i] == EntryAt(s, i) && AsMediaLines(s)[i].Index() == i
  {
    if s.app.Some? {
      SortedWithApp(s);
    } else {
      EntriesAscend(s);
      SortedStays(Entries(s.medias));
      assert [] + Entries(s.medias) == Entries(s.medias);
    }
    hide AsMediaLines, SortByIndex;
  }

  // ---------- Every operation leaves the lines where they are ----------

  /** All lines of s are still there, at their indices. */
  predicate Keeps(s: Lines, s': Lines) {
    && (s.app.Some? ==> s'.app == s.app)
    && |s.medias| <= |s'.medias|
    && forall k | 0 <= k < |s.medias| ::
         s'.medias[k].mid == s.medias[k].mid && s'.medias[k].index == s.medias[k].index
  }

  /** Lines are the same but for what can be negotiated about them. */
  predicate SameLines(s: Lines, s': Lines) {
    Keeps(s, s') && s'.app == s.app && |s'.medias| == |s.medias|
  }

  lemma SameLinesInPlace(s: Lines, s': Lines)
    requires InPlace(s) && SameLines(s, s')
    ensures InPlace(s')
  {
  }

  lemma {:induction false} SyncKeeps(s: Lines, lines: seq<Line>, idx: nat)
    requires idx <= |lines|
    ensures SameLines(s, SyncSpec(s, lines, idx).0)
    decreases |lines| - idx
  {
    if idx < |lines| {
      var l := lines[idx];
      var k := FindMedia(s.medias, l.mid);
      SyncKeeps(s, lines, idx + 1);
      if k.Some? {
        SyncKeeps(s.(medias := s.medias[k.value := UpdateMedia(s.medias[k.value], l)]), lines, idx + 1);
      }
    }
  }

  lemma {:induction false} AddNewLinesKeeps(s: Lines, lines: seq<Line>, isOffer: bool)
    requires InPlace(s)
    ensures var s' := AddNewLinesSpec(s, lines, isOffer).0;
            InPlace(s') && Keeps(s, s')
    decreases |lines|
  {
    if lines != [] {
      var l, idx := lines[0], s.Count();
      if l.typ.IsMedia() {
        var s1 := s.(medias := s.medias + [NewMedia(l, idx, isOffer)]);
        assert InPlace(s1);
        AddNewLinesKeeps(s1, lines[1..], isOffer);
      } else if l.typ == Application {
        AddNewLinesKeeps(SetAppSpec(s, l.mid, idx).0, lines[1..], isOffer);
      }
    }
  }

  lemma {:induction false} AddPendingKeeps(s: Lines, pending: seq<Change>)
    ensures var s' := AddPendingSpec(s, pending);
            s'.Some? ==> SameLines(s, s'.value)
    decreases |pending|
  {
    if pending != [] {
      AddPendingKeeps(s, pending[1..]);
      if pending[0].AddMedia? {
        var k := FindMedia(s.medias, pending[0].mid);
        if k.Some? {
          AddPendingKeeps(s.(medias := s.medias[k.value := s.medias[k.value].(msid := pending[0].msid)]), pending[1..]);
        }
      }
    }
  }

  datatype Step =
    | Offer(lines: seq<Line>) | Answer(pending: seq<Change>, lines: seq<Line>) | Direct(mid: Mid, dir: Direction)

  function Next(s: Lines, step: Step): Lines {
    match step
    case Offer(lines) => ApplyOfferSpec(s, lines).0
    case Answer(pending, lines) => ApplyAnswerSpec(s, pending, lines).0
    case Direct(mid, dir) => SetDirection(s, mid, dir)
  }

  lemma OfferKeeps(s: Lines, lines: seq<Line>)
    requires InPlace(s)
    ensures InPlace(ApplyOfferSpec(s, lines).0) && Keeps(s, ApplyOfferSpec(s, lines).0)
  {
    SyncKeeps(s, lines, 0);
    var (s1, newLines) := SyncSpec(s, lines, 0);
    SameLinesInPlace(s, s1);
    if newLines.Some? {
      AddNewLinesKeeps(s1, newLines.value, true);
    }
  }

  lemma AnswerKeeps(s: Lines, pending: seq<Change>, lines: seq<Line>)
    requires InPlace(s)
    ensures InPlace(ApplyAnswerSpec(s, pending, lines).0) && Keeps(s, ApplyAnswerSpec(s, pending, lines).0)
  {
    SyncKeeps(s, lines, 0);
    var (s1, newLines) := SyncSpec(s, lines, 0);
    SameLinesInPlace(s, s1);
    if newLines.Some? {
      AddNewLinesKeeps(s1, newLines.value, false);
      AddPendingKeeps(AddNewLinesSpec(s1, newLines.value, false).0, pending);
    }
  }

  lemma StepKeeps(s: Lines, step: Step)
    requires InPlace(s)
    ensures InPlace(Next(s, step)) && Keeps(s, Next(s, step))
  {
    match step
    case Offer(lines) => OfferKeeps(s, lines);
    case Answer(pending, lines) => AnswerKeeps(s, pending, lines);
    case Direct(mid, dir) =>
  }

  function Run(s: Lines, steps: seq<Step>): Lines
    decreases |steps|
  {
    if steps == [] then s else Run(Next(s, steps[0]), steps[1..])
  }

  /**
   In every run of offers and answers, accepted or not, the lines have the indices from 0 on, none ever moves or
   goes away, and the lines of an SDP are in the order of their indices.
   */
  lemma {:induction false} LinesStay(s: Lines, steps: seq<Step>)
    requires InPlace(s)
    ensures InPlace(Run(s, steps)) && Keeps(s, Run(s, steps))
    ensures var lines := AsMediaLines(Run(s, steps));
            |lines| == Run(s, steps).Count() && forall i | 0 <= i < |lines| :: lines[i].Index() == i
    decreases |steps|
  {
    if steps == [] {
      LinesAreAtTheirIndex(s);
    } else {
      StepKeeps(s, steps[0]);
      LinesStay(Next(s, steps[0]), steps[1..]);
      hide Next, AsMediaLines;
    }
  }

  // ---------- The session's lines are those of the SDP ----------

  predicate Corresponds(e: Entry, l: Line) {
    if e.AppEntry? then l.typ == Application else l.typ.IsMedia() && l.mid == e.media.mid
  }

  /** An SDP starts with all lines of the session. */
  predicate Extends(s: Lines, lines: seq<Line>)
    requires InPlace(s)
  {
    s.Count() <= |lines| && forall i | 0 <= i < s.Count() :: Corresponds(EntryAt(s, i), lines[i])
  }

  predicate KnownTypes(lines: seq<Line>) {
    forall k | 0 <= k < |lines| :: lines[k].typ != Other
  }

  lemma EntriesStay(s: Lines, s': Lines)
    requires InPlace(s) && InPlace(s') && Keeps(s, s')
    ensures s.Count() <= s'.Count()
    ensures forall i | 0 <= i < s.Count() ::
              var e, e' := EntryAt(s, i), EntryAt(s', i);
              if e.AppEntry? then e' == e else e'.MediaEntry? && e'.media.mid == e.media.mid
  {
  }

  lemma ExtendsStays(s: Lines, s': Lines, lines: seq<Line>)
    requires InPlace(s) && InPlace(s') && SameLines(s, s') && Extends(s, lines)
    ensures Extends(s', lines)
  {
    EntriesStay(s, s');
    EntriesStay(s', s);
  }

  lemma KnownLines(s: Lines, lines: seq<Line>, idx: nat)
    requires InPlace(s) && Extends(s, lines) && idx < |lines|
    ensures var l, k := lines[idx], FindMedia(s.medias, lines[idx].mid);
            && (idx < s.Count() ==> (l.typ == Application && s.app.Some?) || (l.typ.IsMedia() && k.Some?))
            && (k.Some? ==> s.medias[k.value].index < s.Count())
            && (s.app.Some? ==> s.app.value.1 < s.Count())
  {
    if idx < s.Count() {
      assert Corresponds(EntryAt(s, idx), lines[idx]);
    }
  }

  lemma {:induction false} AllNew(s: Lines, lines: seq<Line>, idx: nat)
    requires InPlace(s) && Extends(s, lines) && KnownTypes(lines) && s.Count() <= idx <= |lines|
    requires SyncSpec(s, lines, idx).1.Some?
    ensures SyncSpec(s, lines, idx).1.value == lines[idx..]
    decreases |lines| - idx
  {
    if idx < |lines| {
      KnownLines(s, lines, idx);
      assert lines[idx].typ != Other;
      assert lines[idx..] == [lines[idx]] + lines[idx + 1..];
      hide Extends, KnownTypes, InPlace, FindMedia;
      AllNew(s, lines, idx + 1);
    }
  }

  /** Where an SDP that starts with the session's lines is not rejected, its new lines are all the others. */
  lemma {:induction false} NewLinesAreTheRest(s: Lines, lines: seq<Line>, idx: nat)
    requires InPlace(s) && Extends(s, lines) && KnownTypes(lines) && idx <= s.Count()
    requires SyncSpec(s, lines, idx).1.Some?
    ensures SyncSpec(s, lines, idx).1.value == lines[s.Count()..]
    decreases |lines| - idx
  {
    if idx == s.Count() {
      AllNew(s, lines, idx);
    } else {
      var l := lines[idx];
      var k := FindMedia(s.medias, l.mid);
      KnownLines(s, lines, idx);
      hide KnownTypes, FindMedia;
      if l.typ.IsMedia() {
        var s1 := s.(medias := s.medias[k.value := UpdateMedia(s.medias[k.value], l)]);
        SameLinesInPlace(s, s1);
        ExtendsStays(s, s1, lines);
        hide Extends, InPlace;
        NewLinesAreTheRest(s1, lines, idx + 1);
      } else {
        hide Extends, InPlace;
        NewLinesAreTheRest(s, lines, idx + 1);
      }
    }
  }

  lemma {:induction false} AddedLinesCorrespond(s: Lines, lines: seq<Line>, isOffer: bool)
    requires InPlace(s) && Extends(s, lines)
    requires AddNewLinesSpec(s, lines[s.Count()..], isOffer).1
    ensures var s' := AddNewLinesSpec(s, lines[s.Count()..], isOffer).0;
            InPlace(s') && Extends(s', lines) && s'.Count() == |lines|
    decreases |lines| - s.Count()
  {
    var n := s.Count();
    if n < |lines| {
      var l := lines[n];
      assert lines[n..][1..] == lines[n + 1..];
      var s1 := if l.typ.IsMedia() then s.(medias := s.medias + [NewMedia(l, n, isOffer)]) else SetAppSpec(s, l.mid, n).0;
      assert InPlace(s1) && Keeps(s, s1) && s1.Count() == n + 1;
      EntriesStay(s, s1);
      assert Corresponds(EntryAt(s1, n), l);
      AddedLinesCorrespond(s1, lines, isOffer);
    }
  }

  /**
   An offer that is accepted leaves the session with exactly the lines of the offer, in that order, if and only if
   the offer starts with the lines that the session had and has no line of an unknown type.
   */
  lemma OfferGivesItsLinesIff(s: Lines, lines: seq<Line>)
    requires InPlace(s) && ApplyOfferSpec(s, lines).1 == Accepted
    ensures var s' := ApplyOfferSpec(s, lines).0;
            InPlace(s') && (s'.Count() == |lines| && Extends(s', lines) <==> Extends(s, lines) && KnownTypes(lines))
  {
    var s' := ApplyOfferSpec(s, lines).0;
    OfferKeeps(s, lines);
    SyncKeeps(s, lines, 0);
    var (s1, newLines) := SyncSpec(s, lines, 0);
    SameLinesInPlace(s, s1);
    EntriesStay(s, s');
    if Extends(s, lines) && KnownTypes(lines) {
      NewLinesAreTheRest(s, lines, 0);
      ExtendsStays(s, s1, lines);
      AddedLinesCorrespond(s1, lines, true);
    }
    hide SyncSpec, AddNewLinesSpec;
    if s'.Count() == |lines| && Extends(s', lines) {
      assert forall k | 0 <= k < |lines| :: Corresponds(EntryAt(s', k), lines[k]);
    }
  }

  /** A line of unknown type is counted by one side only: the same offer again is taken for a change of order. */
  lemma UnknownTypeShiftsLines()
    ensures var lines := [Line("data", Other, SendRecv), Line("audio", Audio, SendRecv)];
            && ApplyOfferSpec(Lines(None, []), lines).1 == Accepted
            && ApplyOfferSpec(ApplyOfferSpec(Lines(None, []), lines).0, lines).1 == Rejected
  {
    var lines := [Line("data", Other, SendRecv), Line("audio", Audio, SendRecv)];
    var s := Lines(None, []);
    assert SyncSpec(s, lines, 2) == (s, Some([])) && [lines[1]] + [] == [lines[1]];
    assert SyncSpec(s, lines, 1) == (s, Some([lines[1]]));
    assert AddNewLinesSpec(s, [lines[1]], true) == (s.(medias := s.medias + [NewMedia(lines[1], 0, true)]), true);
    var s1 := ApplyOfferSpec(s, lines).0;
    assert s1.medias == [NewMedia(lines[1], 0, true)];
    assert SyncSpec(s1, lines, 1) == (s1, None);
  }

  // ---------- Pending changes find their media ----------

  predicate DistinctMids(lines: seq<Line>) {
    forall i, j | 0 <= i < j < |lines| :: lines[i].mid != lines[j].mid
  }

  /** The mids of changes that add lines, which are made up afresh, differ. */
  predicate DistinctNews(pending: seq<Change>) {
    forall i, j | 0 <= i < j < |pending| && !pending[i].NoLine? && !pending[j].NoLine? :: pending[i].mid != pending[j].mid
  }

  function MidSet(lines: seq<Line>): set<Mid> {
    set k | 0 <= k < |lines| :: lines[k].mid
  }

  function NewMids(pending: seq<Change>): set<Mid> {
    set k | 0 <= k < |pending| && !pending[k].NoLine? :: pending[k].mid
  }

  lemma {:induction false} MidSetSize(lines: seq<Line>)
    ensures |MidSet(lines)| <= |lines|
    ensures |MidSet(lines)| == |lines| <==> DistinctMids(lines)
  {
    if lines != [] {
      var n := |lines| - 1;
      var before, l := lines[..n], lines[n];
      MidSetSize(before);
      assert forall k | 0 <= k < n :: before[k] == lines[k];
      assert MidSet(lines) == MidSet(before) + {l.mid} by {
        forall x | x in MidSet(before) ensures x in MidSet(lines) {
          var k :| 0 <= k < n && before[k].mid == x;
          assert lines[k].mid == x;
        }
        forall x | x in MidSet(lines) ensures x in MidSet(before) + {l.mid} {
          var k :| 0 <= k <= n && lines[k].mid == x;
          assert k < n ==> before[k].mid == x;
        }
      }
      if l.mid in MidSet(before) {
        var k :| 0 <= k < n && before[k].mid == l.mid;
        assert lines[k].mid == lines[n].mid;
      }
    }
  }

  lemma {:induction false} NewMidsSize(pending: seq<Change>)
    requires DistinctNews(pending)
    ensures |NewMids(pending)| == CountNewMedias(pending)
  {
    if pending != [] {
      var c, rest := pending[0], pending[1..];
      NewMidsSize(rest);
      var own := if c.NoLine? then {} else {c.mid};
      assert NewMids(pending) == own + NewMids(rest) by {
        forall x | x in NewMids(rest) ensures x in NewMids(pending) {
          var k :| 0 <= k < |rest| && !rest[k].NoLine? && rest[k].mid == x;
          assert pending[k + 1].mid == x;
        }
        forall x | x in NewMids(pending) ensures x in own + NewMids(rest) {
          var k :| 0 <= k < |pending| && !pending[k].NoLine? && pending[k].mid == x;
          assert k > 0 ==> rest[k - 1].mid == x;
        }
      }
      assert forall k | 0 <= k < |rest| :: rest[k] == pending[k + 1];
    }
  }

  lemma SameSize(a: set<Mid>, b: set<Mid>)
    requires a <= b
    ensures |a| <= |b| && (|a| == |b| <==> a == b)
  {
    assert b == a + (b - a);
  }

  /** The new lines of a correct answer are all those that were offered if and only if their mids differ. */
  lemma AnswersAllIff(pending: seq<Change>, lines: seq<Line>)
    requires DistinctNews(pending) && IsCorrectAnswer(pending, lines)
    ensures MidSet(lines) == NewMids(pending) <==> DistinctMids(lines)
  {
    MidSetSize(lines);
    NewMidsSize(pending);
    assert MidSet(lines) <= NewMids(pending) by {
      forall x | x in MidSet(lines) ensures x in NewMids(pending) {
        var k :| 0 <= k < |lines| && lines[k].mid == x;
        assert Answers(pending, lines[k]);
      }
    }
    SameSize(MidSet(lines), NewMids(pending));
  }

  /** The line with the mid of pending media is a media line. */
  lemma MediaIsAnswered(pending: seq<Change>, lines: seq<Line>, k: nat, i: nat)
    requires DistinctNews(pending) && IsCorrectAnswer(pending, lines)
    requires k < |pending| && pending[k].AddMedia? && i < |lines| && lines[i].mid == pending[k].mid
    ensures lines[i].typ.IsMedia()
  {
    assert Answers(pending, lines[i]);
  }

  /** Media lines that are added are there afterwards. */
  lemma {:induction false} AddedIsThere(s: Lines, lines: seq<Line>, isOffer: bool, i: nat)
    requires i < |lines| && lines[i].typ.IsMedia() && AddNewLinesSpec(s, lines, isOffer).1
    ensures FindMedia(AddNewLinesSpec(s, lines, isOffer).0.medias, lines[i].mid).Some?
    decreases |lines|
  {
    var l, n := lines[0], s.Count();
    var s1 := if l.typ.IsMedia() then s.(medias := s.medias + [NewMedia(l, n, isOffer)]) else SetAppSpec(s, l.mid, n).0;
    if i == 0 {
      assert s1.medias[|s.medias|].mid == l.mid;
      ThereStays(s1, lines[1..], isOffer, l.mid);
    } else {
      AddedIsThere(s1, lines[1..], isOffer, i - 1);
    }
  }

  lemma {:induction false} ThereStays(s: Lines, lines: seq<Line>, isOffer: bool, mid: Mid)
    requires FindMedia(s.medias, mid).Some?
    ensures FindMedia(AddNewLinesSpec(s, lines, isOffer).0.medias, mid).Some?
    decreases |lines|
  {
    if lines != [] {
      var l, n := lines[0], s.Count();
      var s1 := if l.typ.IsMedia() then s.(medias := s.medias + [NewMedia(l, n, isOffer)]) else SetAppSpec(s, l.mid, n).0;
      assert s1.medias[FindMedia(s.medias, mid).value].mid == mid;
      ThereStays(s1, lines[1..], isOffer, mid);
    }
  }

  /** Pending changes are applied if and only if all their media is there. */
  lemma {:induction false} AddPendingIff(s: Lines, pending: seq<Change>)
    ensures AddPendingSpec(s, pending).Some? <==>
            forall k | 0 <= k < |pending| && pending[k].AddMedia? :: FindMedia(s.medias, pending[k].mid).Some?
    decreases |pending|
  {
    if pending != [] {
      var rest := pending[1..];
      assert forall k | 0 <= k < |rest| :: rest[k] == pending[k + 1];
      var k := if pending[0].AddMedia? then FindMedia(s.medias, pending[0].mid) else None;
      var s1 := if k.None? then s else s.(medias := s.medias[k.value := s.medias[k.value].(msid := pending[0].msid)]);
      AddPendingIff(s1, rest);
      forall mid ensures FindMedia(s.medias, mid).Some? <==> FindMedia(s1.medias, mid).Some? {
        assert forall j | 0 <= j < |s.medias| :: s1.medias[j].mid == s.medias[j].mid;
      }
      assert AddPendingSpec(s, pending) == if pending[0].AddMedia? && k.None? then None else AddPendingSpec(s1, rest);
      assert (forall j | 0 <= j < |pending| && pending[j].AddMedia? :: FindMedia(s.medias, pending[j].mid).Some?) <==>
             (pending[0].AddMedia? ==> k.Some?) &&
             (forall j | 0 <= j < |rest| && rest[j].AddMedia? :: FindMedia(s1.medias, rest[j].mid).Some?);
    }
  }

  /** The new lines of an answer are some of its lines, in order. */
  lemma {:induction false} NewLinesDiffer(s: Lines, lines: seq<Line>, idx: nat)
    requires idx <= |lines| && DistinctMids(lines) && SyncSpec(s, lines, idx).1.Some?
    ensures DistinctMids(SyncSpec(s, lines, idx).1.value)
    ensures forall l | l in SyncSpec(s, lines, idx).1.value :: l in lines[idx..]
    decreases |lines| - idx
  {
    if idx < |lines| {
      var l := lines[idx];
      assert lines[idx..] == [l] + lines[idx + 1..];
      var k := FindMedia(s.medias, l.mid);
      if l.typ.IsMedia() && k.Some? {
        NewLinesDiffer(s.(medias := s.medias[k.value := UpdateMedia(s.medias[k.value], l)]), lines, idx + 1);
      } else {
        NewLinesDiffer(s, lines, idx + 1);
        var rest := SyncSpec(s, lines, idx + 1).1.value;
        forall j | 0 <= j < |rest| ensures rest[j].mid != l.mid {
          assert rest[j] in lines[idx + 1..];
          var m :| 0 <= m < |lines[idx + 1..]| && lines[idx + 1..][m] == rest[j];
          assert lines[idx + 1 + m] == rest[j];
        }
      }
    }
  }

  lemma PendingIsThere(s: Lines, pending: seq<Change>, lines: seq<Line>)
    requires DistinctNews(pending) && IsCorrectAnswer(pending, lines) && DistinctMids(lines)
    requires AddNewLinesSpec(s, lines, false).1
    ensures AddPendingSpec(AddNewLinesSpec(s, lines, false).0, pending).Some?
  {
    AnswersAllIff(pending, lines);
    var s' := AddNewLinesSpec(s, lines, false).0;
    hide AddNewLinesSpec, IsCorrectAnswer, DistinctNews, DistinctMids;
    forall k | 0 <= k < |pending| && pending[k].AddMedia? ensures FindMedia(s'.medias, pending[k].mid).Some? {
      assert pending[k].mid in NewMids(pending);
      var i :| 0 <= i < |lines| && lines[i].mid == pending[k].mid;
      MediaIsAnswered(pending, lines, k, i);
      AddedIsThere(s, lines, false, i);
    }
    AddPendingIff(s', pending);
  }

  /** An answer whose lines have different mids never makes the session panic, whatever is pending. */
  lemma AnswerNeverPanics(s: Lines, pending: seq<Change>, lines: seq<Line>)
    requires DistinctNews(pending) && DistinctMids(lines)
    ensures ApplyAnswerSpec(s, pending, lines).1 != Panicked
  {
    var (s1, newLines) := SyncSpec(s, lines, 0);
    if newLines.Some? {
      NewLinesDiffer(s, lines, 0);
      if IsCorrectAnswer(pending, newLines.value) && AddNewLinesSpec(s1, newLines.value, false).1 {
        PendingIsThere(s1, pending, newLines.value);
      }
    }
  }

  predicate IsAdded(lines: seq<Line>, mid: Mid) {
    exists i :: 0 <= i < |lines| && lines[i].typ.IsMedia() && lines[i].mid == mid
  }

  lemma IsAddedCons(l: Line, rest: seq<Line>, mid: Mid)
    ensures IsAdded([l] + rest, mid) <==> (l.typ.IsMedia() && l.mid == mid) || IsAdded(rest, mid)
  {
    var all := [l] + rest;
    assert all[0] == l;
    assert forall i | 0 <= i < |rest| :: rest[i] == all[i + 1];
  }

  lemma FindMediaOfOneMore(medias: seq<Media>, m: Media, mid: Mid)
    ensures FindMedia(medias + [m], mid).Some? <==> FindMedia(medias, mid).Some? || m.mid == mid
  {
    var all := medias + [m];
    assert all[|medias|] == m;
    assert forall k | 0 <= k < |medias| :: all[k] == medias[k];
  }

  /** Media is there after lines were added if it was before, or is among the lines. */
  lemma {:induction false} ThereIff(s: Lines, lines: seq<Line>, isOffer: bool, mid: Mid)
    requires AddNewLinesSpec(s, lines, isOffer).1
    ensures FindMedia(AddNewLinesSpec(s, lines, isOffer).0.medias, mid).Some? <==>
            FindMedia(s.medias, mid).Some? || IsAdded(lines, mid)
    decreases |lines|
  {
    if lines != [] {
      var l, n := lines[0], s.Count();
      var m := NewMedia(l, n, isOffer);
      var s1 := if l.typ.IsMedia() then s.(medias := s.medias + [m]) else SetAppSpec(s, l.mid, n).0;
      assert lines == [l] + lines[1..];
      IsAddedCons(l, lines[1..], mid);
      FindMediaOfOneMore(s.medias, m, mid);
      ThereIff(s1, lines[1..], isOffer, mid);
      hide IsAdded, FindMedia;
    }
  }

  /** Lines can be added if and only if there is at most one for data channels. */
  lemma {:induction false} CanBeAddedIff(s: Lines, lines: seq<Line>, isOffer: bool)
    requires InPlace(s) && KnownTypes(lines)
    ensures AddNewLinesSpec(s, lines, isOffer).1 <==>
            && (forall i, j | 0 <= i < j < |lines| && lines[i].typ == Application :: lines[j].typ != Application)
            && (s.app.Some? ==> forall i | 0 <= i < |lines| :: lines[i].typ != Application)
    decreases |lines|
  {
    if lines != [] {
      var l, n := lines[0], s.Count();
      var s1 := if l.typ.IsMedia() then s.(medias := s.medias + [NewMedia(l, n, isOffer)]) else SetAppSpec(s, l.mid, n).0;
      assert lines[0].typ != Other;
      assert forall i | 0 <= i < |lines[1..]| :: lines[1..][i] == lines[i + 1];
      if l.typ.IsMedia() || s.app.None? {
        assert InPlace(s1);
        CanBeAddedIff(s1, lines[1..], isOffer);
      }
    }
  }

  /**
   An answer brings down the session if and only if its new lines pass the checks and can be added, and media that is
   pending is neither the session's nor among the new lines.
   */
  lemma AnswerPanicsIff(s: Lines, pending: seq<Change>, lines: seq<Line>)
    ensures var (s1, newLines) := SyncSpec(s, lines, 0);
            ApplyAnswerSpec(s, pending, lines).1 == Panicked <==>
            && newLines.Some? && IsCorrectAnswer(pending, newLines.value) && AddNewLinesSpec(s1, newLines.value, false).1
            && exists k :: 0 <= k < |pending| && pending[k].AddMedia? && FindMedia(s.medias, pending[k].mid).None?
                           && !IsAdded(newLines.value, pending[k].mid)
  {
    var (s1, newLines) := SyncSpec(s, lines, 0);
    SyncKeeps(s, lines, 0);
    SameMids(s, s1);
    if newLines.Some? && IsCorrectAnswer(pending, newLines.value) && AddNewLinesSpec(s1, newLines.value, false).1 {
      var s2 := AddNewLinesSpec(s1, newLines.value, false).0;
      AddPendingIff(s2, pending);
      forall mid ensures FindMedia(s2.medias, mid).Some? <==> FindMedia(s.medias, mid).Some? || IsAdded(newLines.value, mid) {
        ThereIff(s1, newLines.value, false, mid);
      }
    }
    hide SyncSpec, AddNewLinesSpec, IsCorrectAnswer, FindMedia, IsAdded;
  }

  lemma SameMids(s: Lines, s': Lines)
    requires SameLines(s, s')
    ensures forall mid :: FindMedia(s'.medias, mid).Some? <==> FindMedia(s.medias, mid).Some?
  {
    forall mid ensures FindMedia(s'.medias, mid).Some? <==> FindMedia(s.medias, mid).Some? {
      assert forall k | 0 <= k < |s.medias| :: s'.medias[k].mid == s.medias[k].mid;
    }
  }

  /** When all pending lines are media that the session does not have, repeated mids among the new lines always do. */
  lemma RepeatedMidsPanicIff(s: Lines, pending: seq<Change>, lines: seq<Line>)
    requires DistinctNews(pending) && forall k | 0 <= k < |pending| :: !pending[k].AddApp?
    requires forall k | 0 <= k < |pending| && pending[k].AddMedia? :: FindMedia(s.medias, pending[k].mid).None?
    requires SyncSpec(s, lines, 0).1.Some? && IsCorrectAnswer(pending, SyncSpec(s, lines, 0).1.value)
    ensures ApplyAnswerSpec(s, pending, lines).1 == Panicked <==> !DistinctMids(SyncSpec(s, lines, 0).1.value)
  {
    var (s1, newLines) := SyncSpec(s, lines, 0);
    var news := newLines.value;
    assert forall k | 0 <= k < |news| :: Answers(pending, news[k]) && news[k].typ.IsMedia();
    MediaCanBeAdded(s1, news);
    if DistinctMids(news) {
      PendingIsThere(s1, pending, news);
    } else {
      AnswerPanicsIff(s, pending, lines);
      var k := Unanswered(pending, news);
      assert !IsAdded(news, pending[k].mid);
    }
  }

  lemma Unanswered(pending: seq<Change>, lines: seq<Line>) returns (k: nat)
    requires DistinctNews(pending) && IsCorrectAnswer(pending, lines) && !DistinctMids(lines)
    ensures k < |pending| && !pending[k].NoLine? && pending[k].mid !in MidSet(lines)
  {
    AnswersAllIff(pending, lines);
    assert MidSet(lines) <= NewMids(pending) by {
      forall x | x in MidSet(lines) ensures x in NewMids(pending) {
        var k :| 0 <= k < |lines| && lines[k].mid == x;
        assert Answers(pending, lines[k]);
      }
    }
    var mid :| mid in NewMids(pending) && mid !in MidSet(lines);
    k :| 0 <= k < |pending| && !pending[k].NoLine? && pending[k].mid == mid;
  }

  lemma {:induction false} MediaCanBeAdded(s: Lines, lines: seq<Line>)
    requires forall k | 0 <= k < |lines| :: lines[k].typ.IsMedia()
    ensures AddNewLinesSpec(s, lines, false).1
    decreases |lines|
  {
    if lines != [] {
      MediaCanBeAdded(s.(medias := s.medias + [NewMedia(lines[0], s.Count(), false)]), lines[1..]);
    }
  }

  /** Two media were offered; the answer has the mid of the first one twice. */
  lemma RepeatedMidPanics()
    ensures var pending := [AddMedia("a", ""), AddMedia("b", "")];
            var lines := [Line("a", Audio, SendRecv), Line("a", Audio, SendRecv)];
            DistinctNews(pending) && ApplyAnswerSpec(Lines(None, []), pending, lines).1 == Panicked
  {
    var pending := [AddMedia("a", ""), AddMedia("b", "")];
    var l := Line("a", Audio, SendRecv);
    var lines := [l, l];
    var s := Lines(None, []);
    assert SyncSpec(s, lines, 2) == (s, Some([])) && [l] + [] == [l] && [l] + [l] == lines;
    assert SyncSpec(s, lines, 1) == (s, Some([l]));
    assert SyncSpec(s, lines, 0) == (s, Some(lines));
    assert FindChange(pending, "a") == Some(0);
    assert pending[1..] == [pending[1]] && |pending[1..][1..]| == 0;
    assert CountNewMedias(pending) == 2;
    assert IsCorrectAnswer(pending, lines);
    CanBeAddedIff(s, lines, false);
    AnswerPanicsIff(s, pending, lines);
    assert !IsAdded(lines, pending[1].mid);
  }

  // ---------- The lines of an offer to be made ----------

  /** The new lines of an offer, with the index that each of them is given. */
  function AsNewMedias(pending: seq<Change>, start: nat): seq<(Mid, nat)> {
    if pending == [] then []
    else (if pending[0].NoLine? then [] else [(pending[0].mid, start)]) + AsNewMedias(pending[1..], start + 1)
  }

  predicate AreNumbered(r: seq<(Mid, nat)>, start: nat) {
    forall k | 0 <= k < |r| :: r[k].1 == start + k
  }

  predicate AllNoLine(pending: seq<Change>) {
    forall k | 0 <= k < |pending| :: pending[k].NoLine?
  }

  /** No other change comes before a line. */
  predicate LinesComeFirst(pending: seq<Change>) {
    forall i, j | 0 <= i < j < |pending| && pending[i].NoLine? :: pending[j].NoLine?
  }

  lemma LinesComeFirstCons(c: Change, rest: seq<Change>)
    ensures LinesComeFirst([c] + rest) <==> if c.NoLine? then AllNoLine(rest) else LinesComeFirst(rest)
  {
    var all := [c] + rest;
    assert all[0] == c;
    assert forall k | 0 <= k < |rest| :: rest[k] == all[k + 1];
  }

  lemma AreNumberedCons(x: (Mid, nat), r: seq<(Mid, nat)>, start: nat)
    ensures AreNumbered([x] + r, start) <==> x.1 == start && AreNumbered(r, start + 1)
  {
    var all := [x] + r;
    assert all[0] == x;
    assert forall k | 0 <= k < |r| :: r[k] == all[k + 1];
  }

  /** The indices are the places of the lines if and only if the lines come before all other changes. */
  lemma {:induction false} NewIndicesArePlacesIff(pending: seq<Change>, start: nat)
    ensures var r := AsNewMedias(pending, start);
            && |r| == CountNewMedias(pending)
            && (r != [] ==> r[0].1 >= start)
            && (AreNumbered(r, start) <==> LinesComeFirst(pending))
    decreases |pending|
  {
    if pending != [] {
      var c, rest := pending[0], pending[1..];
      NewIndicesArePlacesIff(rest, start + 1);
      assert pending == [c] + rest;
      LinesComeFirstCons(c, rest);
      var r := AsNewMedias(rest, start + 1);
      if c.NoLine? {
        assert AsNewMedias(pending, start) == r;
        CountIsZeroIff(rest);
      } else {
        AreNumberedCons((c.mid, start), r, start);
      }
    }
  }

  lemma {:induction false} CountIsZeroIff(pending: seq<Change>)
    ensures CountNewMedias(pending) == 0 <==> AllNoLine(pending)
  {
    if pending != [] {
      CountIsZeroIff(pending[1..]);
      assert forall k | 0 <= k < |pending[1..]| :: pending[1..][k] == pending[k + 1];
    }
  }
}
