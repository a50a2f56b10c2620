/**
 The signal server of signal/main.go: rooms with one device and one client, the channels their messages wait in, and
 any number of connection handlers whose steps interleave.
 */
module SignalRoom {
  import opened Bytes

  const CAPACITY := 64

  datatype Role = Device | Client

  /** A message, as far as the server looks at it: whether it is JSON, and its type. */
  datatype Msg = Msg(valid: bool, kind: string, text: string) {
    predicate IsOffer() {
      valid && kind == "offer"
    }
  }

  function LastOffer(ms: seq<Msg>): (r: Option<Msg>)
    ensures r.Some? ==> r.value in ms && r.value.IsOffer()
    ensures r.None? ==> forall m | m in ms :: !m.IsOffer()
  {
    if ms == [] then None
    else if ms[|ms| - 1].IsOffer() then Some(ms[|ms| - 1])
    else LastOffer(ms[..|ms| - 1])
  }

  /** A peer's channel: what its write loop took out, what is waiting, and whether something found no room. */
  datatype Channel = Channel(taken: seq<Msg>, waiting: seq<Msg>, closed: bool, overflowed: bool) {
    /** All that was ever accepted, in order. */
    function All(): seq<Msg> {
      taken + waiting
    }

    /** A send that does not block. */
    function Offer(m: Msg): Channel {
      if |waiting| < CAPACITY then this.(waiting := waiting + [m]) else this.(overflowed := true)
    }

    function Take(): Channel
      requires waiting != []
    {
      this.(taken := taken + [waiting[0]], waiting := waiting[1..])
    }
  }

  /** A room, for whatever stands for peers. */
  datatype Slots<P> = Slots(device: Option<P>, client: Option<P>, offerCache: Option<Msg>) {
    function Put(role: Role, p: Option<P>): Slots<P> {
      if role == Device then this.(device := p) else this.(client := p)
    }

    function Cleared(role: Role): Slots<P> {
      if role == Device then this.(device := None, offerCache := None) else this.(client := None)
    }

    function Cached(from: Role, m: Msg): Slots<P> {
      if from == Device && m.IsOffer() then this.(offerCache := Some(m)) else this
    }

    function Target(from: Role): Option<P> {
      if from == Device then client else device
    }

    function Of(role: Role): Option<P> {
      if role == Device then device else client
    }

    predicate IsEmpty() {
      device.None? && client.None?
    }
  }

  const EMPTY_ROOM: Slots<nat> := Slots(None, None, None)
  const EMPTY_CHANNEL := Channel([], [], false, false)

  // ---------- The objects ----------

  class Peer {
    var waiting: seq<Msg>
    var closed: bool
    ghost var taken: seq<Msg>
    ghost var overflowed: bool

    constructor ()
      ensures View() == EMPTY_CHANNEL
    {
      waiting, closed, taken, overflowed := [], false, [], false;
    }

    ghost function View(): Channel
      reads this
    {
      Channel(taken, waiting, closed, overflowed)
    }

    /** Sending on a closed channel would be a panic. */
    method Send(m: Msg) returns (ok: bool)
      requires !closed
      modifies this
      ensures View() == old(View()).Offer(m) && ok == (|old(waiting)| < CAPACITY)
    {
      ok := |waiting| < CAPACITY;
      if ok {
        waiting := waiting + [m];
      } else {
        overflowed := true;
      }
    }
  }

  ghost function NonNull(p: Peer?): Option<Peer> {
    if p == null then None else Some(p)
  }

  class Room {
    var device: Peer?
    var client: Peer?
    var offerCache: Option<Msg>

    constructor ()
      ensures View() == Slots(None, None, None)
    {
      device, client, offerCache := null, null, None;
    }

    ghost function View(): Slots<Peer>
      reads this
    {
      Slots(NonNull(device), NonNull(client), offerCache)
    }

    method Set(role: Role, p: Peer)
      modifies this
      ensures View() == old(View()).Put(role, Some(p))
    {
      if role == Device {
        device := p;
      } else {
        client := p;
      }
    }

    method Clear(role: Role)
      modifies this
      ensures View() == old(View()).Cleared(role)
    {
      if role == Device {
        device := null;
        offerCache := None;
      } else {
        client := null;
      }
    }

    method Forward(from: Role, m: Msg)
      requires View().Target(from).Some? ==> !View().Target(from).value.closed
      modifies this`offerCache, if View().Target(from).Some? then {View().Target(from).value} else {}
      ensures View() == old(View()).Cached(from, m)
      ensures var target := old(View()).Target(from);
              target.Some? ==> target.value.View() == old(target.value.View()).Offer(m)
    {
      if from == Device && m.IsOffer() {
        offerCache := Some(m);
      }
      var target := if from == Device then client else device;
      if target == null {
        return;
      }
      var _ := target.Send(m);
    }

    method IsEmpty() returns (empty: bool)
      ensures empty == View().IsEmpty()
    {
      empty := device == null && client == null;
    }
  }

  // ---------- The server ----------

  /**
   Where a handler is: it has its room, joined it, looked for an offer to replay (clients only), forwards what it
   reads, has left the room, has closed its channel, or has tried to delete the room.
   */
  datatype Pc = Entered | Joined | Looked(cached: Option<Msg>) | Serving | Left | Closed | Gone

  /** A connection handler and its peer; sent is what it has forwarded. */
  datatype Handler = Handler(role: Role, id: string, room: nat, pc: Pc, channel: Channel, sent: seq<Msg>) {
    /** Between set and clear. */
    predicate Present() {
      pc == Joined || pc.Looked? || pc == Serving
    }
  }

  /** Rooms are never reused: a room that was removed from the registry may still be in use by some handlers. */
  datatype Server = Server(registry: map<string, nat>, rooms: seq<Slots<nat>>, handlers: seq<Handler>, panicked: bool)

  const START := Server(map[], [], [], false)

  /** The atomic steps: what happens under one lock, or one channel operation. */
  datatype Step =
    | Open(role: Role, id: string) | Join(h: nat) | Look(h: nat) | Replay(h: nat) | Read(h: nat, m: Msg)
    | Leave(h: nat) | Close(h: nat) | Delete(h: nat) | Pump(h: nat)

  predicate Enabled(s: Server, step: Step) {
    if step.Open? then true
    else if step.h >= |s.handlers| then false
    else
      var h := s.handlers[step.h];
      match step
      case Join(_) => h.pc == Entered
      case Look(_) => h.pc == Joined
      case Replay(_) => h.pc.Looked?
      case Read(_, _) => h.pc == Serving
      case Leave(_) => h.pc == Serving
      case Close(_) => h.pc == Left
      case Delete(_) => h.pc == Closed
      case Pump(_) => h.channel.waiting != []
  }

  /** Sends to a handler's peer. */
  function SendTo(s: Server, p: nat, m: Msg): Server
    requires p < |s.handlers|
  {
    var peer := s.handlers[p];
    if peer.channel.closed then s.(panicked := true)
    else s.(handlers := s.handlers[p := peer.(channel := peer.channel.Offer(m))])
  }

  function Next(s: Server, step: Step): Server
    requires InRange(s) && Enabled(s, step)
  {
    if step.Open? then
      var known := step.id in s.registry;
      var r := if known then s.registry[step.id] else |s.rooms|;
      s.(registry := s.registry[step.id := r],
         rooms := if known then s.rooms else s.rooms + [EMPTY_ROOM],
         handlers := s.handlers + [Handler(step.role, step.id, r, Entered, EMPTY_CHANNEL, [])])
    else
      var h := s.handlers[step.h];
      var room := s.rooms[h.room];
      match step
      case Join(_) =>
        var next := if h.role == Client then Joined else Serving;
        s.(rooms := s.rooms[h.room := room.Put(h.role, Some(step.h))], handlers := s.handlers[step.h := h.(pc := next)])
      case Look(_) =>
        s.(handlers := s.handlers[step.h := h.(pc := Looked(room.offerCache))])
      case Replay(_) =>
        var s1 := s.(handlers := s.handlers[step.h := h.(pc := Serving)]);
        if h.pc.cached.Some? then SendTo(s1, step.h, h.pc.cached.value) else s1
      case Read(_, m) =>
        if !m.valid then s
        else
          var s1 := s.(rooms := s.rooms[h.room := room.Cached(h.role, m)],
                       handlers := s.handlers[step.h := h.(sent := h.sent + [m])]);
          var target := room.Target(h.role);
          if target.None? then s1 else SendTo(s1, target.value, m)
      case Leave(_) =>
        s.(rooms := s.rooms[h.room := room.Cleared(h.role)], handlers := s.handlers[step.h := h.(pc := Left)])
      case Close(_) =>
        if h.channel.closed then s.(panicked := true)
        else s.(handlers := s.handlers[step.h := h.(pc := Closed, channel := h.channel.(closed := true))])
      case Delete(_) =>
        var registered := h.id in s.registry && s.rooms[s.registry[h.id]].IsEmpty();
        s.(registry := if registered then s.registry - {h.id} else s.registry,
           handlers := s.handlers[step.h := h.(pc := Gone)])
      case Pump(_) =>
        s.(handlers := s.handlers[step.h := h.(channel := h.channel.Take())])
  }

  /** All indices exist. */
  predicate InRange(s: Server) {
    && (forall id | id in s.registry :: s.registry[id] < |s.rooms|)
    && (forall h | 0 <= h < |s.handlers| :: s.handlers[h].room < |s.rooms|)
    && (forall r | 0 <= r < |s.rooms| ::
          && (s.rooms[r].device.Some? ==> s.rooms[r].device.value < |s.handlers|)
          && (s.rooms[r].client.Some? ==> s.rooms[r].client.value < |s.handlers|))
  }

  // ---------- No message is sent on a closed channel ----------

  /** Whoever is in a slot is a handler of that role that has joined the room and not left it. */
  predicate SlotOk(s: Server, r: nat, role: Role)
    requires r < |s.rooms|
  {
    var p := s.rooms[r].Of(role);
    p.Some? ==>
      && p.value < |s.handlers| && s.handlers[p.value].room == r && s.handlers[p.value].role == role
      && s.handlers[p.value].Present()
  }

  predicate HandlerOk(s: Server, h: nat)
    requires h < |s.handlers|
  {
    && s.handlers[h].room < |s.rooms|
    && (s.handlers[h].channel.closed <==> s.handlers[h].pc == Closed || s.handlers[h].pc == Gone)
    && (s.handlers[h].pc == Entered ==> s.handlers[h].channel == EMPTY_CHANNEL && s.handlers[h].sent == [])
  }

  predicate Inv(s: Server) {
    && InRange(s) && !s.panicked
    && (forall r, role | 0 <= r < |s.rooms| :: SlotOk(s, r, role))
    && (forall h | 0 <= h < |s.handlers| :: HandlerOk(s, h))
  }

  /** What the invariant says of the handler whose step it is, and of its room. */
  lemma Instances(s: Server, step: Step)
    requires Inv(s) && Enabled(s, step) && !step.Open?
    ensures var h := s.handlers[step.h];
            && HandlerOk(s, step.h) && SlotOk(s, h.room, Device) && SlotOk(s, h.room, Client)
            && forall p | s.rooms[h.room].Target(h.role) == Some(p) :: p < |s.handlers| && !s.handlers[p].channel.closed
  {
    var h := s.handlers[step.h];
    var room := s.rooms[h.room];
    assert SlotOk(s, h.room, Device) && SlotOk(s, h.room, Client);
    assert room.device.Some? ==> HandlerOk(s, room.device.value);
    assert room.client.Some? ==> HandlerOk(s, room.client.value);
  }

  lemma StepKeepsIndices(s: Server, step: Step)
    requires Inv(s) && Enabled(s, step)
    ensures |Next(s, step).rooms| >= |s.rooms| && |Next(s, step).handlers| >= |s.handlers|
    ensures InRange(Next(s, step)) && !Next(s, step).panicked
  {
    if !step.Open? {
      Instances(s, step);
    }
  }

  /** What a step does to a room that is there already. */
  lemma RoomAfter(s: Server, step: Step, r: nat)
    requires Inv(s) && Enabled(s, step) && r < |s.rooms|
    ensures r < |Next(s, step).rooms|
    ensures var before, after := s.rooms[r], Next(s, step).rooms[r];
            if step.Open? || s.handlers[step.h].room != r then after == before
            else
              var role := s.handlers[step.h].role;
              match step
              case Join(h) => after == before.Put(role, Some(h))
              case Read(_, m) => after == if m.valid then before.Cached(role, m) else before
              case Leave(_) => after == before.Cleared(role)
              case _ => after == before
  {
    if !step.Open? {
      Instances(s, step);
    }
  }

  function PcAfter(s: Server, step: Step): Pc
    requires InRange(s) && Enabled(s, step) && !step.Open?
  {
    var h := s.handlers[step.h];
    match step
    case Join(_) => if h.role == Client then Joined else Serving
    case Look(_) => Looked(s.rooms[h.room].offerCache)
    case Replay(_) => Serving
    case Leave(_) => Left
    case Close(_) => Closed
    case Delete(_) => Gone
    case _ => h.pc
  }

  /** What a step does to where a handler is, and to whom it is. */
  lemma HandlerAfter(s: Server, step: Step, k: nat)
    requires Inv(s) && Enabled(s, step) && k < |s.handlers|
    ensures k < |Next(s, step).handlers|
    ensures var before, after := s.handlers[k], Next(s, step).handlers[k];
            && after.role == before.role && after.id == before.id && after.room == before.room
            && (step.Open? || step.h != k ==> after.pc == before.pc && after.sent == before.sent)
            && (!step.Open? && step.h == k ==>
                  after.sent == if step.Read? && step.m.valid then before.sent + [step.m] else before.sent)
            && (!step.Open? && step.h == k ==> after.pc == PcAfter(s, step))
  {
    if !step.Open? {
      Instances(s, step);
    }
  }

  lemma StepKeepsSlot(s: Server, step: Step, r: nat, role: Role)
    requires Inv(s) && Enabled(s, step) && r < |Next(s, step).rooms|
    ensures SlotOk(Next(s, step), r, role)
  {
    if r < |s.rooms| {
      assert SlotOk(s, r, role);
      hide Next, Inv;
      RoomAfter(s, step, r);
      if s.rooms[r].Of(role).Some? {
        HandlerAfter(s, step, s.rooms[r].Of(role).value);
      }
      if !step.Open? {
        HandlerAfter(s, step, step.h);
      }
    }
  }

  lemma StepKeepsHandler(s: Server, step: Step, h: nat)
    requires Inv(s) && Enabled(s, step) && h < |Next(s, step).handlers|
    ensures HandlerOk(Next(s, step), h)
  {
    if !step.Open? {
      Instances(s, step);
    }
    assert h < |s.handlers| ==> HandlerOk(s, h);
  }

  lemma StepKeepsInv(s: Server, step: Step)
    requires Inv(s) && Enabled(s, step)
    ensures Inv(Next(s, step))
  {
    hide Next, SlotOk, HandlerOk;
    StepKeepsIndices(s, step);
    forall r, role | 0 <= r < |Next(s, step).rooms| ensures SlotOk(Next(s, step), r, role) {
      StepKeepsSlot(s, step, r, role);
    }
    forall h | 0 <= h < |Next(s, step).handlers| ensures HandlerOk(Next(s, step), h) {
      StepKeepsHandler(s, step, h);
    }
  }

  // ---------- Runs ----------

  predicate LegalRun(s: Server, steps: seq<Step>)
    requires Inv(s)
    decreases |steps|
  {
    steps == [] || (Enabled(s, steps[0]) && (StepKeepsInv(s, steps[0]); LegalRun(Next(s, steps[0]), steps[1..])))
  }

  function Run(s: Server, steps: seq<Step>): (s': Server)
    requires Inv(s) && LegalRun(s, steps)
    ensures Inv(s')
    decreases |steps|
  {
    if steps == [] then s
    else
      StepKeepsInv(s, steps[0]);
      Run(Next(s, steps[0]), steps[1..])
  }

  /** Whatever handlers do, in whatever order: no message is sent on a closed channel, and none is closed twice. */
  lemma NeverPanics(steps: seq<Step>)
    requires LegalRun(START, steps)
    ensures !Run(START, steps).panicked
  {
  }

  // ---------- The offer reaches the client ----------

  /** A step only ever adds to a channel, and loses a message only when the channel is full. */
  lemma ChannelAfter(s: Server, step: Step, k: nat)
    requires Inv(s) && Enabled(s, step) && k < |s.handlers|
    ensures k < |Next(s, step).handlers|
    ensures var before, after := s.handlers[k].channel, Next(s, step).handlers[k].channel;
            && (after.overflowed <==> before.overflowed || Accepted(s, step, k) != Sent(s, step, k))
            && after.All() == before.All() + Accepted(s, step, k)
  {
    if step.Open? {
      NothingAccepted(s.handlers[k].channel);
    } else {
      Instances(s, step);
      NothingAccepted(s.handlers[k].channel);
      if Sent(s, step, k) != [] {
        OfferAll(s.handlers[k].channel, Sent(s, step, k)[0]);
      }
      hide Channel.All;
    }
  }

  lemma OfferAll(c: Channel, m: Msg)
    ensures c.Offer(m).All() == c.All() + if |c.waiting| < CAPACITY then [m] else []
  {
  }

  lemma NothingAccepted(c: Channel)
    ensures c.All() + [] == c.All() == c.(closed := true).All()
    ensures c.waiting != [] ==> c.Take().All() == c.All()
  {
  }

  /** The message that a step sends to a handler's peer, if it sends one. */
  function Sent(s: Server, step: Step, k: nat): seq<Msg>
    requires Inv(s) && Enabled(s, step)
  {
    if step.Open? then []
    else
      var h := s.handlers[step.h];
      if step.Read? && step.m.valid && s.rooms[h.room].Target(h.role) == Some(k) then [step.m]
      else if step.Replay? && step.h == k && h.pc.cached.Some? then [h.pc.cached.value]
      else []
  }

  function Accepted(s: Server, step: Step, k: nat): seq<Msg>
    requires Inv(s) && Enabled(s, step) && k < |s.handlers|
  {
    if |s.handlers[k].channel.waiting| < CAPACITY then Sent(s, step, k) else []
  }

  /** The offer that is cached has reached the client, or is on its way to it. */
  predicate Reaches(h: Handler, offer: Msg) {
    h.channel.overflowed || h.pc == Joined || h.pc == Looked(Some(offer)) || offer in h.channel.All()
  }

  predicate CacheReaches(s: Server, r: nat)
    requires InRange(s) && r < |s.rooms|
  {
    var room := s.rooms[r];
    room.client.Some? && room.offerCache.Some? ==> Reaches(s.handlers[room.client.value], room.offerCache.value)
  }

  lemma StepKeepsCacheReaches(s: Server, step: Step, r: nat)
    requires Inv(s) && Enabled(s, step) && r < |s.rooms| && CacheReaches(s, r)
    ensures InRange(Next(s, step)) && r < |Next(s, step).rooms| && CacheReaches(Next(s, step), r)
  {
    StepKeepsIndices(s, step);
    RoomAfter(s, step, r);
    var c := Next(s, step).rooms[r].client;
    if c.Some? && c.value < |s.handlers| {
      HandlerAfter(s, step, c.value);
      ChannelAfter(s, step, c.value);
      assert SlotOk(s, r, Client);
    }
    hide Channel.All;
  }

  /** The handler holds its room's slot. */
  predicate InSlot(s: Server, k: nat)
    requires InRange(s) && k < |s.handlers|
  {
    s.rooms[s.handlers[k].room].Of(s.handlers[k].role) == Some(k)
  }

  predicate IsDeviceIn(h: Handler, r: nat) {
    h.room == r && h.role == Device && h.Present()
  }

  /** No other device is connected to the room now; others may have been before. */
  predicate OnlyDevice(s: Server, d: nat)
    requires d < |s.handlers|
  {
    forall h | 0 <= h < |s.handlers| && IsDeviceIn(s.handlers[h], s.handlers[d].room) :: h == d
  }

  /** The cache holds the last offer of the only device that is connected, if that has the slot. */
  predicate Remembers(s: Server, d: nat)
    requires InRange(s) && d < |s.handlers|
  {
    s.handlers[d].role == Device && InSlot(s, d) && OnlyDevice(s, d) ==>
      s.rooms[s.handlers[d].room].offerCache == LastOffer(s.handlers[d].sent)
  }

  /** Without a device, nothing is cached. */
  predicate NothingCached(s: Server, r: nat)
    requires InRange(s) && r < |s.rooms|
  {
    s.rooms[r].offerCache.Some? ==> exists h :: 0 <= h < |s.handlers| && IsDeviceIn(s.handlers[h], r)
  }

  lemma StepKeepsNothingCached(s: Server, step: Step, r: nat)
    requires Inv(s) && Enabled(s, step) && r < |s.rooms| && NothingCached(s, r)
    ensures InRange(Next(s, step)) && r < |Next(s, step).rooms| && NothingCached(Next(s, step), r)
  {
    StepKeepsIndices(s, step);
    RoomAfter(s, step, r);
    var s' := Next(s, step);
    if s.rooms[r].offerCache.Some? {
      var h :| 0 <= h < |s.handlers| && IsDeviceIn(s.handlers[h], r);
      HandlerAfter(s, step, h);
      assert s'.rooms[r].offerCache.Some? ==> IsDeviceIn(s'.handlers[h], r);
    } else if !step.Open? {
      HandlerAfter(s, step, step.h);
      assert s'.rooms[r].offerCache.Some? ==> IsDeviceIn(s'.handlers[step.h], r);
    }
    hide Next;
  }

  /** A device that is the only one after a step was so before, unless it has joined or its slot was emptied. */
  lemma OnlyDeviceBefore(s: Server, step: Step, d: nat)
    requires Inv(s) && Enabled(s, step) && d < |s.handlers| && s.handlers[d].role == Device
    ensures InRange(Next(s, step)) && d < |Next(s, step).handlers|
    ensures InSlot(Next(s, step), d) && OnlyDevice(Next(s, step), d) && step != Join(d) ==>
              InSlot(s, d) && OnlyDevice(s, d)
  {
    StepKeepsIndices(s, step);
    HandlerAfter(s, step, d);
    RoomAfter(s, step, s.handlers[d].room);
    var s' := Next(s, step);
    hide Next;
    if InSlot(s', d) && OnlyDevice(s', d) && step != Join(d) {
      forall h | 0 <= h < |s.handlers| && IsDeviceIn(s.handlers[h], s.handlers[d].room) ensures h == d {
        HandlerAfter(s, step, h);
      }
    }
  }

  lemma StepKeepsRemembers(s: Server, step: Step, d: nat)
    requires Inv(s) && Enabled(s, step) && d < |s.handlers| && Remembers(s, d)
    requires NothingCached(s, s.handlers[d].room)
    ensures InRange(Next(s, step)) && d < |Next(s, step).handlers| && Remembers(Next(s, step), d)
  {
    StepKeepsIndices(s, step);
    HandlerAfter(s, step, d);
    RoomAfter(s, step, s.handlers[d].room);
    if s.handlers[d].role == Device {
      OnlyDeviceBefore(s, step, d);
      if step == Join(d) {
        JoinsEmptyRoom(s, d);
      } else if !step.Open? {
        HandlerAfter(s, step, step.h);
        assert SlotOk(s, s.handlers[d].room, Device);
        if step.Read? {
          LastOfferOfOneMore(s.handlers[d].sent, step.m);
        }
      }
    }
    hide Next, LastOffer;
  }

  /** When a device is the only one after it joined, there was nothing cached in its room. */
  lemma JoinsEmptyRoom(s: Server, d: nat)
    requires Inv(s) && Enabled(s, Join(d)) && s.handlers[d].role == Device && NothingCached(s, s.handlers[d].room)
    ensures d < |Next(s, Join(d)).handlers|
    ensures OnlyDevice(Next(s, Join(d)), d) ==> s.rooms[s.handlers[d].room].offerCache == None
    ensures LastOffer(s.handlers[d].sent) == None
  {
    var s' := Next(s, Join(d));
    assert HandlerOk(s, d);
    HandlerAfter(s, Join(d), d);
    if s.rooms[s.handlers[d].room].offerCache.Some? {
      var h :| 0 <= h < |s.handlers| && IsDeviceIn(s.handlers[h], s.handlers[d].room);
      HandlerAfter(s, Join(d), h);
    }
  }

  lemma LastOfferOfOneMore(ms: seq<Msg>, m: Msg)
    ensures LastOffer(ms + [m]) == if m.IsOffer() then Some(m) else LastOffer(ms)
  {
    assert (ms + [m])[..|ms|] == ms;
  }

  /** Only offers are cached, or kept for a replay. */
  predicate CachesOffers(s: Server, r: nat)
    requires InRange(s) && r < |s.rooms|
  {
    var room := s.rooms[r];
    && (room.offerCache.Some? ==> room.offerCache.value.IsOffer())
    && (room.client.Some? ==>
          var h := s.handlers[room.client.value];
          h.pc.Looked? && h.pc.cached.Some? ==> h.pc.cached.value.IsOffer())
  }

  /** Before the replay, the client has seen no offer, or the cached one last. */
  predicate BeforeReplay(s: Server, r: nat)
    requires InRange(s) && r < |s.rooms|
  {
    var room := s.rooms[r];
    room.client.Some? && room.offerCache.Some? && !s.handlers[room.client.value].channel.overflowed ==>
      var h := s.handlers[room.client.value];
      var last := LastOffer(h.channel.All());
      && (h.pc == Joined ==> last == None || last == room.offerCache)
      && (h.pc.Looked? ==> last == room.offerCache || (last == None && h.pc.cached == room.offerCache))
  }

  lemma LastOfferAfter(s: Server, step: Step, k: nat)
    requires Inv(s) && Enabled(s, step) && k < |s.handlers|
    ensures k < |Next(s, step).handlers|
    ensures var sent := Accepted(s, step, k);
            LastOffer(Next(s, step).handlers[k].channel.All()) ==
            if sent != [] && sent[0].IsOffer() then Some(sent[0]) else LastOffer(s.handlers[k].channel.All())
  {
    ChannelAfter(s, step, k);
    hide Next, LastOffer, Channel.All;
    var all, sent := s.handlers[k].channel.All(), Accepted(s, step, k);
    if sent == [] {
      assert all + sent == all;
    } else {
      assert sent == [sent[0]];
    }
  }

  lemma StepKeepsCachesOffers(s: Server, step: Step, r: nat)
    requires Inv(s) && Enabled(s, step) && r < |s.rooms| && CachesOffers(s, r)
    ensures InRange(Next(s, step)) && r < |Next(s, step).rooms| && CachesOffers(Next(s, step), r)
  {
    StepKeepsIndices(s, step);
    RoomAfter(s, step, r);
    var c := Next(s, step).rooms[r].client;
    if c.Some? && c.value < |s.handlers| {
      HandlerAfter(s, step, c.value);
      assert SlotOk(s, r, Client);
    }
  }

  lemma StepKeepsBeforeReplay(s: Server, step: Step, r: nat)
    requires Inv(s) && Enabled(s, step) && r < |s.rooms| && CachesOffers(s, r) && BeforeReplay(s, r)
    ensures InRange(Next(s, step)) && r < |Next(s, step).rooms| && BeforeReplay(Next(s, step), r)
  {
    assert LastOffer(EMPTY_CHANNEL.All()) == None;
    hide Next, Channel.All, LastOffer;
    StepKeepsIndices(s, step);
    RoomAfter(s, step, r);
    var c := Next(s, step).rooms[r].client;
    if c.Some? && c.value < |s.handlers| {
      HandlerAfter(s, step, c.value);
      ChannelAfter(s, step, c.value);
      LastOfferAfter(s, step, c.value);
      assert SlotOk(s, r, Client) && HandlerOk(s, c.value);
    }
    if !step.Open? {
      Instances(s, step);
    }
  }

  /** All that is kept by every step. */
  predicate Good(s: Server) {
    && Inv(s)
    && (forall r | 0 <= r < |s.rooms| :: CacheReaches(s, r) && NothingCached(s, r) && CachesOffers(s, r) && BeforeReplay(s, r))
    && (forall k | 0 <= k < |s.handlers| :: Remembers(s, k))
  }

  lemma StepKeepsGood(s: Server, step: Step)
    requires Good(s) && Enabled(s, step)
    ensures Good(Next(s, step))
  {
    StepKeepsInv(s, step);
    var s' := Next(s, step);
    forall r | 0 <= r < |s'.rooms| ensures CacheReaches(s', r) && NothingCached(s', r) && CachesOffers(s', r) && BeforeReplay(s', r) {
      if r < |s.rooms| {
        StepKeepsCacheReaches(s, step, r);
        StepKeepsNothingCached(s, step, r);
        StepKeepsCachesOffers(s, step, r);
        StepKeepsBeforeReplay(s, step, r);
      }
    }
    forall k | 0 <= k < |s'.handlers| ensures Remembers(s', k) {
      if k < |s.handlers| {
        assert HandlerOk(s, k);
        StepKeepsRemembers(s, step, k);
      } else {
        OpenRemembers(s, step);
      }
    }
  }

  lemma OpenRemembers(s: Server, step: Step)
    requires Good(s) && step.Open?
    ensures InRange(Next(s, step)) && Remembers(Next(s, step), |s.handlers|)
  {
    assert forall r | 0 <= r < |s.rooms| :: SlotOk(s, r, step.role);
  }

  lemma {:induction false} RunKeepsGood(s: Server, steps: seq<Step>)
    requires Good(s) && LegalRun(s, steps)
    ensures Good(Run(s, steps))
    decreases |steps|
  {
    hide Good, Next;
    if steps != [] {
      StepKeepsGood(s, steps[0]);
      GoodMeans(s);
      RunKeepsGood(Next(s, steps[0]), steps[1..]);
    }
  }

  lemma GoodMeans(s: Server)
    requires Good(s)
    ensures Inv(s)
  {
  }

  /**
   Whatever all handlers do, and whoever was in the room before: when the only device that is connected has the room's
   slot, and the client in the other slot has got past the replay and its channel was never full, the last offer of
   the device is among the messages for the client.
   */
  lemma OfferReachesClient(steps: seq<Step>, d: nat, c: nat)
    requires LegalRun(START, steps)
    requires var s := Run(START, steps);
             && d < |s.handlers| && c < |s.handlers| && s.handlers[d].room == s.handlers[c].room
             && s.handlers[d].role == Device && InSlot(s, d) && OnlyDevice(s, d)
             && s.handlers[c].role == Client && InSlot(s, c) && s.handlers[c].pc == Serving
             && !s.handlers[c].channel.overflowed
             && LastOffer(s.handlers[d].sent).Some?
    ensures var s := Run(START, steps);
            LastOffer(s.handlers[d].sent).value in s.handlers[c].channel.All()
  {
    RunKeepsGood(START, steps);
    var s := Run(START, steps);
    hide Run, LegalRun;
    assert Remembers(s, d) && CacheReaches(s, s.handlers[c].room);
  }

  // ---------- Which offer comes last ----------

  /** The last offer that a client in its room's slot has got is the cached one. */
  predicate UpToDate(s: Server, r: nat)
    requires InRange(s) && r < |s.rooms|
  {
    var room := s.rooms[r];
    room.client.Some? && room.offerCache.Some? && s.handlers[room.client.value].pc == Serving
    && !s.handlers[room.client.value].channel.overflowed ==>
      LastOffer(s.handlers[room.client.value].channel.All()) == room.offerCache
  }

  /** A replay of what was cached when the client looked, while another offer is cached now. */
  predicate ReplaysOldOffer(s: Server, step: Step, r: nat)
    requires InRange(s) && Enabled(s, step) && r < |s.rooms|
  {
    && step.Replay? && s.rooms[r].client == Some(step.h) && s.handlers[step.h].pc.cached.Some?
    && s.rooms[r].offerCache.Some? && s.rooms[r].offerCache != s.handlers[step.h].pc.cached
    && !s.handlers[step.h].channel.overflowed && |s.handlers[step.h].channel.waiting| < CAPACITY
  }

  /** Only a late replay can make an offer that is not the device's last one the last that the client gets. */
  lemma OutdatedIff(s: Server, step: Step, r: nat)
    requires Good(s) && Enabled(s, step) && r < |s.rooms| && UpToDate(s, r)
    ensures InRange(Next(s, step)) && r < |Next(s, step).rooms|
    ensures UpToDate(Next(s, step), r) <==> !ReplaysOldOffer(s, step, r)
  {
    hide Next, Channel.All, LastOffer;
    assert CachesOffers(s, r) && BeforeReplay(s, r);
    StepKeepsIndices(s, step);
    RoomAfter(s, step, r);
    var c := Next(s, step).rooms[r].client;
    if c.Some? && c.value < |s.handlers| {
      HandlerAfter(s, step, c.value);
      ChannelAfter(s, step, c.value);
      LastOfferAfter(s, step, c.value);
      assert SlotOk(s, r, Client) && HandlerOk(s, c.value);
    }
    if !step.Open? {
      Instances(s, step);
    }
  }

  predicate NoLateReplay(s: Server, steps: seq<Step>, r: nat)
    requires Inv(s) && LegalRun(s, steps)
    decreases |steps|
  {
    steps == [] ||
    (StepKeepsInv(s, steps[0]);
     !(r < |s.rooms| && ReplaysOldOffer(s, steps[0], r)) && NoLateReplay(Next(s, steps[0]), steps[1..], r))
  }

  lemma {:induction false} UpToDateWithoutLateReplay(s: Server, steps: seq<Step>, r: nat)
    requires Good(s) && LegalRun(s, steps) && NoLateReplay(s, steps, r)
    requires r < |s.rooms| ==> UpToDate(s, r)
    ensures r < |Run(s, steps).rooms| ==> UpToDate(Run(s, steps), r)
    decreases |steps|
  {
    if steps != [] {
      StepKeepsGood(s, steps[0]);
      if r < |s.rooms| {
        OutdatedIff(s, steps[0], r);
      } else {
        NewRoomIsUpToDate(s, steps[0], r);
      }
      hide Good, Next, UpToDate, ReplaysOldOffer;
      UpToDateWithoutLateReplay(Next(s, steps[0]), steps[1..], r);
    }
  }

  lemma NewRoomIsUpToDate(s: Server, step: Step, r: nat)
    requires Good(s) && Enabled(s, step) && |s.rooms| <= r
    ensures InRange(Next(s, step)) && (r < |Next(s, step).rooms| ==> UpToDate(Next(s, step), r))
  {
    StepKeepsIndices(s, step);
    if !step.Open? {
      Instances(s, step);
    }
  }

  lemma {:induction false} RunConcat(s: Server, first: seq<Step>, rest: seq<Step>)
    requires Inv(s) && LegalRun(s, first) && LegalRun(Run(s, first), rest)
    ensures LegalRun(s, first + rest) && Run(s, first + rest) == Run(Run(s, first), rest)
    decreases |first|
  {
    if first == [] {
      assert first + rest == rest;
    } else {
      StepKeepsInv(s, first[0]);
      assert (first + rest)[1..] == first[1..] + rest;
      hide Next, Inv, Enabled;
      RunConcat(Next(s, first[0]), first[1..], rest);
    }
  }

  lemma RunOne(s: Server, step: Step)
    requires Inv(s) && Enabled(s, step)
    ensures LegalRun(s, [step]) && Run(s, [step]) == Next(s, step)
  {
    StepKeepsInv(s, step);
    assert [step][1..] == [];
    hide Next, Inv;
  }

  /** One more step of a run. */
  lemma OneMore(s: Server, steps: seq<Step>, step: Step, next: Server)
    requires Inv(s) && LegalRun(s, steps) && Enabled(Run(s, steps), step) && Next(Run(s, steps), step) == next
    ensures LegalRun(s, steps + [step]) && Run(s, steps + [step]) == next
  {
    RunOne(Run(s, steps), step);
    RunConcat(s, steps, [step]);
  }

  const OLD_OFFER := Msg(true, "offer", "old")
  const NEW_OFFER := Msg(true, "offer", "new")
  /** A device that has made an offer, with a client at the door. */
  const OFFERED := [Open(Device, "room"), Join(0), Read(0, OLD_OFFER), Open(Client, "room")]
  const OFFERING := Handler(Device, "room", 0, Serving, EMPTY_CHANNEL, [OLD_OFFER])
  const VISITOR := Handler(Client, "room", 0, Entered, EMPTY_CHANNEL, [])

  lemma Offering()
    ensures LegalRun(START, OFFERED[..2])
    ensures Run(START, OFFERED[..2]) ==
            Server(map["room" := 0], [Slots(Some(0), None, None)], [OFFERING.(sent := [])], false)
  {
    EmptyRun(START);
    hide LegalRun, Run, Inv;
    var d := OFFERING.(pc := Entered, sent := []);
    var s1 := Server(map["room" := 0], [EMPTY_ROOM], [d], false);
    OneMore(START, [], OFFERED[0], s1);
    var s2 := s1.(rooms := [Slots(Some(0), None, None)], handlers := [d.(pc := Serving)]);
    assert s1.rooms[0 := s2.rooms[0]] == s2.rooms && s1.handlers[0 := s2.handlers[0]] == s2.handlers;
    OneMore(START, [] + [OFFERED[0]], OFFERED[1], s2);
    assert OFFERED[..2] == [] + [OFFERED[0]] + [OFFERED[1]];
  }

  lemma Offered()
    ensures LegalRun(START, OFFERED)
    ensures Run(START, OFFERED) ==
            Server(map["room" := 0], [Slots(Some(0), None, Some(OLD_OFFER))], [OFFERING, VISITOR], false)
  {
    Offering();
    assert Inv(START);
    hide LegalRun, Run, Inv;
    var d := OFFERING.(sent := []);
    var s2 := Server(map["room" := 0], [Slots(Some(0), None, None)], [d], false);
    var s3 := s2.(rooms := [Slots(Some(0), None, Some(OLD_OFFER))], handlers := [OFFERING]);
    assert s2.rooms[0 := s3.rooms[0]] == s3.rooms && s2.handlers[0 := s3.handlers[0]] == s3.handlers;
    assert d.sent + [OLD_OFFER] == OFFERING.sent;
    OneMore(START, OFFERED[..2], OFFERED[2], s3);
    OneMore(START, OFFERED[..2] + [OFFERED[2]], OFFERED[3], s3.(handlers := [OFFERING, VISITOR]));
    assert OFFERED == OFFERED[..2] + [OFFERED[2]] + [OFFERED[3]];
  }

  lemma EmptyRun(s: Server)
    requires Inv(s)
    ensures LegalRun(s, []) && Run(s, []) == s
  {
  }

  /** The device's next offer overtakes the replay: the last offer that the client gets is the old one. */
  lemma LateReplay()
    ensures var steps := OFFERED + [Join(1), Look(1), Read(0, NEW_OFFER), Replay(1)];
            && LegalRun(START, steps)
            && Run(START, steps) ==
               Server(map["room" := 0], [Slots(Some(0), Some(1), Some(NEW_OFFER))],
                      [OFFERING.(sent := [OLD_OFFER, NEW_OFFER]),
                       VISITOR.(pc := Serving, channel := EMPTY_CHANNEL.(waiting := [NEW_OFFER, OLD_OFFER]))], false)
  {
    hide LegalRun, Run;
    Offered();
    var s0 := Server(map["room" := 0], [Slots(Some(0), None, Some(OLD_OFFER))], [OFFERING, VISITOR], false);
    var rest := [Join(1), Look(1), Read(0, NEW_OFFER), Replay(1)];
    var room := Slots(Some(0), Some(1), Some(OLD_OFFER));
    var s1 := s0.(rooms := [room], handlers := [OFFERING, VISITOR.(pc := Joined)]);
    assert s0.rooms[0 := room] == s1.rooms && s0.handlers[1 := s1.handlers[1]] == s1.handlers;
    OneMore(START, OFFERED, rest[0], s1);
    var s2 := s1.(handlers := [OFFERING, VISITOR.(pc := Looked(Some(OLD_OFFER)))]);
    assert s1.handlers[1 := s2.handlers[1]] == s2.handlers;
    OneMore(START, OFFERED + [rest[0]], rest[1], s2);
    LateReplayEnds(OFFERED + [rest[0]] + [rest[1]], s2);
    assert OFFERED + rest == OFFERED + [rest[0]] + [rest[1]] + [rest[2]] + [rest[3]];
  }

  lemma LateReplayEnds(steps: seq<Step>, s2: Server)
    requires LegalRun(START, steps) && Run(START, steps) == s2
    requires s2.registry == map["room" := 0] && s2.rooms == [Slots(Some(0), Some(1), Some(OLD_OFFER))] && !s2.panicked
    requires s2.handlers == [OFFERING, VISITOR.(pc := Looked(Some(OLD_OFFER)))]
    ensures LegalRun(START, steps + [Read(0, NEW_OFFER)] + [Replay(1)])
    ensures Run(START, steps + [Read(0, NEW_OFFER)] + [Replay(1)]) ==
               Server(map["room" := 0], [Slots(Some(0), Some(1), Some(NEW_OFFER))],
                      [OFFERING.(sent := [OLD_OFFER, NEW_OFFER]),
                       VISITOR.(pc := Serving, channel := EMPTY_CHANNEL.(waiting := [NEW_OFFER, OLD_OFFER]))], false)
  {
    hide LegalRun, Run, Inv;
    var d := OFFERING.(sent := [OLD_OFFER, NEW_OFFER]);
    assert d.sent == OFFERING.sent + [NEW_OFFER];
    var c := VISITOR.(pc := Looked(Some(OLD_OFFER)), channel := EMPTY_CHANNEL.(waiting := [NEW_OFFER]));
    assert EMPTY_CHANNEL.waiting + [NEW_OFFER] == c.channel.waiting;
    var s3 := s2.(rooms := [Slots(Some(0), Some(1), Some(NEW_OFFER))], handlers := [d, c]);
    assert s2.rooms[0 := s3.rooms[0]] == s3.rooms && s2.handlers[0 := d][1 := c] == s3.handlers;
    OneMore(START, steps, Read(0, NEW_OFFER), s3);
    var c' := c.(pc := Serving, channel := EMPTY_CHANNEL.(waiting := [NEW_OFFER, OLD_OFFER]));
    assert c.channel.waiting + [OLD_OFFER] == c'.channel.waiting;
    var s4 := s3.(handlers := [d, c']);
    assert s3.handlers[1 := c.(pc := Serving)][1 := c'] == s4.handlers;
    OneMore(START, steps + [Read(0, NEW_OFFER)], Replay(1), s4);
  }

  // ---------- Who shares a room ----------

  /** The registry leads to the handler's room. */
  predicate Registered(s: Server, k: nat)
    requires k < |s.handlers|
  {
    s.handlers[k].id in s.registry && s.registry[s.handlers[k].id] == s.handlers[k].room
  }

  /** The step takes an id out of the registry. */
  predicate RemovesId(s: Server, step: Step, id: string)
    requires InRange(s) && Enabled(s, step)
  {
    step.Delete? && s.handlers[step.h].id == id && id in s.registry && s.rooms[s.registry[id]].IsEmpty()
  }

  /** A handler's room is registered until its id is taken out; later rooms of that name are others. */
  lemma RegisteredAfter(s: Server, step: Step, k: nat)
    requires Inv(s) && Enabled(s, step) && k < |s.handlers|
    ensures k < |Next(s, step).handlers|
    ensures Registered(Next(s, step), k) <==> Registered(s, k) && !RemovesId(s, step, s.handlers[k].id)
  {
    HandlerAfter(s, step, k);
    if !step.Open? {
      Instances(s, step);
    }
  }

  /** A handler that enters gets the room of those of its name that are registered, and is registered. */
  lemma RegisteredWhenOpened(s: Server, step: Step, j: nat)
    requires Inv(s) && step.Open?
    ensures |Next(s, step).handlers| == |s.handlers| + 1 && Registered(Next(s, step), |s.handlers|)
    ensures j < |s.handlers| && s.handlers[j].id == step.id ==>
              (Next(s, step).handlers[j].room == Next(s, step).handlers[|s.handlers|].room <==> Registered(s, j))
  {
  }

  /** The id of j is taken out of the registry after j entered, and before k does. */
  predicate RemovedBetween(s: Server, steps: seq<Step>, j: nat, k: nat)
    requires Inv(s) && LegalRun(s, steps)
    decreases |steps|
  {
    steps != [] &&
    (StepKeepsInv(s, steps[0]);
     || (j < |s.handlers| <= k && RemovesId(s, steps[0], s.handlers[j].id))
     || RemovedBetween(Next(s, steps[0]), steps[1..], j, k))
  }

  /** The handlers j and k have one room, as far as that is settled: k may not have entered yet, or neither. */
  predicate SharesSoFar(s: Server, j: nat, k: nat) {
    if k < |s.handlers| && j < |s.handlers| then s.handlers[j].room == s.handlers[k].room
    else j < |s.handlers| ==> Registered(s, j)
  }

  /** In every run, two handlers of one name have one room if and only if the name was not removed between their entries. */
  lemma {:induction false} SharedRoomIff(s: Server, steps: seq<Step>, j: nat, k: nat)
    requires Inv(s) && LegalRun(s, steps) && j < k < |Run(s, steps).handlers|
    requires Run(s, steps).handlers[j].id == Run(s, steps).handlers[k].id
    ensures Run(s, steps).handlers[j].room == Run(s, steps).handlers[k].room <==>
            SharesSoFar(s, j, k) && !RemovedBetween(s, steps, j, k)
    decreases |steps|
  {
    if steps != [] {
      StepKeepsInv(s, steps[0]);
      SharesAfter(s, steps[0], j, k);
      var s1 := Next(s, steps[0]);
      if k < |s1.handlers| {
        SameIds(s1, steps[1..], j);
        SameIds(s1, steps[1..], k);
      }
      hide Next, SlotOk, HandlerOk, SharesSoFar, RemovesId;
      SharedRoomIff(s1, steps[1..], j, k);
    }
  }

  lemma SharesAfter(s: Server, step: Step, j: nat, k: nat)
    requires Inv(s) && Enabled(s, step) && j < k
    ensures var s1 := Next(s, step);
            (k < |s1.handlers| ==> s1.handlers[j].id == s1.handlers[k].id) ==>
              (SharesSoFar(s1, j, k) <==>
               SharesSoFar(s, j, k) && !(j < |s.handlers| <= k && RemovesId(s, step, s.handlers[j].id)))
  {
    if j < |s.handlers| {
      RegisteredAfter(s, step, j);
      HandlerAfter(s, step, j);
      if k < |s.handlers| {
        HandlerAfter(s, step, k);
      }
    }
    if step.Open? {
      RegisteredWhenOpened(s, step, j);
    } else {
      Instances(s, step);
    }
  }

  /** Handlers keep their ids and rooms. */
  lemma {:induction false} SameIds(s: Server, steps: seq<Step>, k: nat)
    requires Inv(s) && LegalRun(s, steps) && k < |s.handlers|
    ensures k < |Run(s, steps).handlers|
    ensures Run(s, steps).handlers[k].id == s.handlers[k].id && Run(s, steps).handlers[k].room == s.handlers[k].room
    decreases |steps|
  {
    hide Next, SlotOk, HandlerOk;
    if steps != [] {
      StepKeepsInv(s, steps[0]);
      HandlerAfter(s, steps[0], k);
      SameIds(Next(s, steps[0]), steps[1..], k);
    }
  }

  /** The id of k is taken out of the registry after k has entered, and before it joins. */
  predicate LostEntering(s: Server, steps: seq<Step>, k: nat)
    requires Inv(s) && LegalRun(s, steps)
    decreases |steps|
  {
    steps != [] &&
    (StepKeepsInv(s, steps[0]);
     || (k < |s.handlers| && s.handlers[k].pc == Entered && RemovesId(s, steps[0], s.handlers[k].id))
     || LostEntering(Next(s, steps[0]), steps[1..], k))
  }

  /** A room with someone in it is neither removed from the registry nor put back there. */
  lemma StepKeepsRegistered(s: Server, step: Step, k: nat)
    requires Inv(s) && Enabled(s, step) && k < |s.handlers| && InSlot(s, k)
    ensures k < |Next(s, step).handlers|
    ensures Registered(Next(s, step), k) <==> Registered(s, k)
  {
    RegisteredAfter(s, step, k);
    if !step.Open? {
      Instances(s, step);
    }
    hide Next;
  }

  /** Who has a slot has had it since it joined. */
  lemma {:induction false} SlotSinceJoin(s: Server, steps: seq<Step>, k: nat)
    requires Inv(s) && LegalRun(s, steps) && k < |s.handlers|
    ensures k < |Run(s, steps).handlers|
    ensures InSlot(Run(s, steps), k) ==> s.handlers[k].pc == Entered || InSlot(s, k)
    decreases |steps|
  {
    hide Next, SlotOk, HandlerOk;
    if steps != [] {
      StepKeepsInv(s, steps[0]);
      HandlerAfter(s, steps[0], k);
      RoomAfter(s, steps[0], s.handlers[k].room);
      SlotSinceJoin(Next(s, steps[0]), steps[1..], k);
    }
  }

  lemma RegisteredStep(s: Server, step: Step, k: nat)
    requires Inv(s) && Enabled(s, step)
    requires k < |s.handlers| ==> s.handlers[k].pc == Entered || InSlot(s, k)
    ensures var s1 := Next(s, step);
            (k < |s1.handlers| ==> Registered(s1, k)) <==>
            (k < |s.handlers| ==> Registered(s, k) && !(s.handlers[k].pc == Entered && RemovesId(s, step, s.handlers[k].id)))
  {
    hide SlotOk, HandlerOk, RemovesId;
    if k < |s.handlers| {
      RegisteredAfter(s, step, k);
      if s.handlers[k].pc != Entered {
        StepKeepsRegistered(s, step, k);
      }
      hide Next, Registered;
    } else if step.Open? {
      RegisteredWhenOpened(s, step, 0);
    } else {
      Instances(s, step);
    }
  }

  /** In every run, who has a slot is registered if and only if its name was not removed between its entry and its join. */
  lemma {:induction false} RegisteredInSlotIff(s: Server, steps: seq<Step>, k: nat)
    requires Inv(s) && LegalRun(s, steps) && k < |Run(s, steps).handlers| && InSlot(Run(s, steps), k)
    ensures Registered(Run(s, steps), k) <==>
            (k < |s.handlers| ==> Registered(s, k)) && !LostEntering(s, steps, k)
    decreases |steps|
  {
    if steps != [] {
      StepKeepsInv(s, steps[0]);
      if k < |s.handlers| {
        SlotSinceJoin(s, steps, k);
        HandlerAfter(s, steps[0], k);
      }
      RegisteredStep(s, steps[0], k);
      hide Next, SlotOk, HandlerOk, Registered, RemovesId, InSlot;
      RegisteredInSlotIff(Next(s, steps[0]), steps[1..], k);
    }
  }

  /**
   A device and a client of one name, each in its slot, meet if and only if the name was not removed while one of them was
   between its entry and its join, or was so for both of them, and not between their two entries.
   */
  lemma PeersMeetIff(steps: seq<Step>, j: nat, k: nat)
    requires LegalRun(START, steps)
    requires var s := Run(START, steps);
             && j < k < |s.handlers| && s.handlers[j].id == s.handlers[k].id && InSlot(s, j) && InSlot(s, k)
    ensures var s := Run(START, steps);
            s.handlers[j].room == s.handlers[k].room <==>
            if LostEntering(START, steps, j) then
              LostEntering(START, steps, k) && !RemovedBetween(START, steps, j, k)
            else !LostEntering(START, steps, k)
  {
    RegisteredInSlotIff(START, steps, j);
    RegisteredInSlotIff(START, steps, k);
    SharedRoomIff(START, steps, j, k);
    hide LegalRun, Run, LostEntering, RemovedBetween;
  }

  // ---------- Looking and removing ----------

  /** The removal of a name that was found to be empty before. */
  function Removed(s: Server, h: nat): Server
    requires h < |s.handlers|
  {
    s.(registry := s.registry - {s.handlers[h].id}, handlers := s.handlers[h := s.handlers[h].(pc := Gone)])
  }

  lemma RemovalIs(s: Server, h: nat)
    requires Inv(s) && Enabled(s, Delete(h)) && RemovesId(s, Delete(h), s.handlers[h].id)
    ensures Next(s, Delete(h)) == Removed(s, h) && InRange(Removed(s, h))
  {
    StepKeepsInv(s, Delete(h));
    hide Inv, SlotOk;
  }

  lemma EnabledAfterRemoval(s: Server, h: nat, step: Step)
    requires Inv(s) && h < |s.handlers| && InRange(Removed(s, h))
    requires !step.Open? && !step.Delete? && step.h != h && Enabled(s, step)
    ensures Enabled(Removed(s, h), step)
  {
  }

  lemma SendAfterRemoval(s: Server, h: nat, p: nat, m: Msg)
    requires h < |s.handlers| && p < |s.handlers|
    ensures h < |SendTo(s, p, m).handlers| && SendTo(Removed(s, h), p, m) == Removed(SendTo(s, p, m), h)
  {
    var a, b := SendTo(Removed(s, h), p, m), Removed(SendTo(s, p, m), h);
    assert a.handlers == b.handlers;
  }

  lemma ReadAfterRemoval(s: Server, h: nat, step: Step)
    requires Inv(s) && h < |s.handlers| && InRange(Removed(s, h)) && Enabled(Removed(s, h), step)
    requires step.Read? && step.h != h && Enabled(s, step)
    ensures h < |Next(s, step).handlers| && Next(Removed(s, h), step) == Removed(Next(s, step), h)
  {
    if step.m.valid {
      var k := s.handlers[step.h];
      var room := s.rooms[k.room];
      var s1 := s.(rooms := s.rooms[k.room := room.Cached(k.role, step.m)],
                   handlers := s.handlers[step.h := k.(sent := k.sent + [step.m])]);
      var target := room.Target(k.role);
      if target.Some? {
        SendAfterRemoval(s1, h, target.value, step.m);
      }
      assert Removed(s, h).handlers[step.h] == k;
      assert Removed(s, h).handlers[step.h := s1.handlers[step.h]] == Removed(s1, h).handlers;
      hide SendTo, Slots.Cached, Slots.Target, Inv;
    }
  }

  lemma ReplayAfterRemoval(s: Server, h: nat, step: Step)
    requires Inv(s) && h < |s.handlers| && InRange(Removed(s, h)) && Enabled(Removed(s, h), step)
    requires step.Replay? && step.h != h && Enabled(s, step)
    ensures h < |Next(s, step).handlers| && Next(Removed(s, h), step) == Removed(Next(s, step), h)
  {
    var k := s.handlers[step.h];
    if k.pc.cached.Some? {
      SendAfterRemoval(s.(handlers := s.handlers[step.h := k.(pc := Serving)]), h, step.h, k.pc.cached.value);
    }
    hide SendTo;
  }

  lemma StepAfterRemoval(s: Server, h: nat, step: Step)
    requires Inv(s) && h < |s.handlers| && InRange(Removed(s, h)) && Enabled(Removed(s, h), step)
    requires !step.Open? && !step.Delete? && step.h != h && Enabled(s, step)
    ensures h < |Next(s, step).handlers| && Next(Removed(s, h), step) == Removed(Next(s, step), h)
  {
    if step.Read? {
      hide Next, Removed, Enabled, Inv;
      ReadAfterRemoval(s, h, step);
    } else if step.Replay? {
      hide Next, Removed, Enabled, Inv;
      ReplayAfterRemoval(s, h, step);
    }
  }

  /**
   The server looks under the room's lock and removes under the registry's, which it holds all the time. So only steps
   that leave the registry alone fall in between, and they might as well come after the removal.
   */
  lemma StepsBetweenCommute(s: Server, h: nat, step: Step)
    requires Inv(s) && Enabled(s, Delete(h)) && RemovesId(s, Delete(h), s.handlers[h].id)
    requires !step.Open? && !step.Delete? && step.h != h && Enabled(s, step)
    ensures InRange(Next(s, Delete(h))) && Enabled(Next(s, Delete(h)), step)
    ensures h < |Next(s, step).handlers| && Next(Next(s, Delete(h)), step) == Removed(Next(s, step), h)
  {
    hide Next, Removed, Inv;
    RemovalIs(s, h);
    EnabledAfterRemoval(s, h, step);
    StepAfterRemoval(s, h, step);
  }

  /** A device that came and went, and has not removed the room yet. */
  const ABANDONED := [Open(Device, "room"), Join(0), Leave(0), Close(0)]
  const LEAVER := Handler(Device, "room", 0, Closed, EMPTY_CHANNEL.(closed := true), [])

  lemma Arrived()
    ensures LegalRun(START, ABANDONED[..2])
    ensures Run(START, ABANDONED[..2]) ==
            Server(map["room" := 0], [Slots(Some(0), None, None)], [LEAVER.(pc := Serving, channel := EMPTY_CHANNEL)], false)
  {
    EmptyRun(START);
    hide LegalRun, Run, Inv;
    var d := LEAVER.(pc := Entered, channel := EMPTY_CHANNEL);
    var s1 := Server(map["room" := 0], [EMPTY_ROOM], [d], false);
    OneMore(START, [], ABANDONED[0], s1);
    var s2 := s1.(rooms := [Slots(Some(0), None, None)], handlers := [d.(pc := Serving)]);
    assert s1.rooms[0 := s2.rooms[0]] == s2.rooms && s1.handlers[0 := s2.handlers[0]] == s2.handlers;
    OneMore(START, [] + [ABANDONED[0]], ABANDONED[1], s2);
    assert ABANDONED[..2] == [] + [ABANDONED[0]] + [ABANDONED[1]];
  }

  lemma Abandoned()
    ensures LegalRun(START, ABANDONED)
    ensures Run(START, ABANDONED) == Server(map["room" := 0], [EMPTY_ROOM], [LEAVER], false)
  {
    Arrived();
    assert Inv(START);
    hide LegalRun, Run, Inv;
    var d := LEAVER.(pc := Serving, channel := EMPTY_CHANNEL);
    var s2 := Server(map["room" := 0], [Slots(Some(0), None, None)], [d], false);
    var s3 := s2.(rooms := [EMPTY_ROOM], handlers := [d.(pc := Left)]);
    assert s2.rooms[0 := EMPTY_ROOM] == s3.rooms && s2.handlers[0 := s3.handlers[0]] == s3.handlers;
    OneMore(START, ABANDONED[..2], ABANDONED[2], s3);
    var s4 := s3.(handlers := [LEAVER]);
    assert s3.handlers[0 := LEAVER] == s4.handlers;
    OneMore(START, ABANDONED[..2] + [ABANDONED[2]], ABANDONED[3], s4);
    assert ABANDONED == ABANDONED[..2] + [ABANDONED[2]] + [ABANDONED[3]];
  }

  /**
   A room found by one handler and removed by another before the first one joins: a device and a client of the same
   name end up in different rooms.
   */
  lemma LostRoom()
    ensures var steps := ABANDONED + [Open(Device, "room"), Delete(0), Join(1), Open(Client, "room"), Join(2)];
            && LegalRun(START, steps)
            && var s := Run(START, steps);
            && |s.handlers| == 3 && s.handlers[1].id == s.handlers[2].id && s.handlers[1].room != s.handlers[2].room
            && InSlot(s, 1) && InSlot(s, 2) && !Registered(s, 1) && Registered(s, 2)
  {
    hide LegalRun, Run;
    Abandoned();
    var rest := [Open(Device, "room"), Delete(0), Join(1), Open(Client, "room"), Join(2)];
    var d := LEAVER.(pc := Entered, channel := EMPTY_CHANNEL);
    var s0 := Server(map["room" := 0], [EMPTY_ROOM], [LEAVER], false);
    var s1 := s0.(handlers := [LEAVER, d]);
    assert s0.registry["room" := 0] == s0.registry;
    OneMore(START, ABANDONED, rest[0], s1);
    var s2 := s0.(registry := map[], handlers := [LEAVER.(pc := Gone), d]);
    assert s1.registry - {"room"} == map[] && s1.handlers[0 := s2.handlers[0]] == s2.handlers;
    OneMore(START, ABANDONED + [rest[0]], rest[1], s2);
    LostRoomEnds(ABANDONED + [rest[0]] + [rest[1]], s2);
    assert ABANDONED + rest == ABANDONED + [rest[0]] + [rest[1]] + [rest[2]] + [rest[3]] + [rest[4]];
  }

  lemma LostRoomEnds(steps: seq<Step>, s2: Server)
    requires LegalRun(START, steps) && Run(START, steps) == s2
    requires s2.registry == map[] && s2.rooms == [EMPTY_ROOM] && !s2.panicked
    requires s2.handlers == [LEAVER.(pc := Gone), LEAVER.(pc := Entered, channel := EMPTY_CHANNEL)]
    ensures var all := steps + [Join(1)] + [Open(Client, "room")] + [Join(2)];
            && LegalRun(START, all)
            && var s := Run(START, all);
            && |s.handlers| == 3 && s.handlers[1].id == s.handlers[2].id && s.handlers[1].room != s.handlers[2].room
            && InSlot(s, 1) && InSlot(s, 2) && !Registered(s, 1) && Registered(s, 2)
  {
    hide LegalRun, Run, Inv;
    var s3 := Next(s2, Join(1));
    OneMore(START, steps, Join(1), s3);
    assert s3.rooms == [Slots(Some(1), None, None)] && s3.handlers[1].pc == Serving && |s3.handlers| == 2;
    var s4 := Next(s3, Open(Client, "room"));
    OneMore(START, steps + [Join(1)], Open(Client, "room"), s4);
    assert s4.registry == map["room" := 1] && s4.rooms == [Slots(Some(1), None, None), EMPTY_ROOM];
    OneMore(START, steps + [Join(1)] + [Open(Client, "room")], Join(2), Next(s4, Join(2)));
  }
}
