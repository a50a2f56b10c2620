# A verified model of a WebRTC KVM agent

The repository streams a screen to a browser over WebRTC and takes the browser's input back. This project models its
deterministic core in Dafny and proves what that core promises:

- the **ICE agent** of the vendored WebRTC engine (candidates, pairs, checklist, nomination, connection state and
  retransmission, after RFC 8445): `IceCandidate`, `IcePair`, `Retransmission`, `IceAgentSpec`, `IceAgentOps`,
  `IceAgentRuns`, `IceRounds`, `IceAnnouncements`, `IceFormation`, `IceCorners`, `IceEffects`, `IceTicks`, two agents in
  `IceExchange` and `IceTransactions`, a pair over its life in `PairLife`, and the agent as an object in `IceAgent`;
- the **reordering buffer** that turns RTP packets into frames: `Segments`, `ReorderBuffer`, `BufferRuns`,
  `BufferDisorder`, `StreamDelivery`, and the filter for layered frames in `Contiguity` and `LayeredFrames`;
- the **H.264 payload format** (RFC 6184): `H264` and `H264Framing`, and its way through the reordering buffer in
  `FrameDelivery` and `H264Streams`;
- the **STUN codec** of the engine (RFC 5389): `Stun` prints, `StunParser` parses, `StunRoundTrip` relates the two, and
  `StunMeaning` says which byte strings are accepted and what they mean;
- the **STUN and TURN messages** of the agent itself (RFC 5389 and RFC 5766): `Turn`;
- **negotiation**: m-lines in `MediaLines` and `LineDirections` (RFC 3264), payload types in `PayloadTypes` and
  `PayloadCollisions`, SCTP stream ids in `StreamIds` (RFC 8832);
- the **signal server**'s rooms as a protocol of interleaved atomic steps: `SignalRoom` and `SignalDelivery`;
- the **pixel converters** in front of the encoder: `Video`.

`Bytes`, `Sets` and `Codec` are shared: big-endian fields, exclusive or, the size of subsets, and what the buffer needs
of a payload format.

Code that changes objects, arrays or buffers step by step is modelled by classes and methods with loops, which are
proved against functions on values; the properties, most of them about whole runs, are proved about these functions.
`dafny verify dfyconfig.toml` checks everything.

## Conventions

- Time is an integer number of milliseconds. Sequence numbers, ids and counters are unbounded, except where their
  width matters: pair priorities, stream ids, payload types, 16-bit lengths and fragment sizes have their bounds
  stated or proved.
- Bytes are integers in 0..255; masks and shifts are written as remainders and quotients.
- Socket addresses are opaque outside the codecs. Fresh random ids are fresh numbers.
- HMAC, CRC, MD5 and the UTF-8 check are parameters; only the sizes of the hashes are used.
- The signal server removes a name in one step, although it looks at the room under one lock and removes under another;
  `SignalRoom.StepsBetweenCommute` says why.
- Where Rust panics, the model has an error value (a panic on short STUN buffers, on repeated payload types, on media
  missing for a pending change) or a precondition (nominating a pair twice, confirming a removed channel, sending on
  a closed channel), and the latter are shown to hold wherever the model calls the operation.
- Standard library routines (stable sort, retain, binary search, searching iterators) are functions; their use in
  methods is one call.

## What the proofs found

These are facts of the code that differ from what a reader may expect of it or of its comments. Each has a lemma.

- The depacketize cache of the buffer is keyed by index range, so that a frame can come out with another frame's
  contents (`BufferRuns.StaleHit`), packets in the wrong order (`BufferDisorder.OutOfOrder`, from a new buffer), and,
  after a single late packet, one frame twice and the one before it never (`BufferDisorder.GivenTwice`). `NeverStale`
  is the condition on where the packets of a run go. `StreamDelivery.StreamArrivesIff` and `AllFramesArrive` say that
  it decides, together with skipping, exactly when a stream comes out right.
- The replay of the cached offer can come after a newer offer (`SignalRoom.LateReplay`; `OutdatedIff` says exactly
  when), and a room can be removed between its lookup and the join, which separates a device from its client
  (`LostRoom`; `RegisteredInSlotIff`, `SharedRoomIff` and `PeersMeetIff` say exactly when).
- A pair that comes from a STUN request is not compared with the pairs on the checklist
  (`IceFormation.RequestKeepsNoneRedundantIff`), nor does this path look at the limit
  (`IceCorners.RequestIgnoresLimit`); `IceCorners.RequestExceedsLimit` is a run that ends above the limit, with two
  redundant pairs. A pair that replaces a redundant one is always nominated, also when the replaced one was not
  (`IceCorners.ReplacementIsNominated`), and `ConnectedWithoutCheck` is a run that ends up connected without a check.
- The first local candidate of an address cannot be added again after it was taken back, and a later one of a preferred
  kind can be there twice (`IceEffects.LocalIsAddedIff` and `AddingKeepsNoneTwiceIff` say exactly when; `AddedTwice` is a
  run).
- In ice-lite mode the loop that lets pairs without a request count from now never finds one, since such pairs have just
  been pruned (`IceTicks.CountingIsIdle`).
- Payload types that are kept without being negotiated can collide with reassigned ones
  (`PayloadCollisions.OpenTypesMayCollide`; `OpenTypesDifferIff` says exactly when).
- An m-line of unknown type shifts all lines behind it (`MediaLines.UnknownTypeShiftsLines`), an answer that repeats
  a mid can bring down the session (`RepeatedMidPanics`; `AnswerPanicsIff` says exactly which do), and the index given
  to a new line of an offer is not its place when another pending change comes before it (`NewIndicesArePlacesIff`).
  Own media that is inactive stays inactive when the other side wants to receive it (`LineDirections.OfferTurnsDirections`),
  and an offer that is rejected has turned media already (`RejectedOfferTurns`).
- Send indications of 65517 to 65532 bytes are lost and longer ones than 65535 are cut off
  (`Turn.RelayRoundTripIff`). UDP keeps real ones below that.
- The STUN printer writes four extra zero bytes after a user name whose length is a multiple of 4; its parser takes
  them for an unknown attribute (`StunRoundTrip.ParseUsername`). The parser refuses messages that start with the integrity
  hash, and reads addresses and fingerprints beyond the length of their attributes (`StunMeaning.ParsesIff`).
- Connection states are never announced twice in a row, but a restart empties the event queue, so that the user can
  see the same state twice (`IceAnnouncements.CheckingTwice`; `SeenTwiceIff` says exactly when, and `NextAfterRestart`
  what decides it).
- CMYK JPEG pictures become black (`Video.CmykJpegIsBlack`).

A comment on local preferences (agent.rs) gives 65432 where the code has 65532; the model follows the code.

## Model

The main results come first, then the lemmas they rest on or that add to them, then the methods, which are proved against
specification functions of which the lemmas speak.

| member | source | states |
|---|---|---|
| H264Streams.StreamSurvivesIff | agent/patches/str0m-0.5.1/src/packet/h264.rs:46-325 | end to end over a whole stream: frames that are packetized one after the other, whose packets come in in any order, with repeats and with pops in between, come out in order, each once, with the units that the round trip delivers, if and only if no pop skips a frame and none gives a stale one |
| H264Streams.StreamIsComplete | agent/patches/str0m-0.5.1/src/packet/h264.rs:46-325 | and once all packets are in, as many pops as there are frames give all of them, on exactly the same condition |
| StreamDelivery.StreamArrivesIff | agent/patches/str0m-0.5.1/src/packet/buffer_rx.rs:114-255 | over every run in which the packets of a stream come in, in any order, with repeats and with pops in between, what comes out is a beginning of the frames of the stream, in order, each once and whole, if and only if no pop skips a frame and none gives a frame out of the cache after a push at or before the end of it |
| StreamDelivery.AllFramesArrive | agent/patches/str0m-0.5.1/src/packet/buffer_rx.rs:114-255 | when every packet comes in at some time and as many pops as there are frames end the run, all frames have come out, in order, each once and whole, if and only if no pop before skips a frame and none gives a stale one |
| StreamDelivery.FewFramesNeverSkip | agent/patches/str0m-0.5.1/src/packet/buffer_rx.rs:174-198 | after the first frame, a stream of fewer frames than are held back never has one skipped, in whatever order its packets come |
| H264.RoundTrip | agent/patches/str0m-0.5.1/src/packet/h264.rs:46-325 | for every list of valid units, every mix of start codes and every mtu of 3 to 65535, depacketizing the packets gives the units framed anew, without delimiters and filler, with complete parameter-set pairs before the next unit where their STAP-A fits |
| H264Framing.ReceiverReadsDelivered | agent/patches/str0m-0.5.1/src/packet/h264.rs:46-325 | from the sender's byte stream to the receiver's: the bytes that come out are read as exactly the delivered units, with start codes and with lengths |
| H264.ContentsAreDelivered | agent/patches/str0m-0.5.1/src/packet/h264.rs:61-165 | no unit that is not dropped or a parameter set is lost, added or moved |
| FrameDelivery.FrameSurvivesReordering | agent/patches/str0m-0.5.1/src/packet/h264.rs:46-325 | end to end: units that are packetized, arrive in any order with repeats, and are popped, come out as the delivered units, and the buffer is ready for the next frame |
| FrameDelivery.PacketsComeOutInOrder | agent/patches/str0m-0.5.1/src/packet/buffer_rx.rs:114-255 | over every run in which no frame comes out stale, packets come out in strictly increasing order across all frames |
| BufferRuns.AgreesIffPushesGoBehind | agent/patches/str0m-0.5.1/src/packet/buffer_rx.rs:114-255 | the cache is undisturbed at each pop of a run that could use it if and only if, at each pop that finds the first frame at the cached range, all packets taken in since the cache was filled have gone behind the end of the cached frame |
| BufferRuns.RunRefinesFresh | agent/patches/str0m-0.5.1/src/packet/buffer_rx.rs:114-255 | over every run in which the cache is undisturbed at each pop, all results are those of a cacheless buffer |
| BufferRuns.HitIsFreshIffUndisturbed | agent/patches/str0m-0.5.1/src/packet/buffer_rx.rs:223-255 | what a cache hit gives is the frame depacketized afresh if and only if the entry at the cached stop index is the one that was cached |
| BufferDisorder.GivenTwice | agent/patches/str0m-0.5.1/src/packet/buffer_rx.rs:229-233 | a run with a single late packet, in which no frame is skipped, yet frame 2 comes out twice and frame 1 never |
| BufferDisorder.OutOfOrder | agent/patches/str0m-0.5.1/src/packet/buffer_rx.rs:229-233 | a run from a new buffer that gives out the packets 1, 10 and 7, in that order |
| BufferRuns.RecordsIffNeverStale | agent/patches/str0m-0.5.1/src/packet/buffer_rx.rs:114-255 | over every run, each frame that comes out ends with the packet that the buffer records as the last one given out if and only if no frame comes out stale; what a pop that waits finds in the cache does not matter |
| BufferRuns.EmissionIsOrdered | agent/patches/str0m-0.5.1/src/packet/buffer_rx.rs:114-221 | over every run that holds something back, emitted numbers strictly increase, errors included |
| IceTransactions.CheckSucceedsAfterRuns | agent/patches/str0m-0.5.1/src/ice/agent.rs:399-995 | the same after any runs of two new agents |
| IceExchange.CheckSucceeds | agent/patches/str0m-0.5.1/src/ice/agent.rs:798-871 | a check and its reply between two agents with each other's credentials: the reply goes back to the address that the check was seen to come from, tells that address, and is accepted, and then the pair that was checked has succeeded on a local candidate with that address, while the other side has nominated a pair with it if the check asked for that |
| IceExchange.CheckIsAcceptedIff | agent/patches/str0m-0.5.1/src/ice/agent.rs:343-356 | whatever two agents know: a check that one sends is accepted by the other if and only if that one has the credentials it was meant for, and does not know another name for the sender |
| IceExchange.ReplyIsAcceptedIff | agent/patches/str0m-0.5.1/src/ice/agent.rs:846-859 | a reply is accepted if and only if a pair remembers a check with its transaction id and it was made with the other side's password |
| IceExchange.CheckIsSentIff | agent/patches/str0m-0.5.1/src/ice/agent.rs:905-995 | a tick that has no request to answer sends one check if and only if the agent checks, knows the other side, and some pair is due; it never sends more |
| IceExchange.RequestIsAnswered | agent/patches/str0m-0.5.1/src/ice/agent.rs:1139-1315 | a request for this agent is answered at once, with one reply to where it came from that tells that address, and leaves a pair with that address on the checklist, counted and nominated if asked for |
| IceAgentRuns.ChecklistOverRuns | agent/patches/str0m-0.5.1/src/ice/agent.rs:399-790 | over every sequence of public calls on a new agent, pairs stay sorted by priority, all indices are in range, no pair has a discarded candidate, ids differ, checks are only sent with remote credentials, and no connection state is announced twice in a row |
| IceAgentRuns.LegalRunExtends | agent/patches/str0m-0.5.1/src/ice/agent.rs:399-995 | a run can always go on: after any calls, every further call finds its indexings and assertions satisfied |
| IceAgentRuns.NominationOverRuns | agent/patches/str0m-0.5.1/src/ice/agent.rs:1472-1517 | over every run with a fixed role, a nomination round leaves data on an eligible pair with the greatest priority, and any further call that leaves the sending pair on the checklist leaves data on a pair that is no worse |
| IceRounds.ReplacedOnlyByHigherOverRuns | agent/patches/str0m-0.5.1/src/ice/agent.rs:1472-1517 | over every run of a new agent with a fixed role, the sending pair changes only by nomination rounds, and every round inside every call replaces a sending pair on the checklist only by one of strictly higher priority |
| IceAnnouncements.SeenTwiceIff | agent/patches/str0m-0.5.1/src/ice/agent.rs:749-778 | over every run of a new agent, no state is shown twice in a row if and only if no restart throws away a waiting state such that what the rest of the run shows next is what was seen last |
| IceAnnouncements.SeesAllIff | agent/patches/str0m-0.5.1/src/ice/agent.rs:1527-1533 | over every run of a new agent, the user has seen all announced connection states in order, but those still waiting, if and only if no restart came while one waited; then no state is seen twice in a row |
| IceAnnouncements.NextAfterRestart | agent/patches/str0m-0.5.1/src/ice/agent.rs:749-778 | what a run shows next after a restart, if no other restart throws it away: Checking if the agent was not checking, and otherwise the first state that the rest of the run announces |
| IceAnnouncements.CheckingTwice | agent/patches/str0m-0.5.1/src/ice/agent.rs:749-778 | a run of public calls on a new agent in which the user sees Checking twice in a row |
| IceEffects.ToldOfEachSourceOnce | agent/patches/str0m-0.5.1/src/ice/agent.rs:1053-1066 | over every run of a new agent the user is told of each source of an accepted packet since the last restart, of each once, and of no other |
| IceEffects.LocalIsAddedIff | agent/patches/str0m-0.5.1/src/ice/agent.rs:399-531 | after every run a local candidate is added if and only if its kind is allowed and the first candidate ever added at its address and base, discarded or not, is of a less preferred kind; so the first one at its place cannot be added twice, nor return once it was taken back |
| IceEffects.AddedTwice | agent/patches/str0m-0.5.1/src/ice/agent.rs:484-507 | three candidates with one address after which two usable ones have it |
| IceTicks.FailedPairsGo | agent/patches/str0m-0.5.1/src/ice/agent.rs:937-957 | a tick that has no request to answer takes a pair off the checklist if and only if it has failed: its last nine checks are unanswered and the last is 3 s old, or, for an agent that only answers, it was not asked for in the last 15 s |
| IceTicks.OldestIsAnswered | agent/patches/str0m-0.5.1/src/ice/agent.rs:914-932 | a tick of an agent that knows the other side answers the oldest request that waits and is not 18.75 s old, and leaves the later ones |
| IceFormation.CombinationsAreOnTheList | agent/patches/str0m-0.5.1/src/ice/agent.rs:604-692 | after pairs are formed, each new combination of one protocol is on the checklist, by itself or by a redundant pair with at least its priority, unless the checklist is full of pairs with at least its priority |
| IceFormation.RemoteCandidateIsPaired | agent/patches/str0m-0.5.1/src/ice/agent.rs:538-601 | after a remote candidate is added, every usable local candidate of its family and protocol is paired with it, in the sense of the row above |
| IceFormation.RequestKeepsNoneRedundantIff | agent/patches/str0m-0.5.1/src/ice/agent.rs:1230-1262 | the pair that a request puts on the checklist leaves no two redundant if and only if there were none and none is redundant with it: this path does not look |
| IceCorners.ConnectedWithoutCheck | agent/patches/str0m-0.5.1/src/ice/agent.rs:636-666 | a run of public calls on a new agent that ends in the completed state without a single check sent |
| IceCorners.RequestExceedsLimit | agent/patches/str0m-0.5.1/src/ice/agent.rs:1230-1262 | a run of public calls on a new agent after which the checklist is over its limit and holds two redundant pairs |
| PairLife.PairIsItsHistory | agent/patches/str0m-0.5.1/src/ice/pair.rs:195-284 | whatever happens to a pair: it remembers its last nine checks, which were answered and which were sent as nominated; it has succeeded if and only if one was answered, and its nomination is confirmed if and only if one was answered that was sent after it |
| Retransmission.NotGivenUpEarly | agent/patches/str0m-0.5.1/src/ice/pair.rs:209-361 | for every driver with non-decreasing time that sends when a check is due or later, a never-answered pair keeps at most nine attempts, is checked no faster than the schedule, and is not given up before 18750 ms |
| Retransmission.BoundIsReached | agent/patches/str0m-0.5.1/src/io/stun.rs:12-33 | a driver that sends each check when it is due sees the pair given up at exactly 18750 ms |
| StunMeaning.ParsesIff | agent/patches/str0m-0.5.1/src/io/stun.rs:82-145 | for every byte string: the parser accepts it if and only if its header fits, the attributes that count are proper, an integrity hash comes after at least one of them and it has what its type needs; and then the message says what the last attribute of each type before the hash says |
| StunRoundTrip.RequestRoundTrip | agent/patches/str0m-0.5.1/src/io/stun.rs:174-197 | every binding request with a name of at most 128 bytes, a colon and something after it parses back to a request with its transaction id, name, priority, USE-CANDIDATE and its role, the controlling or the controlled one, and its integrity holds, for any hash functions |
| StunRoundTrip.ReplyRoundTrip | agent/patches/str0m-0.5.1/src/io/stun.rs:200-212 | every reply parses back to a success with its transaction id and mapped address, IPv4 or IPv6, and its integrity holds |
| StunRoundTrip.IntegrityHolds | agent/patches/str0m-0.5.1/src/io/stun.rs:236-251 | the integrity check passes under exactly the passwords that give the same hash of the message |
| SignalRoom.NeverPanics | signal/main.go:184-281 | for any number of handlers and rooms and every interleaving, no message is sent on a closed channel and none is closed twice |
| SignalDelivery.DeviceGetsWhatClientSends | signal/main.go:69-100 | over every run: while a device and a client stay together in one room and the device's channel was never full, what the client sends is, in order and once each, what the device's channel gets |
| SignalDelivery.ClientGetsWhatDeviceSends | signal/main.go:69-100 | the same for what the device sends, with at most the replay of the cached offer as an addition |
| SignalDelivery.NobodyElse | signal/main.go:69-100 | a message of one of two peers that are together goes to the channel of the other and to no other one |
| SignalRoom.OfferReachesClient | signal/main.go:184-226 | over every run, with any reloads and reconnects before: when the device in its slot is the only device connected to the room, and the client in its slot is past the replay and its channel was never full, the last offer of the device is among the messages for the client |
| SignalRoom.OutdatedIff | signal/main.go:215-226 | the last offer a client gets becomes another than the cached one exactly by a replay of what was cached before a newer offer |
| SignalRoom.UpToDateWithoutLateReplay | signal/main.go:184-281 | over every run without such a late replay the last offer that a client has is the cached one |
| SignalRoom.LateReplay | signal/main.go:215-226 | a run in which the device's next offer overtakes the replay, so that the client gets the old one last |
| SignalRoom.RegisteredInSlotIff | signal/main.go:115-135 | over every run, a peer in its slot is in the registered room of its name if and only if the name was not removed between its entry and its join |
| SignalRoom.SharedRoomIff | signal/main.go:115-135 | two peers that entered under one name have the same room if and only if the name was not removed between their entries |
| SignalRoom.PeersMeetIff | signal/main.go:115-135 | two peers of one name, each in its slot, share a room if and only if the name was removed between entry and join for neither of them, or for both, but not between their two entries |
| SignalRoom.LostRoom | signal/main.go:115-135 | a run in which a room is removed between lookup and join, so that a device and a client of one name end up in different rooms |
| PayloadTypes.UpdateWorksIff | agent/patches/str0m-0.5.1/src/format.rs:668-744 | with at most 43 codecs the update fails exactly when two payload types to be locked are the same; the ranges are never exhausted |
| PayloadTypes.LocksToBestMatch | agent/patches/str0m-0.5.1/src/format.rs:375-421 | an update that works leaves an open codec locked if and only if a remote codec matches it, with the type and RTX type of the last of those that match best |
| PayloadTypes.UpdateKeepsApart | agent/patches/str0m-0.5.1/src/format.rs:668-744 | afterwards locked payload types and RTX types differ from each other and from all open ones, confirmed codecs are as they were, and reassigned types differ from each other and from what later open codecs use |
| PayloadCollisions.OpenTypesDifferIff | agent/patches/str0m-0.5.1/src/format.rs:668-744 | after an update that works, open types that differed still differ if and only if every type of an open codec that is claimed by then, because it was negotiated or given out, was claimed already when it was the turn of that codec |
| PayloadCollisions.OpenTypesMayCollide | agent/patches/str0m-0.5.1/src/format.rs:711-743 | three open codecs with different types and a remote offer, after which two open codecs have type 96 |
| StreamIds.LookupsAreInverse | agent/patches/str0m-0.5.1/src/channel.rs:157-171 | in every run the two lookups are inverse to each other |
| StreamIds.ConfirmedIsOpened | agent/patches/str0m-0.5.1/src/channel.rs:148-250 | right after a timeout, every config ever confirmed was opened, once for each confirmation, on its channel's stream, unless a second confirmation or a removal came before |
| StreamIds.NewIdIsLeast | agent/patches/str0m-0.5.1/src/channel.rs:217-234 | a new stream id has the role's parity, and all smaller ones of that parity are in use |
| LineDirections.OfferTurnsDirections | agent/patches/str0m-0.5.1/src/change/sdp.rs:1000-1025 | after an accepted offer each media with a line may send exactly when the line may receive and the other way round, but for own media that is inactive and told to send; other media keeps its direction |
| LineDirections.AnswerTurnsDirections | agent/patches/str0m-0.5.1/src/change/sdp.rs:743-767 | the same after an answer, and announced media has its announced name |
| MediaLines.LinesStay | agent/patches/str0m-0.5.1/src/change/sdp.rs:729-767 | in every run of offers and answers, accepted or not, and direction changes, the lines have the indices from 0 on, none moves or goes away, and an SDP lists them by index |
| MediaLines.OfferGivesItsLinesIff | agent/patches/str0m-0.5.1/src/change/sdp.rs:870-958 | an accepted offer leaves the session with exactly its lines, in order, if and only if it starts with the session's lines and has no line of unknown type |
| MediaLines.AnswerPanicsIff | agent/patches/str0m-0.5.1/src/change/sdp.rs:743-864 | for every session, pending changes and answer: the expect fails exactly when the answer passes the checks, its lines can be added, and the mid of some pending media is neither in the session nor among the new media lines |
| MediaLines.AnswersAllIff | agent/patches/str0m-0.5.1/src/change/sdp.rs:1378-1426 | the new lines of an answer that passes the checks are all that were offered if and only if their mids differ |
| MediaLines.NewIndicesArePlacesIff | agent/patches/str0m-0.5.1/src/change/sdp.rs:1428-1438 | the indices given to new lines of an offer are their places if and only if no other change comes before a line |
| LayeredFrames.LayeredFramesAreChained | agent/patches/str0m-0.5.1/src/packet/buffer_rx.rs:158-221 | over every run of a buffer for a layered codec, of the frames with both ids that come out each goes on from the one before, and is reported as contiguous unless base frames are missing |
| Contiguity.LetThroughIff | agent/patches/str0m-0.5.1/src/packet/contiguity.rs:37-98 | after any frames one more is let through if and only if it is the first, or goes on from the last one let through |
| Contiguity.RunIsChained | agent/patches/str0m-0.5.1/src/packet/contiguity.rs:37-98 | over every run of frames with both ids, each frame let through is a base frame or follows the one before it without a gap |
| Contiguity.JoinedToBase | agent/patches/str0m-0.5.1/src/packet/contiguity.rs:37-98 | every enhancement frame let through is joined by an unbroken run of ids to the frame that set its base id |
| Turn.RelayRoundTripIff | agent/src/webrtc.rs:984-1053 | data sent through the relay to an IPv4 peer is read back with that peer exactly when it has at most 65516 bytes, or 65533 to 65535 |
| Turn.IntegrityCoversMessage | agent/src/webrtc.rs:635-652 | a request has its type and transaction id, its user name, realm and nonce are read back, and the integrity attribute is found and hashes exactly the bytes before it with the length that is on the wire, under the hash of user name, realm and password |
| Video.CapturedIsDecoded | agent/src/video.rs:496-544 | converting a captured picture gives what converting the decoded picture gives whose pixels have the same three bytes backwards |
| Video.MoreColour | agent/src/video.rs:384-401 | more red never lowers V and never raises U, more blue never lowers U and never raises V, and no colour ever lowers Y |
| IceAgentRuns.StepKeepsInv | agent/patches/str0m-0.5.1/src/ice/agent.rs:399-995 | each public call keeps the checklist invariant |
| IceAgentRuns.NominatesBest | agent/patches/str0m-0.5.1/src/ice/agent.rs:1472-1517 | right after a round, if any pair is eligible, data is sent on a nominated eligible pair of the greatest priority among these |
| IceAgentRuns.ReplacedOnlyByHigher | agent/patches/str0m-0.5.1/src/ice/agent.rs:1472-1517 | while the sending pair stays on the checklist, a round replaces it only by one of strictly higher priority |
| IceRounds.StepLeads | agent/patches/str0m-0.5.1/src/ice/agent.rs:905-957 | the same for one call: its rounds, listed in order, lead from the sending pair before it to the one after it |
| IceAgentRuns.OpStep | agent/patches/str0m-0.5.1/src/ice/agent.rs:399-995 | every call but a change of role keeps to the nomination policy: nominations and successes are not taken back, pairs keep their identity, and the sending pair, while it stays, gives way only to no lower one |
| IceAgentRuns.ConnectedIffNominated | agent/patches/str0m-0.5.1/src/ice/agent.rs:1535-1594 | from any state but New, looking at the state ends in a connected one exactly when some pair is nominated |
| IceAgentRuns.EvaluateStateIsIdempotent | agent/patches/str0m-0.5.1/src/ice/agent.rs:1535-1594 | from any state but New, looking twice is looking once, and nothing is announced without a change of state |
| IceAgentRuns.DisconnectedMeans | agent/patches/str0m-0.5.1/src/ice/agent.rs:1535-1594 | the disconnected state is left only by a nomination |
| IceAnnouncements.RestartTwice | agent/patches/str0m-0.5.1/src/ice/agent.rs:749-778 | two restarts without a poll in between never show Checking, although the agent goes through it |
| IceAnnouncements.RestartShowsChecking | agent/patches/str0m-0.5.1/src/ice/agent.rs:749-778 | after any run, a restart shows Checking unless the agent was checking already, so a user who last saw Checking sees it again exactly when the agent had gone on to another state |
| IceCorners.ReplacementIsNominated | agent/patches/str0m-0.5.1/src/ice/agent.rs:636-666 | a newly formed pair is nominated if and only if it replaces a redundant one of lower priority, whether or not that one was nominated, and with no check sent |
| IceCorners.ReplacementConnects | agent/patches/str0m-0.5.1/src/ice/agent.rs:636-666 | after such a replacement the agent takes itself to be connected when it looks next |
| IceCorners.RequestIgnoresLimit | agent/patches/str0m-0.5.1/src/ice/agent.rs:1230-1262 | a request for a pair that is not on the checklist adds one, whatever the limit |
| IceFormation.FormPairsKeepsNoneRedundant | agent/patches/str0m-0.5.1/src/ice/agent.rs:624-666 | forming pairs leaves no two redundant pairs where there were none |
| IceFormation.WithinLimit | agent/patches/str0m-0.5.1/src/ice/agent.rs:684-692 | right after forming pairs the checklist is within its limit |
| IceFormation.FormPairCovers | agent/patches/str0m-0.5.1/src/ice/agent.rs:604-683 | one formed pair is on the list afterwards, or a redundant one with at least its priority |
| IceFormation.FormPairKeepsCovers | agent/patches/str0m-0.5.1/src/ice/agent.rs:636-666 | a combination that was covered stays covered when a redundant pair is replaced |
| IceAgentOps.AddLocalCandidateKeepsInv | agent/patches/str0m-0.5.1/src/ice/agent.rs:399-531 | the operation keeps the checklist invariant: order, indices, usable candidates, distinct ids, announced states |
| IceAgentOps.AddRemoteCandidateKeepsInv | agent/patches/str0m-0.5.1/src/ice/agent.rs:538-601 | the operation keeps the checklist invariant: order, indices, usable candidates, distinct ids, announced states |
| IceAgentOps.InvalidateCandidateKeepsInv | agent/patches/str0m-0.5.1/src/ice/agent.rs:704-740 | the operation keeps the checklist invariant: order, indices, usable candidates, distinct ids, announced states |
| IceAgentOps.IceRestartKeepsInv | agent/patches/str0m-0.5.1/src/ice/agent.rs:749-778 | the operation keeps the checklist invariant: order, indices, usable candidates, distinct ids, announced states |
| IceAgentOps.FormPairsKeepsInv | agent/patches/str0m-0.5.1/src/ice/agent.rs:604-692 | the operation keeps the checklist invariant: order, indices, usable candidates, distinct ids, announced states |
| IceAgentOps.HandleRequestKeepsInv | agent/patches/str0m-0.5.1/src/ice/agent.rs:1139-1316 | the operation keeps the checklist invariant: order, indices, usable candidates, distinct ids, announced states |
| IceAgentOps.HandleResponseKeepsInv | agent/patches/str0m-0.5.1/src/ice/agent.rs:1365-1470 | the operation keeps the checklist invariant: order, indices, usable candidates, distinct ids, announced states |
| IceAgentOps.HandlePacketKeepsInv | agent/patches/str0m-0.5.1/src/ice/agent.rs:876-900 | the operation keeps the checklist invariant: order, indices, usable candidates, distinct ids, announced states |
| IceAgentOps.HandleTimeoutKeepsInv | agent/patches/str0m-0.5.1/src/ice/agent.rs:905-995 | the operation keeps the checklist invariant: order, indices, usable candidates, distinct ids, announced states |
| IceAgentOps.PollTimeoutKeepsInv | agent/patches/str0m-0.5.1/src/ice/agent.rs:1015-1051 | the operation keeps the checklist invariant: order, indices, usable candidates, distinct ids, announced states |
| IceAgentOps.EvaluateNominationKeepsInv | agent/patches/str0m-0.5.1/src/ice/agent.rs:1472-1517 | the operation keeps the checklist invariant: order, indices, usable candidates, distinct ids, announced states |
| IceAgentOps.EvaluateStateKeepsInv | agent/patches/str0m-0.5.1/src/ice/agent.rs:1535-1594 | the operation keeps the checklist invariant: order, indices, usable candidates, distinct ids, announced states |
| IceAgentOps.AttemptMeansCreds | agent/patches/str0m-0.5.1/src/ice/agent.rs:846-859 | a response that belongs to a check finds remote credentials, so the expect in accepting it never fails |
| IceAgentOps.NextPair | agent/patches/str0m-0.5.1/src/ice/agent.rs:979-984 | the first of the pairs whose check is due soonest |
| IceAgentOps.RetainAll | agent/patches/str0m-0.5.1/src/ice/agent.rs:938-952 | nothing is pruned exactly when every pair is to be kept |
| IceAgentSpec.BestPair | agent/patches/str0m-0.5.1/src/ice/agent.rs:1475-1493 | the last eligible pair of the greatest priority, if any is eligible |
| IceAgentSpec.SortPairsFacts | agent/patches/str0m-0.5.1/src/ice/pair.rs:378-390 | sorting orders pairs by non-increasing priority and changes nothing else |
| IceAgentSpec.RetainFacts | agent/patches/str0m-0.5.1/src/ice/agent.rs:781-790 | pairs that are kept stay in order, and all others go |
| IcePair.GivenUpIff | agent/patches/str0m-0.5.1/src/ice/pair.rs:345-361 | a pair is given up exactly when its nine latest attempts are unanswered and 3 s have passed since the last |
| IcePair.GivenUpStays | agent/patches/str0m-0.5.1/src/ice/pair.rs:345-361 | time alone does not bring a given-up pair back |
| IcePair.UnansweredCounts | agent/patches/str0m-0.5.1/src/ice/pair.rs:297-305 | at least n attempts are reported as unanswered exactly when the last n are |
| Retransmission.TimeoutIsTheSum | agent/patches/str0m-0.5.1/src/io/stun.rs:12-33 | the waits after 0 to 9 attempts add up to the timeout constant |
| Retransmission.NextIsDue | agent/patches/str0m-0.5.1/src/ice/pair.rs:310-343 | the next check of a pair that was never answered is due after the delay for the checks it has had |
| IceCandidate.PrioInRange | agent/patches/str0m-0.5.1/src/ice/candidate.rs:321-365 | computed priorities are between 1 and 2^31 - 1 |
| IceCandidate.PrioParts | agent/patches/str0m-0.5.1/src/ice/candidate.rs:321-365 | type preference, local preference and component can be read back from a priority |
| IceCandidate.PairPrioIsSymmetric | agent/patches/str0m-0.5.1/src/ice/pair.rs:133-148 | both agents compute one pair priority |
| IceCandidate.PairPrioIsLexicographic | agent/patches/str0m-0.5.1/src/ice/pair.rs:133-148 | with candidate priorities below 2^31 the pair priority fits 64 bits and orders pairs by the smaller, then the larger, then the controlling side's |
| IceCandidate.AssignedPreferencesAreDistinct | agent/patches/str0m-0.5.1/src/ice/agent.rs:448-470 | with fewer than 8192 candidates of each kind and family, assigned local preferences differ across all kinds and both families |
| IceCandidate.AssignedPrioritiesAreDistinct | agent/patches/str0m-0.5.1/src/ice/candidate.rs:313-365 | and so do the priorities computed from them |
| Segments.ScanIsUnique | agent/patches/str0m-0.5.1/src/packet/buffer_rx.rs:257-311 | the complete frames of a queue, in order and without overlap, make one list only |
| Segments.SegmentsOf | agent/patches/str0m-0.5.1/src/packet/buffer_rx.rs:257-311 | such a list exists for every queue: all leftmost runs of consecutive numbers and one timestamp that end at a tail or before a new frame |
| Segments.ReachesStep | agent/patches/str0m-0.5.1/src/packet/buffer_rx.rs:264-305 | which runs reach an entry, from those that reach the one before it |
| ReorderBuffer.Position | agent/patches/str0m-0.5.1/src/packet/buffer_rx.rs:139-154 | the place of a packet in a sorted queue |
| BufferRuns.PushKeepsValid | agent/patches/str0m-0.5.1/src/packet/buffer_rx.rs:114-156 | a push adds at most the one entry; the queue stays strictly increasing and after the last frame |
| BufferRuns.PopStep | agent/patches/str0m-0.5.1/src/packet/buffer_rx.rs:158-221 | every result takes entries out and moves the last emitted number up; nothing comes with a complete frame at hand only if there is a gap before it and fewer frames than are held back |
| BufferRuns.Drained | agent/patches/str0m-0.5.1/src/packet/buffer_rx.rs:158-221 | the loop that pops until nothing comes ends |
| BufferRuns.PushDisturbsIffBefore | agent/patches/str0m-0.5.1/src/packet/buffer_rx.rs:114-156 | a push undoes that exactly when its packet goes at or before the cached stop index |
| BufferRuns.PushKeepsDisturbed | agent/patches/str0m-0.5.1/src/packet/buffer_rx.rs:114-156 | and no later push restores it |
| BufferRuns.PopRefinesFresh | agent/patches/str0m-0.5.1/src/packet/buffer_rx.rs:158-255 | with an undisturbed cache pop does what a cacheless pop does, and a frame comes out right only then |
| BufferRuns.StatelessIsFrameLocal | agent/patches/str0m-0.5.1/src/packet/buffer_rx.rs:223-255 | codecs that keep no state between packets meet the condition for this |
| BufferRuns.InsertAfterKeepsFirst | agent/patches/str0m-0.5.1/src/packet/buffer_rx.rs:257-311 | a packet after the first complete frame changes neither that frame nor its being first |
| BufferRuns.StaleHit | agent/patches/str0m-0.5.1/src/packet/buffer_rx.rs:229-233 | a run in which the cache goes wrong: the pop that takes out packet 5 gives the contents of packet 10 |
| StreamDelivery.AnyPopReceives | agent/patches/str0m-0.5.1/src/packet/buffer_rx.rs:158-255 | one pop that does not skip: the buffer goes on as it would without a cache, and a frame that comes out is the next one if and only if it is not stale |
| StreamDelivery.SkipGivesAnother | agent/patches/str0m-0.5.1/src/packet/buffer_rx.rs:158-255 | a pop that skips gives a frame that is not the next one, stale or not |
| Codec.Codec.DepacketizeAllConcat | agent/patches/str0m-0.5.1/src/packet/buffer_rx.rs:241-246 | depacketizing a list is depacketizing its parts one after the other |
| StreamDelivery.WaitsIff | agent/patches/str0m-0.5.1/src/packet/buffer_rx.rs:174-198 | a frame at hand waits if and only if the next one of the stream is not there and it is not skipped to |
| StreamDelivery.SegmentIsFrame | agent/patches/str0m-0.5.1/src/packet/buffer_rx.rs:257-311 | a complete frame in the queue is one of the stream, from some head of it on |
| H264Streams.OneByteStartWaits | agent/patches/str0m-0.5.1/src/packet/h264.rs:329-345 | with a one-byte unit at the start of the next frame in front of the queue, a frame at hand waits exactly as long as fewer frames are complete than are held back |
| H264Streams.SentIsStream | agent/patches/str0m-0.5.1/src/packet/h264.rs:46-201 | what the packetizer sends is a stream in this sense; from whatever head a frame is depacketized on, it gives whole units and leaves the depacketizer as it was |
| H264Streams.UnitsFromHead | agent/patches/str0m-0.5.1/src/packet/h264.rs:241-325 | the packets of a frame from any head on give whole units |
| FrameDelivery.ArrivalsAreSorted | agent/patches/str0m-0.5.1/src/packet/buffer_rx.rs:114-156 | arrivals in any order and with repeats leave each packet once in the queue, in order |
| H264.UnitsOfAnnexB | agent/patches/str0m-0.5.1/src/packet/h264.rs:46-59 | splitting recovers the units, whatever the mix of 3- and 4-byte start codes |
| H264.PlainUnitsAreUnchanged | agent/patches/str0m-0.5.1/src/packet/h264.rs:61-165 | a stream of such units alone comes back unchanged |
| H264.FragmentsShape | agent/patches/str0m-0.5.1/src/packet/h264.rs:125-163 | an oversized unit yields at least two fragments, none too long, with the start bit on the first only and the end bit on the last only, whose data put together is the unit |
| H264.FragmentsReassemble | agent/patches/str0m-0.5.1/src/packet/h264.rs:274-318 | the fragments of a unit complete it at the receiver |
| H264.StapAUnpacks | agent/patches/str0m-0.5.1/src/packet/h264.rs:241-271 | a STAP-A packet unpacks to its two units |
| H264.EmittedPacketsFit | agent/patches/str0m-0.5.1/src/packet/h264.rs:61-165 | no packet is empty or longer than the mtu, for any unit and any stored parameter sets |
| H264.PacketsFit | agent/patches/str0m-0.5.1/src/packet/h264.rs:170-201 | the same for any payload, valid or not |
| H264.MarkAllMeaning | agent/patches/str0m-0.5.1/src/packet/h264.rs:225-240 | the extra information says that an IDR unit was seen exactly when one was |
| Contiguity.PictureIdsIncrease | agent/patches/str0m-0.5.1/src/packet/contiguity.rs:37-98 | picture ids of frames let through strictly increase |
| StunRoundTrip.RoundTrip | agent/patches/str0m-0.5.1/src/io/stun.rs:82-145 | printing and parsing gives the same method, class, transaction id and attributes |
| StunRoundTrip.ParseUsername | agent/patches/str0m-0.5.1/src/io/stun.rs:522-560 | a user name whose length is a multiple of 4 is followed by four extra zero bytes, which the parser skips |
| StunRoundTrip.ParseAttributes | agent/patches/str0m-0.5.1/src/io/stun.rs:562-702 | the printed attributes, followed by anything, parse to just these |
| StunRoundTrip.AddressRoundTrip | agent/patches/str0m-0.5.1/src/io/stun.rs:717-770 | an address survives masking |
| StunRoundTrip.FindColonIsFirst | agent/patches/str0m-0.5.1/src/io/stun.rs:446-462 | a user name splits at its first colon |
| StunRoundTrip.AgentNamesSplit | agent/patches/str0m-0.5.1/src/ice/agent.rs:343-364 | the names that the agent makes split into its two fragments |
| Stun.PaddedLenIsLength | agent/patches/str0m-0.5.1/src/io/stun.rs:487-520 | the length computed up front is the length that is printed |
| Stun.PaddedLenIsAligned | agent/patches/str0m-0.5.1/src/io/stun.rs:487-520 | and a multiple of 4 |
| SignalRoom.StepKeepsInv | signal/main.go:184-281 | every atomic step keeps whoever is in a slot present and unclosed |
| SignalRoom.StepKeepsCacheReaches | signal/main.go:69-100 | the cached offer has reached the client in the slot, or is about to be replayed to it |
| SignalRoom.StepsBetweenCommute | signal/main.go:127-135 | a step of another handler between looking at a room and removing its name has the same effect after the removal, so that both can be taken as one step |
| SignalRoom.ChannelAfter | signal/main.go:92-99 | a step only adds to what a channel accepted, and loses a message only when the channel is full |
| StreamIds.AllocatedIdsFit | agent/patches/str0m-0.5.1/src/channel.rs:217-234 | with fewer than 32767 channels, allocated ids are below 65535 |
| StreamIds.AllocateKeepsDistinct | agent/patches/str0m-0.5.1/src/channel.rs:202-235 | distinct streams stay distinct, and streams in use are not given out again |
| StreamIds.LeastFree | agent/patches/str0m-0.5.1/src/channel.rs:223-229 | the search ends, at most two steps per taken id on |
| StreamIds.StepKeepsInv | agent/patches/str0m-0.5.1/src/channel.rs:118-290 | every operation keeps ids increasing, streams distinct, opened streams with their channels, and confirmed configs accounted for |
| StreamIds.OpeningsAreToOpen | agent/patches/str0m-0.5.1/src/channel.rs:238-250 | the openings accounted for are those that SCTP is asked for |
| PayloadCollisions.OpenTypesStayIff | agent/patches/str0m-0.5.1/src/format.rs:668-744 | they differ with none given up that no negotiated codec claimed, if and only if none of the next free types, as many as are given up, is in use by an open codec |
| PayloadCollisions.MovedDifferIff | agent/patches/str0m-0.5.1/src/format.rs:711-743 | the exact condition for the reassignment alone |
| PayloadCollisions.MoveAllGives | agent/patches/str0m-0.5.1/src/format.rs:711-743 | after the reassignment, what is claimed is what was claimed before and the next free types, as many as there were claimed types at the turns of their codecs |
| PayloadCollisions.MovedStayIff | agent/patches/str0m-0.5.1/src/format.rs:711-743 | the second condition for the reassignment alone |
| PayloadCollisions.LockingKeepsOpenDiffer | agent/patches/str0m-0.5.1/src/format.rs:686-697 | locking codecs to their matches leaves the open ones distinct |
| PayloadTypes.ClaimsIff | agent/patches/str0m-0.5.1/src/format.rs:669-697 | the claims of both passes succeed exactly when all payload types to be locked differ |
| PayloadTypes.MoveAllFacts | agent/patches/str0m-0.5.1/src/format.rs:716-743 | reassignment leaves locked codecs alone, moves every claimed type to a new unclaimed one, and none twice |
| PayloadTypes.MoveAllWorks | agent/patches/str0m-0.5.1/src/format.rs:699-743 | the 87 slots suffice for all claims and two types per open codec |
| PayloadTypes.FreeIsLeft | agent/patches/str0m-0.5.1/src/format.rs:767-779 | a search for a free type fails only when all 87 are claimed |
| PayloadTypes.BestMatch | agent/patches/str0m-0.5.1/src/format.rs:381-387 | the last of the remote codecs with the highest score |
| MediaLines.LinesAreAtTheirIndex | agent/patches/str0m-0.5.1/src/change/sdp.rs:984-993 | sorting puts each line at the place its index says |
| MediaLines.UnknownTypeShiftsLines | agent/patches/str0m-0.5.1/src/change/sdp.rs:899-902 | an offer with a line of unknown type is accepted, and rejected when it is repeated |
| MediaLines.AnswerNeverPanics | agent/patches/str0m-0.5.1/src/change/sdp.rs:743-767 | an answer whose lines have different mids never makes the expect for pending media fail |
| MediaLines.CanBeAddedIff | agent/patches/str0m-0.5.1/src/change/sdp.rs:918-958 | new lines of known types can be added exactly when at most one of them is the application line, and none if the session has one |
| MediaLines.RepeatedMidsPanicIff | agent/patches/str0m-0.5.1/src/change/sdp.rs:830-842 | when all pending lines are media new to the session, an answer that passes the checks makes the expect fail exactly when its new lines repeat a mid |
| MediaLines.RepeatedMidPanics | agent/patches/str0m-0.5.1/src/change/sdp.rs:830-842 | two offered lines and an answer that repeats the mid of the first bring the session down |
| MediaLines.AddPendingIff | agent/patches/str0m-0.5.1/src/change/sdp.rs:830-864 | pending changes can be applied if and only if all their media is there |
| MediaLines.OfferKeeps | agent/patches/str0m-0.5.1/src/change/sdp.rs:729-741 | an offer keeps all lines in place |
| MediaLines.AnswerKeeps | agent/patches/str0m-0.5.1/src/change/sdp.rs:743-767 | an answer keeps all lines in place |
| Turn.FindsFirstAppended | agent/src/webrtc.rs:907-922 | looking for a type gives the first value appended under it |
| Turn.MessageCarries | agent/src/webrtc.rs:615-632 | a message whose length fits 16 bits carries the attributes it was made of |
| Turn.WalkMeetsAll | agent/src/webrtc.rs:912-920 | a walk meets exactly the encoded attributes, whatever stands around them |
| Turn.Error401RoundTrip | agent/src/webrtc.rs:881-904 | the last realm and nonce that were appended are read back, or nothing if one is missing |
| Turn.ResponseRoundTrip | agent/src/webrtc.rs:541-566 | a binding response tells the mapped address that was put in it |
| Turn.XorAddressRoundTrip | agent/src/webrtc.rs:568-579 | an IPv4 address and port survive masking |
| Turn.NoRelayForV6 | agent/src/webrtc.rs:984-1007 | for an IPv6 peer no address is sent, so none is read back, whatever the length of the data |
| Video.MinNeverBinds | agent/src/video.rs:506-517 | the scaled source index never needs its bound and never goes back |
| Video.SameSizeCopies | agent/src/video.rs:506-517 | without a change of size each sample is taken from its own place |
| Video.SampleIsNear | agent/src/video.rs:506-517 | the source index is at most the exact place, and less than a pixel and the truncation error below it |
| Video.ClampChangesNothing | agent/src/video.rs:518-541 | luma is in 16..235 and chroma in 16..240, so no clamp changes a value |
| Video.GreyJpegIsGrey | agent/src/video.rs:384-401 | a grey picture becomes one with chroma 128 throughout |
| Video.CmykJpegIsBlack | agent/src/video.rs:371-401 | a CMYK picture becomes black |
| Video.EachPlaceOnce | agent/src/video.rs:510-542 | the loops over columns and rows meet every place of a plane exactly once |
| IceExchange.CheckIsAccepted | agent/patches/str0m-0.5.1/src/ice/agent.rs:343-364 | a check is accepted by the agent whose credentials the sender has, if that one does not know the sender's yet, or knows them rightly |
| IceExchange.DiscoveredAlike | agent/patches/str0m-0.5.1/src/ice/agent.rs:1157-1211 | when a check comes from an address that neither side knew, both sides discover a candidate with it, of one priority |
| IceExchange.SentIs | agent/patches/str0m-0.5.1/src/ice/agent.rs:1318-1363 | what a check carries, and from where to where it goes |
| IceExchange.NameSplits | agent/patches/str0m-0.5.1/src/io/stun.rs:446-462 | a name splits at its first colon |
| IceTransactions.RunGivenOut | agent/patches/str0m-0.5.1/src/ice/pair.rs:209-244 | over every run the transaction ids of all remembered checks are ids that were given out, so the next one is new |
| IceTicks.OldOnesGo | agent/patches/str0m-0.5.1/src/ice/agent.rs:919-926 | of requests in order of time exactly those are dropped that are 18.75 s old |
| IceTicks.RequestsWait | agent/patches/str0m-0.5.1/src/ice/agent.rs:1117-1129 | before that, the last 100 accepted requests wait |
| IceTicks.NextTickIs | agent/patches/str0m-0.5.1/src/ice/agent.rs:1015-1051 | the next tick is to come when the first pair is due and no pair was due before, but 50 ms after the last tick at the earliest; then if something waits, and 3 s after it if there is nothing to do |
| IceTicks.StateAfterPruning | agent/patches/str0m-0.5.1/src/ice/agent.rs:937-957 | when a pair was taken off, the connection state is the right one for the pairs that are left |
| IceTicks.StateAfterReply | agent/patches/str0m-0.5.1/src/ice/agent.rs:1365-1470 | and after the reply to a check |
| IceTicks.CountingIsIdle | agent/patches/str0m-0.5.1/src/ice/agent.rs:964-976 | in ice-lite mode every pair that a tick keeps has been asked for already, so the loop that lets pairs count from now never finds one |
| IceEffects.CompletedIff | agent/patches/str0m-0.5.1/src/ice/agent.rs:1535-1594 | after looking at its state an agent that checks is completed if and only if a pair is nominated and nothing better can come, and connected if and only if one is nominated and something better can |
| IceEffects.LiteCompletedIff | agent/patches/str0m-0.5.1/src/ice/agent.rs:1535-1594 | the same for an agent that only answers |
| IceEffects.AddingKeepsNoneTwiceIff | agent/patches/str0m-0.5.1/src/ice/agent.rs:484-507 | adding a candidate leaves no two usable ones at one spot if and only if no other than the first one there was usable |
| IceEffects.DescriptionIsPlaced | agent/patches/str0m-0.5.1/src/ice/agent.rs:538-601 | a remote candidate takes the place of one that was discovered at its address, if there is one, and is refused for another component or fragment; all others stay |
| IceEffects.InvalidateDiscards | agent/patches/str0m-0.5.1/src/ice/agent.rs:704-740 | taking a candidate back discards the first that is the same, local before remote, with just its pairs, and otherwise changes nothing |
| IceEffects.ReplacementIsAsRecent | agent/patches/str0m-0.5.1/src/ice/agent.rs:655-663 | in ice-lite mode a pair that replaces another one is kept as long as that one |
| IcePair.NominatedGoesFirst | agent/patches/str0m-0.5.1/src/ice/pair.rs:310-343 | a nominated pair that was not checked since is due at once, before pairs that were checked in the last minute |
| Retransmission.NextAfterAnswer | agent/patches/str0m-0.5.1/src/ice/pair.rs:310-343 | a pair that was answered is checked by the number of all its checks, and once an unanswered one is more than 1.5 s old, by the number of unanswered ones |
| IceCandidate.KindDecides | agent/patches/str0m-0.5.1/src/ice/candidate.rs:321-365 | over UDP the kind decides between computed priorities, and the same kind over UDP is preferred |
| IceCandidate.RecommendedPreferences | agent/patches/str0m-0.5.1/src/ice/candidate.rs:321-365 | the type preferences of RFC 8445, but 2 for relayed candidates |
| IceCandidate.DefaultPreference | agent/patches/str0m-0.5.1/src/ice/candidate.rs:335-356 | a candidate that was not adopted has the preference of the first host candidate |
| SignalDelivery.ChannelsAreExact | signal/main.go:69-100 | over every run a channel that was never full has got exactly what its steps brought to it, in order |
| LineDirections.PendingNames | agent/patches/str0m-0.5.1/src/change/sdp.rs:830-864 | pending changes name the media that they announce, and change nothing else |
| LineDirections.RejectedOfferTurns | agent/patches/str0m-0.5.1/src/change/sdp.rs:870-915 | an offer that is rejected has turned the media before the line that is wrong |
| LineDirections.DirectTurns | agent/patches/str0m-0.5.1/src/session.rs:854-864 | a direct change turns the media with its mid only |
| Video.Primaries | agent/src/video.rs:518-541 | red, green, blue, white and black have the values of the studio range |
| Video.GreyIsDecoded | agent/src/video.rs:384-401 | converting a grey picture gives what converting the same picture in colour gives |
| Video.LumaIsUnpacked | agent/src/video.rs:549-558 | luma of a packed picture is the first and the third byte of each four |
| Video.ChromaIsUnpacked | agent/src/video.rs:559-570 | chroma is the second and the last byte of the fours in even rows |
| StunMeaning.WalkReads | agent/patches/str0m-0.5.1/src/io/stun.rs:562-702 | the walk over attributes succeeds if and only if all are there and proper, and reads what they say |
| StunMeaning.StepReads | agent/patches/str0m-0.5.1/src/io/stun.rs:575-700 | what one attribute says is read |
| StunMeaning.TypesAre | agent/patches/str0m-0.5.1/src/io/stun.rs:332-378 | which four types are bindings |
| H264Framing.FramedIsRead | agent/patches/str0m-0.5.1/src/packet/h264.rs:217-325 | units that are written out are read back, in both output modes |
| H264.DepacketizesIff | agent/patches/str0m-0.5.1/src/packet/h264.rs:217-325 | a packet is depacketized without error if and only if it is a single unit, a fragment with its header, or a STAP-A packet whose units are all there |
| Contiguity.DroppedIsNoGap | agent/patches/str0m-0.5.1/src/packet/contiguity.rs:37-98 | a frame that is not let through is not reported as a gap |
| LayeredFrames.OnlyLayeredAreDropped | agent/patches/str0m-0.5.1/src/packet/buffer_rx.rs:196-221 | frames without ids are never dropped, and are reported as contiguous if and only if nothing but padding is between them and what came out before |
| StreamIds.EnsuredIsFound | agent/patches/str0m-0.5.1/src/channel.rs:260-275 | after a channel was ensured for a stream it is found, and none is added if there was one |
| StreamIds.NewIsFound | agent/patches/str0m-0.5.1/src/channel.rs:118-146 | a new channel is found by its id, with its negotiated stream |
| Turn.AddressIsReadIff | agent/src/webrtc.rs:568-600 | only IPv4 addresses are read, from eight bytes or more |
| Turn.MappedRoundTrip | agent/src/webrtc.rs:581-600 | an address that is not masked is read as it stands |
| Turn.OnlyTheseAreRead | agent/src/webrtc.rs:1011-1053 | nothing but a data indication is taken for relayed data, and nothing but a binding success for a response |
| BufferRuns.PushTakesInIff | agent/patches/str0m-0.5.1/src/packet/buffer_rx.rs:114-156 | a packet is in the queue after a push unless its number is not above the last one given out, which a buffer that holds nothing back does not mind |
| IceAgent.IceAgent.EmitEvent | agent/patches/str0m-0.5.1/src/ice/agent.rs:1053-1066 | implements its specification: queues an event; a discovered source is reported once |
| IceAgent.IceAgent.SetConnectionState | agent/patches/str0m-0.5.1/src/ice/agent.rs:1527-1533 | implements its specification: changes and announces the state, if it is another one |
| IceAgent.IceAgent.EvaluateState | agent/patches/str0m-0.5.1/src/ice/agent.rs:1535-1594 | implements its specification: the loop over the pairs and the branches lead to the state of the specification |
| IceAgent.IceAgent.EvaluateNomination | agent/patches/str0m-0.5.1/src/ice/agent.rs:1472-1525 | implements its specification: nominates the best eligible pair, if its priority is not that of the sending pair |
| IceAgent.IceAgent.FormPair | agent/patches/str0m-0.5.1/src/ice/agent.rs:608-682 | implements its specification: pairs two candidates of one protocol, skips a redundant combination, or replaces a redundant pair of lower priority; the replacement is always nominated |
| IceAgent.IceAgent.FormRow | agent/patches/str0m-0.5.1/src/ice/agent.rs:607-682 | implements its specification: pairs one local candidate with several remote ones, in order |
| IceAgent.IceAgent.SortAndLimit | agent/patches/str0m-0.5.1/src/ice/agent.rs:684-692 | implements its specification: sorts the checklist and pops pairs off its end until the limit is met |
| IceAgent.IceAgent.FormPairs | agent/patches/str0m-0.5.1/src/ice/agent.rs:604-692 | implements its specification: pairs all given candidates, sorts, and cuts off |
| IceAgent.IceAgent.Adopt | agent/patches/str0m-0.5.1/src/ice/agent.rs:448-470 | implements its specification: gives a candidate the agent's fragment and the next local preference of its kind and family |
| IceAgent.IceAgent.AddLocalCandidate | agent/patches/str0m-0.5.1/src/ice/agent.rs:399-531 | implements its specification: adopts, discards or is refused by a same candidate, and pairs with all usable remote candidates of its family; the invariant is kept |
| IceAgent.IceAgent.AddRemoteCandidate | agent/patches/str0m-0.5.1/src/ice/agent.rs:538-601 | implements its specification: fits a described candidate in, over a discovered one where there is one, and pairs it; the invariant is kept |
| IceAgent.IceAgent.InvalidateCandidate | agent/patches/str0m-0.5.1/src/ice/agent.rs:704-740 | implements its specification: discards a candidate and its pairs; the invariant is kept |
| IceAgent.IceAgent.SetUfrags | agent/patches/str0m-0.5.1/src/ice/agent.rs:763-772 | implements its specification: renames all local candidates |
| IceAgent.IceAgent.IceRestart | agent/patches/str0m-0.5.1/src/ice/agent.rs:749-778 | implements its specification: forgets the remote side, announces the restart, and goes back to checking; the invariant is kept |
| IceAgent.IceAgent.SourceOf | agent/patches/str0m-0.5.1/src/ice/agent.rs:1157-1211 | implements its specification: finds the remote candidate of a request, or makes a peer-reflexive one |
| IceAgent.IceAgent.AnswerRequest | agent/patches/str0m-0.5.1/src/ice/agent.rs:1263-1315 | implements its specification: counts the request, nominates on USE-CANDIDATE when controlled, and replies |
| IceAgent.IceAgent.HandleRequest | agent/patches/str0m-0.5.1/src/ice/agent.rs:1139-1316 | implements its specification: a STUN request from start to end; the invariant is kept |
| IceAgent.IceAgent.HandleMessage | agent/patches/str0m-0.5.1/src/ice/agent.rs:1077-1137 | implements its specification: answers a request, or queues it while there are no remote credentials |
| IceAgent.IceAgent.Enqueue | agent/patches/str0m-0.5.1/src/ice/agent.rs:1117-1129 | implements its specification: at most the last 100 requests are kept |
| IceAgent.IceAgent.MappedOf | agent/patches/str0m-0.5.1/src/ice/agent.rs:1392-1459 | implements its specification: finds the local candidate of a mapped address, or makes a peer-reflexive one |
| IceAgent.IceAgent.HandleResponse | agent/patches/str0m-0.5.1/src/ice/agent.rs:1365-1470 | implements its specification: a STUN response from start to end; the invariant is kept |
| IceAgent.IceAgent.AcceptsMessage | agent/patches/str0m-0.5.1/src/ice/agent.rs:798-871 | implements its specification: which messages are for this agent |
| IceAgent.IceAgent.HandlePacket | agent/patches/str0m-0.5.1/src/ice/agent.rs:876-900 | implements its specification: dispatch of a packet; the invariant is kept |
| IceAgent.IceAgent.DropOldRequests | agent/patches/str0m-0.5.1/src/ice/agent.rs:919-926 | implements its specification: drops the queued requests at the head that are 18.75 s old |
| IceAgent.IceAgent.Prune | agent/patches/str0m-0.5.1/src/ice/agent.rs:937-957 | implements its specification: a nomination round, and after pairs had to go another one and a look at the state |
| IceAgent.IceAgent.CountPairsFromNow | agent/patches/str0m-0.5.1/src/ice/agent.rs:964-976 | implements its specification: in ice-lite mode, pairs without a request time out from now on |
| IceAgent.IceAgent.NextCheck | agent/patches/str0m-0.5.1/src/ice/agent.rs:979-984 | implements its specification: the first of the pairs whose check is due soonest; every pair remembers its due time |
| IceAgent.IceAgent.SendCheck | agent/patches/str0m-0.5.1/src/ice/agent.rs:1318-1363 | implements its specification: sends a check, with USE-CANDIDATE exactly when controlling and nominated |
| IceAgent.IceAgent.HandleTimeout | agent/patches/str0m-0.5.1/src/ice/agent.rs:905-995 | implements its specification: one tick: state, queued request or pruning, and the check that is due; the invariant is kept |
| IceAgent.IceAgent.PollTimeout | agent/patches/str0m-0.5.1/src/ice/agent.rs:1015-1051 | implements its specification: when to tick next: never sooner than the pacing interval |
| IceAgent.IceAgent.PollTransmit | agent/patches/str0m-0.5.1/src/ice/agent.rs:998-1007 | implements its specification: takes the first message out |
| IceAgent.IceAgent.PollEvent | agent/patches/str0m-0.5.1/src/ice/agent.rs:1069-1075 | implements its specification: takes the first event out |
| IcePair.CandidatePair.Nominate | agent/patches/str0m-0.5.1/src/ice/pair.rs:195-204 | implements its specification: nominates a pair that was not, at once confirmed when forced |
| IcePair.CandidatePair.NewAttempt | agent/patches/str0m-0.5.1/src/ice/pair.rs:209-244 | implements its specification: records an attempt, and forgets all but the nine latest |
| IcePair.CandidatePair.RecordBindingResponse | agent/patches/str0m-0.5.1/src/ice/pair.rs:256-284 | implements its specification: answers the first attempt of a transaction, and confirms a nomination that this attempt carried |
| IcePair.CandidatePair.NextBindingAttempt | agent/patches/str0m-0.5.1/src/ice/pair.rs:310-343 | implements its specification: when the next check is due, remembered until something changes |
| ReorderBuffer.DepacketizingBuffer.UpdateSegments | agent/patches/str0m-0.5.1/src/packet/buffer_rx.rs:257-311 | implements its specification: the one-pass scan finds exactly the complete frames |
| ReorderBuffer.DepacketizingBuffer.Push | agent/patches/str0m-0.5.1/src/packet/buffer_rx.rs:114-156 | implements its specification: puts a packet in its place, unless it is a repeat or too late |
| ReorderBuffer.DepacketizingBuffer.Pop | agent/patches/str0m-0.5.1/src/packet/buffer_rx.rs:158-221 | implements its specification: gives out the first complete frame when it follows the last one or enough frames are held back |
| ReorderBuffer.DepacketizingBuffer.Depacketize | agent/patches/str0m-0.5.1/src/packet/buffer_rx.rs:223-255 | implements its specification: uses the cache exactly when its index range is that of the frame |
| ReorderBuffer.DepacketizingBuffer.IsFollowingLast | agent/patches/str0m-0.5.1/src/packet/buffer_rx.rs:313-340 | implements its specification: whether a frame follows the last one, with padding between |
| H264.H264Packetizer.Emit | agent/patches/str0m-0.5.1/src/packet/h264.rs:61-165 | implements its specification: sends one unit: drops it, stores it, or sends it whole or in fragments, after a stored pair of parameter sets |
| H264.H264Packetizer.Packetize | agent/patches/str0m-0.5.1/src/packet/h264.rs:170-201 | implements its specification: splits a payload and sends its units |
| H264.H264Depacketizer.Depacketize | agent/patches/str0m-0.5.1/src/packet/h264.rs:217-325 | implements its specification: depacketizes one packet in place, with the errors of the source |
| Contiguity.FrameContiguityState.NextFrame | agent/patches/str0m-0.5.1/src/packet/contiguity.rs:37-98 | implements its specification: lets a frame through or not, and says whether something is missing |
| Stun.ToBytes | agent/patches/str0m-0.5.1/src/io/stun.rs:256-317 | implements its specification: the printer fills the buffer with the message, hash and fingerprint, or fails for want of room |
| Stun.WriteAttributes | agent/patches/str0m-0.5.1/src/io/stun.rs:522-560 | implements its specification: prints the attributes in order, if there is room |
| StunParser.ParseAttributes | agent/patches/str0m-0.5.1/src/io/stun.rs:562-702 | implements its specification: the walk over attributes stays in bounds on every byte string and meets its specification |
| StunParser.Parse | agent/patches/str0m-0.5.1/src/io/stun.rs:82-145 | implements its specification: the parser meets its specification on every byte string, with a panic on 4 to 19 bytes as in the source |
| SignalRoom.Room.Set | signal/main.go:46-54 | implements its specification: puts a peer into its slot |
| SignalRoom.Room.Clear | signal/main.go:56-65 | implements its specification: empties the slot whoever is in it, and the cache with the device |
| SignalRoom.Room.Forward | signal/main.go:69-100 | implements its specification: caches device offers, and passes a message on to an open channel with room |
| SignalRoom.Room.IsEmpty | signal/main.go:102-106 | implements its specification: whether both slots are empty |
| SignalRoom.Peer.Send | signal/main.go:92-99 | implements its specification: a send that does not block: accepted with fewer than 64 waiting |
| StreamIds.ChannelHandler.NewChannel | agent/patches/str0m-0.5.1/src/channel.rs:118-146 | implements its specification: issues the next id, with the negotiated stream id if there is one |
| StreamIds.ChannelHandler.Confirm | agent/patches/str0m-0.5.1/src/channel.rs:148-155 | implements its specification: keeps the config for the next timeout |
| StreamIds.ChannelHandler.NextFree | agent/patches/str0m-0.5.1/src/channel.rs:221-229 | implements its specification: the search loop finds the least free id |
| StreamIds.ChannelHandler.DoAllocations | agent/patches/str0m-0.5.1/src/channel.rs:202-235 | implements its specification: gives the least free ids to all channels without one, in order |
| StreamIds.ChannelHandler.OpenChannels | agent/patches/str0m-0.5.1/src/channel.rs:238-250 | implements its specification: takes every config, and opens its stream where the id is known |
| StreamIds.ChannelHandler.HandleTimeout | agent/patches/str0m-0.5.1/src/channel.rs:173-183 | implements its specification: allocates and opens once SCTP is up, and does nothing before |
| StreamIds.ChannelHandler.EnsureChannelIdFor | agent/patches/str0m-0.5.1/src/channel.rs:260-275 | implements its specification: adds a channel for a stream that has none |
| StreamIds.ChannelHandler.RemoveChannel | agent/patches/str0m-0.5.1/src/channel.rs:288-290 | implements its specification: drops a channel |
| PayloadTypes.CodecConfig.ClaimConfirmed | agent/patches/str0m-0.5.1/src/format.rs:672-684 | implements its specification: claims what was negotiated before |
| PayloadTypes.CodecConfig.LockParams | agent/patches/str0m-0.5.1/src/format.rs:686-697 | implements its specification: takes over and claims what the remote side offers |
| PayloadTypes.CodecConfig.MoveParams | agent/patches/str0m-0.5.1/src/format.rs:715-743 | implements its specification: moves open types that are claimed |
| PayloadTypes.CodecConfig.UpdateParams | agent/patches/str0m-0.5.1/src/format.rs:668-744 | implements its specification: the three passes over the table of 128 |
| PayloadTypes.FindUnclaimed | agent/patches/str0m-0.5.1/src/format.rs:767-779 | implements its specification: the loops over the ranges find the first free type in order of preference |
| PayloadTypes.AssertClaimOnce | agent/patches/str0m-0.5.1/src/format.rs:758-762 | implements its specification: marks a type, or reports that it was marked |
| PayloadTypes.UpdateParam | agent/patches/str0m-0.5.1/src/format.rs:375-421 | implements its specification: locks an open codec to its best match |
| MediaLines.EnsureCorrectAnswer | agent/patches/str0m-0.5.1/src/change/sdp.rs:1378-1419 | implements its specification: the nested loops accept exactly the answers with as many lines as offered, each matching the first change with its mid |
| MediaLines.Session.LineCount | agent/patches/str0m-0.5.1/src/session.rs:799-801 | implements its specification: counts the media and the application line |
| MediaLines.Session.SetApp | agent/patches/str0m-0.5.1/src/session.rs:171-183 | implements its specification: sets the application line once, and accepts the same again only |
| MediaLines.Session.SyncMedias | agent/patches/str0m-0.5.1/src/change/sdp.rs:870-915 | implements its specification: updates known lines, rejects moved ones, and collects new ones |
| MediaLines.Session.AddNewLines | agent/patches/str0m-0.5.1/src/change/sdp.rs:918-958 | implements its specification: adds new lines at the end |
| MediaLines.Session.AddPendingChanges | agent/patches/str0m-0.5.1/src/change/sdp.rs:830-864 | implements its specification: names the media of pending changes |
| MediaLines.Session.ApplyOffer | agent/patches/str0m-0.5.1/src/change/sdp.rs:729-741 | implements its specification: an offer from start to end |
| MediaLines.Session.ApplyAnswer | agent/patches/str0m-0.5.1/src/change/sdp.rs:743-767 | implements its specification: an answer from start to end |
| Turn.ParseStunAttr | agent/src/webrtc.rs:907-922 | implements its specification: ends and stays in bounds on every byte string, and gives the first value of a type |
| Turn.ParseTurnError401 | agent/src/webrtc.rs:881-904 | implements its specification: ends and stays in bounds on every byte string, and gives the last realm and nonce |
| Turn.ParseTurnData | agent/src/webrtc.rs:1011-1053 | implements its specification: ends and stays in bounds on every byte string, and gives the last readable peer and the last data |
| Turn.ParseStunResponse | agent/src/webrtc.rs:541-566 | implements its specification: ends and stays in bounds on every byte string; the first address attribute decides |
| Turn.Vec.AppendAttr | agent/src/webrtc.rs:625-632 | implements its specification: appends type, length, value and padding |
| Turn.AppendAuth | agent/src/webrtc.rs:635-652 | implements its specification: appends the credentials and the hash of the message with its final length, or panics exactly in a build with overflow checks whose sum overflows 16 bits |
| Turn.BuildAuthRequest | agent/src/webrtc.rs:967-981 | implements its specification: a whole request with credentials, or a panic exactly in a build with overflow checks whose length overflows |
| Turn.BuildSendIndication | agent/src/webrtc.rs:984-1007 | implements its specification: a whole Send indication |
| Video.Convert | agent/src/video.rs:496-544 | implements its specification: every byte of the three planes has the value of the pixel it belongs to, with no index out of range, for all even sizes |
| Video.ConvertJpeg | agent/src/video.rs:338-403 | implements its specification: the same for decoded pictures in colour, grey or CMYK; other formats and too few bytes are an error |
| Video.YuyvToYuv420 | agent/src/video.rs:549-572 | implements its specification: every byte of the three planes is the sample of the packed picture that belongs there |
| Video.FillLuma | agent/src/video.rs:510-524 | implements its specification: the loops over the luma plane fill it row by row and nothing else |
| Video.FillChroma | agent/src/video.rs:525-542 | implements its specification: the loops over both chroma planes fill them and leave luma alone |
| Video.CopyChroma | agent/src/video.rs:559-570 | implements its specification: the same for packed pictures |

## Left out

- Sockets, WebSocket and HTTP plumbing, capture devices, encoders and the asynchronous loops: input and output only.
- DTLS, SRTP, SCTP itself and the bodies of MD5, SHA-1 and CRC: hashes are parameters, SCTP is its role and a log.
- The SDP text grammar, ICE candidates as text, RTP header parsing: lines, candidates and packets are values.
- VP8, VP9, H.265, Opus and G.7xx payload formats, the pacer, bandwidth estimation and all statistics.
- The ICE tie-breaker and role conflicts: the agent sends the first and handles neither. The control role changes only
  by its setter, and the statements about nomination over runs are for a fixed role.
- Statistics and sender information kept with packets (`received`, `last_sender_info`) do not influence what comes out.
- Saturating arithmetic on 64-bit sequence numbers in the buffer: numbers are unbounded.
- The bytes of the messages that the ICE agent sends: it transmits records of what goes into them, and
  `IceExchange.AsMessage` says what the other side reads. That such messages print and parse to just this is shown by
  `StunRoundTrip`.
- Transaction ids are 96-bit random numbers in the source, and fresh numbers here; `IceTransactions` shows that over every
  run the next one is none of those that are remembered.
- The pairs on the agent's checklist are values, replaced as a whole; that the pair as an object does the same is
  shown for `IcePair.CandidatePair`. Pairs, candidates and media held by reference cannot be aliased in the model.
- `IceAgentOps.HandleMessage` and the indications of `AcceptsMessage` take a user name for granted, as the source does
  by its `unwrap`; the STUN parser makes sure of it for requests only.
- IceAgent.IceAgent.AddLocalCandidate: does not model the underflow of the local preference once the range of a kind
  and address family is used up (after 8192 relayed candidates at the earliest), because the source does not guard
  against it; it is a precondition.
- IceAgent.IceAgent.Adopt: has the same precondition.
- IceAgent.IceAgent.AddRemoteCandidate: takes candidates that were not discarded by their owner, as constructors make
  them.
- Video.Convert: takes even sizes only, for which the planes that the source allocates are made.
- FrameDelivery.FrameSurvivesReordering: is about one frame in an empty queue and one pop after all packets, without a
  condition on the cache or on skipping; with several frames in flight and pops in between, `H264Streams` has the statement.
- H264Streams.StreamSurvivesIff: takes frames whose first packet has two bytes or more, by which the source tells a first
  packet; what becomes of others is said by `OneByteStartWaits` only.
- SignalDelivery.DeviceGetsWhatClientSends: is for channels that were never full, as the source drops messages without a
  trace when one is; what a full channel does is said by `SignalRoom.ChannelAfter`.
- LineDirections.OfferTurnsDirections: takes lines and media with different mids; what repeated mids do to an answer is said
  by `MediaLines.AnswerPanicsIff`.
- PayloadTypes.UpdateWorksIff: is for at most 43 codecs, for which the 87 slots suffice in every case; with more it
  depends on how many have to move.
- PayloadTypes.BestMatch: takes the score of two codecs as a parameter; comparing codec parameters is not part of this
  model.
- The write loop of a signal peer takes messages out one by one; pings, deadlines and write errors are left out, as is
  the display name of a room.
- Direct changes of media outside offers and answers (the direct API, removal of media) are not part of the m-line
  model; neither are header extensions, SSRCs and simulcast.
