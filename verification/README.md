# OxideSFU in Dafny

A model of the parts of OxideSFU, a WebRTC media server, whose correctness cannot be read off one function:

- **TURN credentials** (`Radix`, `Base62`, `Text`, `TurnAuth`). A user name is `key|participant|expiry` in base62. The codec divides in place between radix 256 and radix 62. It is proved a bijection between byte strings and texts over the alphabet, and on top of it the handler is proved to accept exactly the names that spell a known key and a live expiry.
- **Send rate and reliable sending** (`SendRate`, `DataChannel`). A running total and a deque of sub-windows stand in for the full history of samples. They are proved to agree with it over every run, in bounded memory, and a blocked reliable send is proved to give up within 2.2 s, that is within 45 attempts.
- **Negotiation** (`Negotiation`). The offer/answer controller: offer IDs, stale answers, lost and surplus offers over every trace.
- **Room store** (`RoomState`, `RoomEdits`, `RoomEffects`, `RoomInvariants`, `RoomSnapshots`, `RoomLocks`, `RoomCases`, `RoomStore`). `RoomState` says what each locked operation does to the store; `RoomStore` holds the fields that the operations update, as a class whose methods are proved to do that. `RoomEdits` and `RoomEffects` say what can be seen before and after each operation, without the functions that make it up. The other modules prove what every run keeps: emptiness stamps, visible counts, capacities, live preferences, snapshots told apart by SID and version, the subscription revision as a cache key, and leases that never overlap.
- **Agent dispatch** (`AgentDispatch`, `AgentSafety`). A protocol of concurrent attempts: every block under one lock and every send is one event, and the theorems hold for every interleaving.
- **SIP listings** (`Paging`, `SipListing`). Keyset paging over hash maps read in arbitrary order.

Where the code promises less than its users may expect, the model follows the code, proves the condition under which the property holds (an equivalence where the name ends in `Exactly`), and gives a failing case:

| property | condition | failing case |
|---|---|---|
| a move respects the maximum of its destination | `RoomInvariants.MoveKeepsCapacityExactly` | `RoomCases.MoveOverfills` |
| preferences name people in the room | `RoomInvariants.PreferencesNameThePresentExactly` | `RoomCases.SetterNamesTheAbsent` |
| a join over a present identity has a higher version | `RoomSnapshots.RejoinOverPresentIsNewerExactly` | `RoomCases.RejoinIsNotNewer` |
| one subscription revision means one forwarding decision | `RoomSnapshots.RevisionFixesForwardingExactly` | `RoomCases.RejoinKeepsRevision`, `RoomCases.RemovalKeepsRevision`, `RoomCases.CreationKeepsRevision` |
| one dispatch attempt per key at a time | `AgentSafety.OneAttemptExactly` | `AgentSafety.ReleaseAllowsOverlap` |
| a minted credential is accepted | `TurnAuth.MintedCredentialAuthenticates` (every case) | `TurnAuth.BarredCredentialIsRefused` |
| SIDs and lock tokens are never issued twice | `RoomSnapshots.JoinedSidsAreNewExactly`, `RoomLocks.TokensAreNewExactly` | `RoomSnapshots.SaturatedSidsCollide`, `RoomLocks.SaturatedTokensCollide` |
| paging through trunks misses none | `SipListing.InboundPagesExactly` and its two companions | `SipListing.SharedIdIsSkipped` |
| a blocked send gives up | `DataChannel.StalledSendGivesUpInTime` (pauses up to 2 s and 1 ns) | `DataChannel.LongerPausesNeverGiveUp` |

Strings of the TURN path are their UTF-8 bytes. Clocks, hash functions and write results are parameters. Instants of the estimator are nanoseconds and those of the store milliseconds. Machine integers saturate or wrap where the code does.

`dafny verify dfyconfig.toml` checks the project.

## Model

| member | source | states |
|---|---|---|
| `Base62.DecodeEncode` | crates/oxidesfu-server/src/turn_auth.rs:199-263 | decoding undoes encoding on every byte string, leading zero bytes included |
| `Base62.EncodeDecode` | crates/oxidesfu-server/src/turn_auth.rs:199-272 | a text decodes if and only if all its bytes are in the alphabet, and then encoding undoes decoding: with `DecodeEncode`, the codec is a bijection |
| `Base62.EncodingKeepsTheNumber` | crates/oxidesfu-server/src/turn_auth.rs:199-225 | the text spells in radix 62 the number that the bytes spell in radix 256, with one zero letter in front for every zero byte in front |
| `Base62.EncodedLength` | crates/oxidesfu-server/src/turn_auth.rs:199-225 | n bytes take at least n and at most (3n + 1) / 2 letters |
| `Base62.NoTruncation` | crates/oxidesfu-server/src/turn_auth.rs:212-213 | the accumulator of the long division never makes a quotient above a digit, so the cast to eight bits drops nothing, in either direction |
| `Base62.DivideInPlace` | crates/oxidesfu-server/src/turn_auth.rs:211-215 | one pass over the suffix leaves in place the quotient of the number it held and returns the remainder; the prefix is untouched |
| `Base62.SkipZeros` | crates/oxidesfu-server/src/turn_auth.rs:217-219 | skipping the zeros a division left in front does not change the number that the suffix holds, and stops at the end or at a nonzero digit |
| `Base62.EncodeBytes` | crates/oxidesfu-server/src/turn_auth.rs:199-225 | the two nested loops end, because the number held in the suffix falls, and yield the positional encoding that the two round trips are about |
| `Base62.DecodeToBytes` | crates/oxidesfu-server/src/turn_auth.rs:227-263 | the decoding loops yield the positional decoding, or nothing exactly when a byte is outside the alphabet |
| `Base62.LetterValue` | crates/oxidesfu-server/src/turn_auth.rs:265-272 | the value table undoes the alphabet |
| `Base62.ValueLetter` | crates/oxidesfu-server/src/turn_auth.rs:265-272 | the alphabet undoes the value table, so no other byte has a value |
| `Text.ParseFormat` | crates/oxidesfu-server/src/turn_auth.rs:77-112 | the decimal text of every signed 64-bit expiry, both extremes included, parses back to it |
| `Text.JoinSplit` | crates/oxidesfu-server/src/turn_auth.rs:89-112 | splitting at a byte loses nothing and leaves no separator in a part |
| `Text.ParseExactly` | crates/oxidesfu-server/src/turn_auth.rs:89-112 | the expiry parses to a number exactly when it is an optional sign and at least one digit that stand for that number, in the 64-bit range |
| `Text.SaturatingAddExactly` | crates/oxidesfu-server/src/turn_auth.rs:77-87 | the expiry is the sum of instant and time to live, or the end of the range that it runs past |
| `Text.ValidUtf8Exactly` | crates/oxidesfu-server/src/turn_auth.rs:89-112 | a decoded name counts as text exactly when it is the UTF-8 encoding (RFC 3629) of Unicode scalar values |
| `TurnAuth.ParseMinted` | crates/oxidesfu-server/src/turn_auth.rs:77-112 | for every key, participant and time to live: parsing a minted user name gives back the triple, except that a bar in key or participant is an invalid name and an expiry of zero is reported as expired |
| `TurnAuth.MintSucceedsExactly` | crates/oxidesfu-server/src/config.rs:116-140 | minting succeeds if and only if the key is known and the saturated expiry is nonzero and not in the past |
| `TurnAuth.PasswordFailsExactly` | crates/oxidesfu-server/src/turn_auth.rs:114-149 | making a password fails as expired exactly for an expiry of zero or in the past, and as an invalid key exactly for an unknown key otherwise |
| `TurnAuth.MintedCredentialAuthenticates` | crates/oxidesfu-server/src/turn_auth.rs:151-180 | what the handler answers to every credential that can be minted, for every method and at every later or earlier instant: that participant and the key derived from the minted password, or a refusal exactly when a bar spoils the name or an Allocate comes after expiry |
| `TurnAuth.BarredCredentialIsRefused` | crates/oxidesfu-server/src/turn_auth.rs:151-180 | a failing case: the server mints a credential for a participant ID that ends in a bar and refuses it for every method at every instant |
| `TurnAuth.ParsedNamesAreSpelled` | crates/oxidesfu-server/src/turn_auth.rs:89-112 | every user name that parses, minted or not, is the base62 text of exactly the three fields that come out |
| `TurnAuth.ParseFailsExactly` | crates/oxidesfu-server/src/turn_auth.rs:89-112 | which error a name gets: not base62, not UTF-8, or not two bars, each exactly when that is so |
| `TurnAuth.GrantedExactly` | crates/oxidesfu-server/src/turn_auth.rs:151-180 | a request is granted if and only if its name spells a known key, some participant and a nonzero expiry that is not over when the method is Allocate; the answer is that participant with the key derived from the secret, the participant and the expiry, and a plain refusal otherwise |
| `TurnAuth.KeyWrittenOut` | crates/oxidesfu-server/src/turn_auth.rs:189-197 | for every granted request and any hash functions: the key is the MD5 of user name, the realm livekit and password between colons, and the password is the base62 of the SHA-256 of secret, participant and expiry between bars |
| `TurnAuth.KeyTextSplits` | crates/oxidesfu-server/src/turn_auth.rs:189-197 | the hashed text falls at its colons into exactly these three parts |
| `TurnAuth.MintedNamesAreDistinct` | crates/oxidesfu-server/src/turn_auth.rs:77-87 | two bar-free triples with nonzero expiry get one user name if and only if they are equal |
| `SendRate.SendRateSamples.AddSample` | crates/oxidesfu-rtc/src/data_channel.rs:72-117 | the fields after a sample, with the pop loop, are those of the pure step that the run results are about |
| `SendRate.DeliveredExactly` | crates/oxidesfu-rtc/src/data_channel.rs:78-82 | a sample delivers what was written less the growth of the buffer, nothing when the buffer grew by at least that much, cut to the machine word |
| `SendRate.DeliveryIsConservedExactly` | crates/oxidesfu-rtc/src/data_channel.rs:78-83 | throughout any run, bytes written are bytes delivered plus bytes still buffered, if and only if at every sample the amount that left the buffer is not negative and fits the machine word |
| `SendRate.SendRateSamples.CurrentBitrate` | crates/oxidesfu-rtc/src/data_channel.rs:119-139 | reads the rate without changing anything |
| `SendRate.BoundedMemory` | crates/oxidesfu-rtc/src/data_channel.rs:85-113 | in every run with a non-decreasing clock sub-windows start at least 100 ms apart and the deque holds at most 21 of them |
| `SendRate.TwentyOneWindowsOccur` | crates/oxidesfu-rtc/src/data_channel.rs:85-113 | the bound of 21 is reached |
| `SendRate.ExpireDropsPrefix` | crates/oxidesfu-rtc/src/data_channel.rs:96-105 | the pop loop drops exactly the too-old windows at the front, and takes their bytes out of the total |
| `SendRate.CreditRefines` | crates/oxidesfu-rtc/src/data_channel.rs:115-116 | one more sample keeps the agreement with the history if and only if the total still fits the machine word |
| `SendRate.RefinesExactlyUnlessClipped` | crates/oxidesfu-rtc/src/data_channel.rs:72-117 | at every point of a run the windows, the total and the sample history agree, if and only if no addition of the run clips |
| `SendRate.SmallRunsNeverClip` | crates/oxidesfu-rtc/src/data_channel.rs:72-117 | a run that delivers less than 2^64 bytes never clips |
| `SendRate.RunRefinesHistory` | crates/oxidesfu-rtc/src/data_channel.rs:72-117 | running total, sum of the sub-windows, and bytes delivered by exactly the samples since the retained start are one number; the reset to zero discards nothing counted |
| `SendRate.RateMeasuresDelivery` | crates/oxidesfu-rtc/src/data_channel.rs:119-139 | the rate asked for after any run is the volume delivered since the retained start over the time since, capped at 32 bits, and is absent exactly in the first 100 ms; the start lags the last sample by less than 2.2 s |
| `DataChannel.Channel.TryOnce` | crates/oxidesfu-rtc/src/data_channel.rs:309-361 | one write and what is made of its result: estimator, high-water flag and outcome |
| `DataChannel.Channel.RetryLoop` | crates/oxidesfu-rtc/src/data_channel.rs:305-361 | the loop stops at the first attempt that does not ask for another; final estimator, outcome and number of attempts are those of the pure loop |
| `DataChannel.Channel.SendBytes` | crates/oxidesfu-rtc/src/data_channel.rs:283-361 | an unreliable message is dropped up front exactly when a rate is known and the buffer exceeds both limits; otherwise the loop decides |
| `DataChannel.LoopReplays` | crates/oxidesfu-rtc/src/data_channel.rs:305-361 | after any earlier history and any send, the estimator is that of the whole history: a sample of the bytes written for a write that succeeds, of zero bytes for each timeout of a reliable one, and none for failures and unreliable timeouts |
| `DataChannel.OutcomeExactly` | crates/oxidesfu-rtc/src/data_channel.rs:321-360 | which outcome one write has, each exactly when the transport and the measured rate say so |
| `DataChannel.ThresholdExactly` | crates/oxidesfu-rtc/src/data_channel.rs:234-250 | what a timeout comes to under each configuration: the high-water mark is the least rate unless one is configured, and a configured zero gives up at once |
| `DataChannel.DroppedUpFrontExactly` | crates/oxidesfu-rtc/src/data_channel.rs:289-303 | a message is dropped up front exactly when a rate is known, more is buffered than leaves in 100 ms at that rate, and more than 2000 bytes |
| `DataChannel.StalledSendGivesUpInTime` | crates/oxidesfu-rtc/src/data_channel.rs:305-361 | after any earlier history, drained buffer or not, a reliable send with a nonzero threshold whose buffer does not drain between attempts and whose pauses are at most 2 s and 1 ns is dropped as a slow reader by its first attempt 2.2 s after the first, however close together attempts are |
| `DataChannel.BlockedSendGivesUp` | crates/oxidesfu-rtc/src/data_channel.rs:305-361 | so if each of its writes takes the 50 ms to time out, it is dropped within 45 attempts |
| `DataChannel.FortyFiveAttemptsCanBeNeeded` | crates/oxidesfu-rtc/src/data_channel.rs:305-361 | the bound of 45 is reached |
| `DataChannel.ZeroThresholdNeverGivesUp` | crates/oxidesfu-rtc/src/data_channel.rs:234-250 | the nonzero threshold is needed: an unconfigured channel whose high-water mark is zero retries for as long as writes time out |
| `DataChannel.LongerPausesNeverGiveUp` | crates/oxidesfu-rtc/src/data_channel.rs:305-361 | the pause bound is exact: with pauses 1 ns longer there are blocked sends of every length that are always retried, whatever the threshold, because no rate is ever measured |
| `DataChannel.StragglingNeverGivesUp` | crates/oxidesfu-rtc/src/data_channel.rs:305-361 | why: from any channel unused or idle for over 2.1 s, attempts in rounds of two, the second within 100 ms and the next round over 2.1 s after the first, empty the deque every round |
| `Negotiation.NegotiationController.NegotiateOffer` | crates/oxidesfu-rtc/src/transport_negotiation.rs:27-41 | the controller and the offer after a negotiate, as the trace semantics has them |
| `Negotiation.NegotiationController.RestartIce` | crates/oxidesfu-rtc/src/transport_negotiation.rs:45-50 | the same for a restart |
| `Negotiation.NegotiationController.HandleRemoteAnswer` | crates/oxidesfu-rtc/src/transport_negotiation.rs:53-66 | the same for an answer, with the retry it may release |
| `Negotiation.NegotiationController.OnNegotiationTimeout` | crates/oxidesfu-rtc/src/transport_negotiation.rs:69-78 | the same for a timeout |
| `Negotiation.NegotiateExactly` | crates/oxidesfu-rtc/src/transport_negotiation.rs:27-41 | in every reachable state: an unforced request does nothing, a forced one offers at once when nothing is pending and otherwise leaves exactly one retry queued |
| `Negotiation.RestartExactly` | crates/oxidesfu-rtc/src/transport_negotiation.rs:45-50 | in every reachable state: a restart offers, and queues a retry exactly when it interrupts a cycle |
| `Negotiation.AnswerExactly` | crates/oxidesfu-rtc/src/transport_negotiation.rs:53-66 | in every reachable state: the pending answer settles the cycle or releases the queued offer, and no other answer does anything |
| `Negotiation.TimeoutExactly` | crates/oxidesfu-rtc/src/transport_negotiation.rs:69-78 | in every reachable state: a timeout leaves the controller idle with nothing pending or queued, no late answer has an effect, and a forced request offers at once |
| `Negotiation.RunCoherent` | crates/oxidesfu-rtc/src/transport_negotiation.rs:27-88 | in every reachable state a pending ID is the latest offer, nothing is pending exactly in Idle, and a queued retry has an offer to wait for |
| `Negotiation.OfferIdFormula` | crates/oxidesfu-rtc/src/transport_negotiation.rs:80-88 | the k-th offer of any run has ID ((k - 1) mod (2^32 - 1)) + 1, never zero |
| `Negotiation.StaleAnswers` | crates/oxidesfu-rtc/src/transport_negotiation.rs:53-66 | an answer to the k-th of n offers has an effect if and only if an offer is pending and k lies a whole number of ID cycles before n; so none of the last 2^32 - 2 earlier offers can be answered late |
| `Negotiation.NoRequestIsLost` | crates/oxidesfu-rtc/src/transport_negotiation.rs:27-88 | after every forced negotiate or restart an offer is issued before the controller is idle again, two for a restart that interrupts a cycle, unless a timeout intervenes |
| `Negotiation.OffersAreRequested` | crates/oxidesfu-rtc/src/transport_negotiation.rs:27-88 | over any run, offers and queued retry number at most the forced negotiates plus twice the restarts |
| `Negotiation.TwoAnswersSettle` | crates/oxidesfu-rtc/src/transport_negotiation.rs:53-66 | from every reachable state, answering what is pending at most twice reaches Idle |
| `RoomStore.Rooms.JoinParticipant` | crates/oxidesfu-room/src/participant.rs:48-147 | a join is refused if and only if the room is there and full, and then changes nothing; otherwise store and reply, with the participants already there, are those of the join step |
| `RoomEffects.JoinExactly` | crates/oxidesfu-room/src/participant.rs:48-147 | a join is turned away exactly by a room at its maximum without that identity; whoever is let in has all they brought and nothing else, and nobody else has changed |
| `RoomEffects.JoinedRoomExactly` | crates/oxidesfu-room/src/participant.rs:67-93 | a room made by a join has the defaults, and one that is there keeps its settings |
| `RoomStore.Rooms.RemoveParticipant` | crates/oxidesfu-room/src/participant.rs:163-204 | store and farewell snapshot of the removal step; comparing set sizes moves the revision exactly when a preference went |
| `RoomEffects.RemoveExactly` | crates/oxidesfu-room/src/participant.rs:163-204 | the farewell is the participant as it was but disconnected, with the reason, one version on; that version is kept aside; nobody else has changed; a room left empty is stamped with the instant |
| `RoomStore.Rooms.SetTrackMime` | crates/oxidesfu-room/src/participant.rs:257-294 | normalisation, early return, changed track and version, error and reply of the MIME setter |
| `RoomStore.Rooms.SetKind` | crates/oxidesfu-room/src/participant.rs:207-230 | store, error and reply of the kind setter |
| `RoomStore.Rooms.AddTrack` | crates/oxidesfu-room/src/participant.rs:233-254 | store, error and reply of publishing a track |
| `RoomStore.Rooms.SetTrackMid` | crates/oxidesfu-room/src/participant.rs:297-329 | store, error and reply of the mid setter, with its early return |
| `RoomStore.Rooms.SetTrackSdpCid` | crates/oxidesfu-room/src/participant.rs:389-423 | the test over all codecs and the loop over them amount to the one edit: nothing changes exactly when every codec has the ID already |
| `RoomStore.Rooms.SetTrackMuted` | crates/oxidesfu-room/src/participant.rs:572-606 | store and error of the mute setter; it returns the first track with the SID, as the store now has it |
| `RoomStore.Rooms.AddDataTrack` | crates/oxidesfu-room/src/participant.rs:649-670 | store, error and reply of publishing a data track |
| `RoomStore.Rooms.RemoveDataTrack` | crates/oxidesfu-room/src/participant.rs:673-696 | the retain loop, store, error and reply of removing data tracks by handle |
| `RoomStore.EditReplyExactly` | crates/oxidesfu-room/src/participant.rs:207-329 | which error each setter gives, exactly: no such room, or no such participant or track in it; otherwise it returns what the store holds afterwards |
| `RoomStore.Rooms.RemoveParticipantTrack` | crates/oxidesfu-room/src/participant.rs:609-646 | store, result and error of a track removal |
| `RoomStore.Rooms.ApplyAttributes` | crates/oxidesfu-room/src/participant.rs:774-787 | merging attributes one by one in any order gives the one merged map, and "changed" is reported exactly when it differs |
| `RoomStore.Rooms.SumSizes` | crates/oxidesfu-room/src/participant.rs:735-738 | adding up the entries in any order gives the one size of the attributes |
| `RoomStore.Rooms.ChangeParticipant` | crates/oxidesfu-room/src/participant.rs:745-792 | the field-by-field update with its change flag is the pure update, which bumps the version exactly when the record differs |
| `RoomStore.Rooms.UpdateParticipant` | crates/oxidesfu-room/src/participant.rs:699-801 | store, result and the order of the error checks of an update, with both size limits in UTF-8 bytes |
| `RoomEffects.UpdateRefusedExactly` | crates/oxidesfu-room/src/participant.rs:708-743 | an update is refused exactly for metadata over 524288 bytes or for leaving attributes over 65536, and otherwise applied |
| `RoomEffects.BytesExactly` | crates/oxidesfu-room/src/participant.rs:708-743 | what counts against the limits is the length of the UTF-8 encoding |
| `RoomEffects.EditsStayLocal` | crates/oxidesfu-room/src/participant.rs:207-329 | edits and updates change nobody else, no lock, and of the rooms at most the count of that one |
| `RoomStore.Rooms.MoveParticipant` | crates/oxidesfu-room/src/participant.rs:816-867 | store, result and errors of a move, within one room too |
| `RoomEffects.MoveExactly` | crates/oxidesfu-room/src/participant.rs:816-867 | the participant is at the destination one version on and otherwise the same, and nowhere else; everybody else stays; the destination remembers no version and no presence of it |
| `RoomStore.Rooms.SetPrefsFor` | crates/oxidesfu-room/src/participant.rs:367-383 | setting the preference publisher by publisher, in any order, changes exactly those tuples and reports exactly whether any changed |
| `RoomStore.Rooms.SetSubscribedByTrack` | crates/oxidesfu-room/src/participant.rs:334-386 | store and result of the setter that looks publishers up by track |
| `RoomStore.Rooms.SetSubscribedByPublisher` | crates/oxidesfu-room/src/participant.rs:426-471 | store and result of the setter that looks a publisher up by SID, whichever holder of it the search finds |
| `RoomStore.Rooms.SetSubscribed` | crates/oxidesfu-room/src/participant.rs:474-506 | store and result of the setter that checks only the room |
| `RoomEffects.SetByTrackExactly` | crates/oxidesfu-room/src/participant.rs:334-386 | what the query answers after the setter by track: the value set for every publisher in the room who has some track of that SID, and the answer before for every other tuple |
| `RoomEffects.SetByPublisherExactly` | crates/oxidesfu-room/src/participant.rs:426-471 | what the query answers after the setter by publisher SID: the value set for the holder found, and the answer before for every other tuple |
| `RoomEffects.SetDirectlyExactly` | crates/oxidesfu-room/src/participant.rs:474-506 | what the query answers after the setter that checks only the room: the value set for that tuple, and the answer before for every other |
| `RoomEffects.PrefsDroppedExactly` | crates/oxidesfu-room/src/participant.rs:189-201 | which tuples every other operation drops: those of the removed or moved participant in its room, of the removed track, of the deleted room, and no others |
| `RoomStore.Rooms.CreateRoom` | crates/oxidesfu-room/src/room.rs:39-118 | an existing room is returned untouched; a new one takes the defaults where the request has zeros, and its agent dispatches |
| `RoomEffects.DispatchesInOrder` | crates/oxidesfu-room/src/room.rs:84-104 | dispatches are made one for one and in order, with the IDs that follow the counter |
| `RoomEffects.DispatchesAreNew` | crates/oxidesfu-room/src/room.rs:84-104 | the dispatches of a new room are for its agents in order, under increasing IDs not issued before, unless the counter is at its ceiling |
| `RoomEffects.CreateRoomExactly` | crates/oxidesfu-room/src/room.rs:39-118 | a new room has each setting of the request, or the default where the request has zero, and is empty and stamped; everything else stays |
| `RoomEffects.RoomSidsAreUnique` | crates/oxidesfu-room/src/room.rs:39-118 | in every state of every run without stored snapshots no two rooms share a SID below the largest |
| `RoomStore.Rooms.DeleteRoomWithSnapshot` | crates/oxidesfu-room/src/room.rs:144-164 | room, lock and preferences of the room go together |
| `RoomEffects.DeleteExactly` | crates/oxidesfu-room/src/room.rs:144-164 | deletion takes the room and its lock and leaves every other room and lock |
| `RoomStore.Rooms.CleanupExpired` | crates/oxidesfu-room/src/room.rs:1429-1469 | the retain loop, in any order, removes exactly the timed-out rooms and returns each of them once |
| `RoomEffects.CleanupExactly` | crates/oxidesfu-room/src/room.rs:1429-1469 | cleanup takes exactly the rooms empty for their time: the departure timeout in seconds if somebody was there and it is set, else the empty timeout in seconds if set, else the default age in milliseconds |
| `RoomStore.Rooms.StoreSnapshot` | crates/oxidesfu-room/src/room.rs:1303-1340 | a stored snapshot replaces the room and its internal part or makes an empty record |
| `RoomEffects.DescriptionsExactly` | crates/oxidesfu-room/src/room.rs:1303-1340 | a stored snapshot (or new room metadata) changes the description of that room and nothing of who is there; an unknown name gives an empty stamped room, an empty name nothing |
| `RoomStore.Rooms.TryLockRoom` | crates/oxidesfu-room/src/room.rs:167-207 | one pass of the waiting loop: lock, token and error cases |
| `RoomStore.Rooms.Unlock` | crates/oxidesfu-room/src/room.rs:210-236 | only the matching token releases a lock; an empty room name or token is refused |
| `RoomEffects.LockExactly` | crates/oxidesfu-room/src/room.rs:167-236 | a room can be locked exactly when its name is not empty, the interval is positive and no unexpired lock of it is held; the lock expires after the interval, or at the end of the clock |
| `RoomEdits.TrackEditExactly` | crates/oxidesfu-room/src/participant.rs:207-329 | a track edit fails if and only if no track has the SID; otherwise only the first such track changes, it comes to show the edit, and the version moves if and only if it did not show it before |
| `RoomEdits.TrackEditIsIdempotent` | crates/oxidesfu-room/src/participant.rs:207-329 | repeating a track edit changes nothing, the version included |
| `RoomEffects.TrackEditKeeps` | crates/oxidesfu-room/src/participant.rs:257-329 | a track edit leaves every other field of the track alone, and a new MIME type comes with one codec of that type |
| `RoomEffects.PlainEditsExactly` | crates/oxidesfu-room/src/participant.rs:207-254 | the kind setter and publishing change what they name and the version, and nothing else |
| `RoomEdits.NormalizedExactly` | crates/oxidesfu-room/src/participant.rs:283-287 | the stored MIME type is the one text that stands between the white space at the ends, in lower case, and normalising it again changes nothing |
| `RoomEdits.RemovedTrackIsForgotten` | crates/oxidesfu-room/src/participant.rs:609-646 | a removed track leaves all other tracks as often as they were there, no preference names it afterwards, all others stay, and the revision moves if and only if one went |
| `RoomEdits.RemovedDataTrackIsGone` | crates/oxidesfu-room/src/participant.rs:673-696 | removing by handle leaves all other data tracks as often as they were there and touches nothing else but the version |
| `RoomEdits.DataTrackRoundTrip` | crates/oxidesfu-room/src/participant.rs:649-696 | removing a data track just added under a new handle gives back the list as it was |
| `RoomEdits.UpdateExactly` | crates/oxidesfu-room/src/participant.rs:745-792 | an update is a no-op if and only if the participant already satisfies it; afterwards it does, whatever the update does not mention is kept, and only a new permission without publishing takes the tracks |
| `RoomEdits.UpdateIsIdempotent` | crates/oxidesfu-room/src/participant.rs:745-792 | repeating an update changes nothing, the version included |
| `RoomEdits.SettersDecide` | crates/oxidesfu-room/src/participant.rs:496-504 | a subscription setter decides exactly the tuples it is about, is idempotent, and moves the revision if and only if one of them was different |
| `RoomInvariants.StepExactly` | crates/oxidesfu-room/src/participant.rs:48-867 | one operation keeps the stamp, and count and capacity as far as asked for, if and only if it is not a move or a stored snapshot that breaks them |
| `RoomInvariants.StampsAreExact` | crates/oxidesfu-room/src/participant.rs:132-198 | in every reachable store a room has an emptiness stamp if and only if it has no participants |
| `RoomInvariants.CleanupSparesTheOccupied` | crates/oxidesfu-room/src/room.rs:1429-1469 | cleanup leaves every occupied room of every reachable store as it was, whatever the clock and the default age |
| `RoomInvariants.CountIsVisibleExactly` | crates/oxidesfu-room/src/participant.rs:18-25 | throughout any run the advertised counts are the numbers of participants that are not hidden, capped at 32 bits, if and only if every stored snapshot had the right count |
| `RoomEffects.VisibleExactly` | crates/oxidesfu-room/src/participant.rs:18-25 | a count leaves out exactly those with a permission that hides them |
| `RoomInvariants.CapacityIsKeptExactly` | crates/oxidesfu-room/src/participant.rs:95-110 | throughout any run no room exceeds its maximum, if and only if every move had room at its destination or stayed in its room and every stored snapshot had a maximum to suit |
| `RoomInvariants.MoveKeepsCapacityExactly` | crates/oxidesfu-room/src/participant.rs:844-853 | a move keeps the destination within its maximum if and only if there was room for the identity or it is the same room |
| `RoomCases.MoveOverfills` | crates/oxidesfu-room/src/participant.rs:844-853 | a failing run: room b with a maximum of 1 and one participant gets a second by a move |
| `RoomInvariants.PreferencesNameThePresentExactly` | crates/oxidesfu-room/src/participant.rs:189-201 | throughout any run every stored tuple names a live room and two present participants, although cleanup never prunes tuples, if and only if the setter that checks only the room was used for people in it |
| `RoomInvariants.UncheckedSetterExactly` | crates/oxidesfu-room/src/participant.rs:474-506 | the setter that checks only the room keeps that if and only if both participants are present |
| `RoomCases.SetterNamesTheAbsent` | crates/oxidesfu-room/src/participant.rs:474-506 | a failing run: a new room, and a preference for two people who never joined |
| `RoomSnapshots.StepTraced` | crates/oxidesfu-room/src/participant.rs:48-867 | every operation makes each participant in the store a new one, an unchanged one or a newer version of one that was there |
| `RoomSnapshots.StateUnique` | crates/oxidesfu-room/src/participant.rs:118-130 | in every state of every run, no two participants of the store, in any rooms, share a SID below the largest |
| `RoomSnapshots.SaturatedSidsCollide` | crates/oxidesfu-room/src/participant.rs:118-130 | the largest SID is the exception: once the counter is at its ceiling every join gets it |
| `RoomSnapshots.SnapshotsAgree` | crates/oxidesfu-room/src/participant.rs:177-186 | over every run, for all snapshots in the store or returned by a removal with one SID below the largest: the version never decreases, and with one version below the largest they are identical |
| `RoomSnapshots.JoinedSidsAreNewExactly` | crates/oxidesfu-room/src/participant.rs:118-130 | a join that is let in gets a SID above one seen earlier in the run, if and only if that one was not the largest |
| `RoomSnapshots.SaturatedVersionsCollide` | crates/oxidesfu-room/src/participant.rs:233-254 | that exception is needed: at the largest version a change is published under the old version |
| `RoomSnapshots.RejoinAfterRemovalIsNewerExactly` | crates/oxidesfu-room/src/participant.rs:112-117 | after a removal the identity joins with a version above the one its farewell carried, if and only if that was not the largest |
| `RoomSnapshots.RejoinOverPresentIsNewerExactly` | crates/oxidesfu-room/src/participant.rs:112-117 | a join over a present identity is newer than the record it replaces if and only if that record has not moved past the version kept aside and is below the largest |
| `RoomCases.RejoinIsNotNewer` | crates/oxidesfu-room/src/participant.rs:112-117 | a failing run: join, publish a track, join again, and both records have version 1 |
| `RoomSnapshots.RevisionFixesSubscriptions` | crates/oxidesfu-room/src/participant.rs:509-527 | two states of a run with one revision below its ceiling answer every subscription query alike |
| `RoomSnapshots.OneDecisionExactly` | crates/oxidesfu-room/src/participant.rs:541-569 | at one revision a forwarding decision is the same in two states if and only if the track was not wanted anyway or the guard on room and permission answers alike |
| `RoomSnapshots.RevisionFixesForwardingExactly` | crates/oxidesfu-room/src/participant.rs:541-569 | a cache of a subscriber's forwarding decisions keyed by the revision agrees with a direct lookup for all publishers and tracks if and only if that guard answers alike when it is filled and when it is read |
| `RoomSnapshots.RevisionFixesForwarding` | crates/oxidesfu-room/src/participant.rs:541-569 | in particular they agree while the room exists and the subscriber is the same participant: no change of permission goes without a new revision |
| `RoomCases.RejoinKeepsRevision` | crates/oxidesfu-room/src/participant.rs:112-147 | a failing run: one revision, forwarding allowed and then denied, because the subscriber joined again with less permission |
| `RoomCases.RemovalKeepsRevision` | crates/oxidesfu-room/src/participant.rs:163-204 | a failing run: one revision, forwarding denied and then allowed, because the subscriber who may not subscribe left |
| `RoomCases.CreationKeepsRevision` | crates/oxidesfu-room/src/room.rs:39-118 | a failing run: one revision, forwarding denied and then allowed, because the room was created |
| `RoomLocks.LeasesNeverOverlap` | crates/oxidesfu-room/src/room.rs:167-236 | over a whole run with a non-decreasing clock: when a room is locked again, the earlier lease has expired, was unlocked with its own token, or the room was deleted in between |
| `RoomLocks.LeaseLasts` | crates/oxidesfu-room/src/room.rs:167-236 | an unexpired lease that nobody ends is still there, unchanged |
| `RoomLocks.TokensAreNewExactly` | crates/oxidesfu-room/src/room.rs:167-207 | whoever locks any room later in a run gets a higher token, if and only if the earlier token was not the largest |
| `RoomLocks.LateUnlockIsHarmlessExactly` | crates/oxidesfu-room/src/room.rs:210-236 | after the room was locked again, an unlock by a former holder changes nothing, whoever holds the lock by then, if and only if the former token was below the largest or nobody holds the lock |
| `RoomLocks.SaturatedTokensCollide` | crates/oxidesfu-room/src/room.rs:167-236 | a failing case: at the ceiling two holders share the largest token and the former one frees the room |
| `AgentDispatch.MarkersAlone` | crates/oxidesfu-agent/src/lib.rs:362-429 | in every state of the protocol, beginning an attempt and releasing markers do to the markers what the methods of the class below do to its sets, and an attempt begins if and only if its key was unmarked |
| `AgentDispatch.RuntimeState.TryMark` | crates/oxidesfu-agent/src/lib.rs:364-369 | of several callers with one key only the first is told to go on; the three sets change as the markers do when an attempt begins |
| `AgentDispatch.RuntimeState.Unmark` | crates/oxidesfu-agent/src/lib.rs:375-376 | the sets change as the markers do when that key is released |
| `AgentDispatch.RuntimeState.UnmarkRoom` | crates/oxidesfu-agent/src/lib.rs:75-85 | one locked section of a room release: the sets change as the markers do when one type of a room is released |
| `AgentDispatch.RuntimeState.ReleaseRoomJobs` | crates/oxidesfu-agent/src/lib.rs:75-85 | three locked sections in turn, each a release event of its own |
| `AgentDispatch.RuntimeState.ReleaseDepartedParticipantJobs` | crates/oxidesfu-agent/src/lib.rs:54-73 | two locked sections in turn, and the three of the room only if it is empty, each a release event of its own |
| `AgentDispatch.RuntimeState.ReleaseJobsForType` | crates/oxidesfu-agent/src/lib.rs:87-93 | the sets change as the markers do when that job type is released |
| `AgentDispatch.RoomReleasesExactly` | crates/oxidesfu-agent/src/lib.rs:75-85 | with nothing in between, a room release leaves exactly the markers of other rooms |
| `AgentDispatch.DepartureReleasesExactly` | crates/oxidesfu-agent/src/lib.rs:54-73 | a departure takes exactly the participant marker and the publisher marker of the one who left, and all markers of the room when nobody is left |
| `AgentDispatch.TypeReleasesExactly` | crates/oxidesfu-agent/src/lib.rs:87-93 | releasing a job type takes exactly the markers of that kind |
| `AgentDispatch.ReleasedExactly` | crates/oxidesfu-agent/src/lib.rs:54-93 | releases in turn leave exactly the markers that none of them covers |
| `AgentDispatch.FailureReleases` | crates/oxidesfu-agent/src/lib.rs:371-377 | an attempt that fails takes its marker away as a release of that key does |
| `AgentSafety.RunSound` | crates/oxidesfu-agent/src/lib.rs:502-591 | the inductive invariant of every interleaving: who was asked, who answered and which calls wait |
| `AgentSafety.AssignmentsAreBacked` | crates/oxidesfu-agent/src/lib.rs:502-591 | in every interleaving each assignment comes after its worker registered for the job type, was asked about that job, and answered available and not terminating |
| `AgentSafety.JobsAreAssignedOnce` | crates/oxidesfu-agent/src/lib.rs:748-761 | in every interleaving a job is assigned at most once and its waiting call answered at most once |
| `AgentSafety.ChooseExactly` | crates/oxidesfu-agent/src/lib.rs:602-613 | a worker is offered a job exactly when it is registered for the type and namespace, available, not overloaded, and has the agent name and deployment asked for, if any; the job is new |
| `AgentSafety.RegisteredCanBeChosen` | crates/oxidesfu-agent/src/lib.rs:688-734 | a worker that registers gets an ID of its own and can be chosen at once for what it registered for |
| `AgentSafety.StatusDecides` | crates/oxidesfu-agent/src/lib.rs:736-746 | what a worker reports decides whether it may be chosen and changes nothing else |
| `AgentSafety.UnregisteredStaysAway` | crates/oxidesfu-agent/src/lib.rs:763-781 | a worker that unregisters is never chosen again, in any later interleaving |
| `AgentSafety.AttemptComesTo` | crates/oxidesfu-agent/src/lib.rs:502-591 | from every state: an attempt that asks an eligible worker and hears from it in time sends the assignment, and keeps its key marked, exactly when the answer is available and not terminating |
| `AgentSafety.FailedCallsRelease` | crates/oxidesfu-agent/src/lib.rs:537-568 | a worker that is gone, a request that cannot be sent or an answer that does not come leaves no job, and the key may be tried again |
| `AgentSafety.MarkersAreNeverStuck` | crates/oxidesfu-agent/src/lib.rs:362-429 | in every interleaving of attempts, failures and releases a marked key has an attempt that is running or that sent an assignment for it |
| `AgentSafety.OneAttemptExactly` | crates/oxidesfu-agent/src/lib.rs:362-429 | from any state with no running attempt for a key, through any interleaving: trying the key never leaves two attempts that run or got a job, if and only if the key is released only after its attempts have failed |
| `AgentSafety.ReleaseAllowsOverlap` | crates/oxidesfu-agent/src/lib.rs:54-93 | a run that breaks it: a release under a running attempt lets a second one run beside it |
| `Paging.SortElements` | crates/oxidesfu-room/src/sip.rs:74-94 | sorting loses and adds nothing |
| `Paging.SortSorted` | crates/oxidesfu-room/src/sip.rs:74-94 | sorting orders by ID |
| `Paging.BelowExactly` | crates/oxidesfu-room/src/sip.rs:74-94 | the order of IDs: a proper beginning first, else the smaller character where they first differ |
| `Paging.PageExactly` | crates/oxidesfu-room/src/sip.rs:74-94 | a page lists each item as often as it is there if its ID is above the bound or there is no bound, cut to the limit when it is positive |
| `Paging.OrderDoesNotMatter` | crates/oxidesfu-room/src/sip.rs:74-94 | with distinct IDs a page depends on which items there are, not on the order the hash maps yield them in |
| `Paging.WalkExactly` | crates/oxidesfu-room/src/sip.rs:74-94 | a client that asks for pages of one listing after the last ID seen collects the whole sorted listing, without skip or repeat, if and only if no page boundary falls between two items with one ID |
| `Paging.EveryWalkIsCompleteExactly` | crates/oxidesfu-room/src/sip.rs:74-94 | that holds for every page size if and only if the IDs are distinct |
| `Paging.PagesWellExactly` | crates/oxidesfu-room/src/sip.rs:74-94 | with the items read afresh in any order for every page, all walks of all page sizes collect the whole sorted listing if and only if the IDs are distinct |
| `SipListing.Gather` | crates/oxidesfu-room/src/sip.rs:278-309 | reading a map in any order yields each converted entry that passes the filter exactly once |
| `SipListing.InboundListsExactly` | crates/oxidesfu-room/src/sip.rs:278-309 | an inbound listing holds exactly the stored inbound trunks and converted legacy trunks whose ID the request names, if it names any, and one of whose numbers it names, if both have any |
| `SipListing.OutboundListsExactly` | crates/oxidesfu-room/src/sip.rs:312-343 | the same for outbound listings |
| `SipListing.TrunkListsExactly` | crates/oxidesfu-room/src/sip.rs:253-275 | the merged listing holds exactly the trunks of the three maps, converted |
| `SipListing.FiltersExactly` | crates/oxidesfu-room/src/sip.rs:96-114 | both filters accept exactly what the request wants: a named ID if it names any, and a shared number if request and trunk both have any |
| `SipListing.InboundConversionsExactly` | crates/oxidesfu-room/src/sip.rs:7-26 | an inbound trunk survives the legacy form, field by field; a legacy trunk without inbound numbers offers its outbound number |
| `SipListing.OutboundConversionsExactly` | crates/oxidesfu-room/src/sip.rs:28-72 | an outbound trunk survives the legacy form exactly when it has no number or one that is not empty, and which field goes where |
| `SipListing.SipStore.StoreTrunk` | crates/oxidesfu-room/src/sip.rs:118-133 | files a legacy trunk under its ID, or refuses an empty ID |
| `SipListing.SipStore.StoreInbound` | crates/oxidesfu-room/src/sip.rs:136-154 | files an inbound trunk under its ID, or refuses an empty ID |
| `SipListing.SipStore.StoreOutbound` | crates/oxidesfu-room/src/sip.rs:157-175 | files an outbound trunk under its ID, or refuses an empty ID |
| `SipListing.SipStore.DeleteTrunk` | crates/oxidesfu-room/src/sip.rs:241-250 | removes the ID from all three maps |
| `SipListing.SipStore.ListTrunk` | crates/oxidesfu-room/src/sip.rs:253-275 | the page is cut from a reading of all three maps, each trunk once per map it is in |
| `SipListing.SipStore.ListInbound` | crates/oxidesfu-room/src/sip.rs:278-309 | the page is cut from a reading of inbound and legacy trunks that pass the number and ID filters |
| `SipListing.SipStore.ListOutbound` | crates/oxidesfu-room/src/sip.rs:312-343 | the page is cut from a reading of outbound and legacy trunks that pass the filters |
| `SipListing.InboundPagesExactly` | crates/oxidesfu-room/src/sip.rs:278-309 | walks over inbound listings, with any page size and whatever order the maps are read in for each page, collect the whole sorted filtered listing if and only if no ID is both an inbound and a legacy trunk that the request matches |
| `SipListing.OutboundPagesExactly` | crates/oxidesfu-room/src/sip.rs:312-343 | the same for outbound trunks |
| `SipListing.TrunkPagesExactly` | crates/oxidesfu-room/src/sip.rs:253-275 | the same for the listing that merges all three maps, if and only if no ID is in two of them |
| `SipListing.SharedIdIsSkipped` | crates/oxidesfu-room/src/sip.rs:278-309 | a failing case: one ID in the inbound and the legacy map, and a client with pages of one trunk sees one of the two |

## Left out

- WebRTC, peer connections, signalling, HTTP and Twirp routing, Redis mailboxes and relays, webhooks, logging and metrics: wrappers over code that is not visible, or request plumbing.
- SHA-256 and MD5: function fields of the handler; only that both sides apply the same function is used. JWT, base64, gzip and protobuf are not part of this model.
- Egress, ingress, SIP dispatch rules, and agent dispatches other than those a room is created with: map insertion and removal behind one check each; they would only add easy members.
- Enabled codecs and the other copied protobuf fields: carried along unread.
- Lock poisoning and the printed form of IDs: each locked method is one atomic step and an ID is the counter it is printed from.
- The order of lists built from a hash map without sorting, such as the participants a join returns: they are maps here.
- The time between two passes of the loop that waits for a room's lock: other operations of the run come between passes.
- Worker choice by weight: any eligible worker may be chosen, which covers the float and clock arithmetic; likewise an attempt may serve any dispatches and namespaces, one after another.
- `forward_participant`: two existence checks that change nothing.
- Clocks that run backwards: the run results on rates and leases take a non-decreasing clock, as the code does; the store results on stamps, counts, versions and revisions do not need it.
- RoomSnapshots.SnapshotsAgree: leaves out the largest SID and, for two equal versions, the largest version, because both counters saturate (`RoomSnapshots.SaturatedSidsCollide`, `RoomSnapshots.SaturatedVersionsCollide`); results about the revision likewise stop at its ceiling. No result bounds the length of a run.
- RoomState.Step: `update_room_metadata` is a step of every run but has no method of its own.
- DataChannel.Channel.RetryLoop: the results of writes are a finite sequence; if it ends while the sender is still trying, the outcome is `Retrying`.
- AgentDispatch.RuntimeState.TryMark: the class holds the marker sets only; workers, pending requests and attempts are values of the step relation, since their updates interleave. Between the locked sections of one release other events of a run may come; a method call of the class shows them without interruption.
