# PodcastSessionManager in Dafny

A model of the per-broadcast relay of the discord-podcasts server, `PodcastSessionManager`.
One sender connection streams audio frames. The manager gates each frame on its size and fans the
accepted frames out, byte for byte and in order, to a list of receiver connections. At teardown
it sends every active receiver the teardown packet, closes and clears the receivers, and tells the
sender. As written the teardown packet is empty; once the buffer is flipped it is the EVENT
packet-type byte followed by the encoded event (see Findings).

The model is sequential and imperative, as the Kotlin is:

- `connections.dfy`: a websocket connection is a class `Conn`. It has an `active` flag, an
  `outbox` log of every payload sent to it, and a `closed` flag with the last close reason.
  `close()` without arguments uses Ktor's default reason, NORMAL (1000) with an empty message.
- `buffers.dfy`: the part of `java.nio.ByteBuffer` the teardown packet is built with. This is a
  class over an `array` with position and limit: `allocate`, relative `put`, bulk `put`, `flip`,
  and Ktor's `moveToByteArray`, which copies the remaining bytes.
- `frames.dfy`: the size gate (`minFrameBytesSize = 1 + 24`, so a frame must be longer than 25
  bytes) and the teardown packet (the EVENT packet-type byte, then the encoded event). It also
  holds pure specification functions with their lemmas: the frames that pass the gate, the
  rejection count, and what a receiver listed k times gets from a run of broadcasts.
- `membership.dfy`: occurrence counting and the first-occurrence removal used by the corrected
  `removeReceiver`.
- `session.dfy`: the manager itself, a class with the sender slot (`Option<Conn>`), the
  `receivers` list (a `seq<Conn>` reassigned in place) and a log of `podcast.destroy` calls.
  Each method is proved against its specification functions.
  - A receiver list may hold the same handle twice, and the sender may also be a receiver. The
    contracts therefore count copies with the list's multiset: an active handle listed n times
    gets n copies of each broadcast.
- `scenarios.dfy`: whole-session runs, each stated from the connections' point of view.

Three things the manager calls are opaque parameters, held in a `Collaborators` value:

- `encodeToBytes(DisconnectedEvent(reason))`;
- `WsError.asCloseReason`;
- `PacketType.EVENT.raw`.

### Where the intended behaviour and the code differ

The model follows the code in each of these places.

- Intended: the name `minFrameBytesSize` and its comment at `PodcastSessionManager.kt:24` (one
  flag byte plus a 24-byte nonce) make 25 bytes the smallest well-formed frame. The code
  (`PodcastSessionManager.kt:40`) rejects every frame of at most 25 bytes, so a 25-byte frame is
  rejected (`Frames.IsValidFrame`, `Scenarios.RejectedThenValid`).
- Intended: a rejected frame ends the session and no later frame is broadcast. The code's
  `return@collect` only skips that frame, after calling `podcast.destroy(INVALID_PAYLOAD)`; whether
  later frames still reach anyone depends on what `destroy` does, which is outside this component
  (see the `DestroyPodcast` line under "Left out").
- Intended: `removeReceiver` removes the handle. The code appends it (see Findings).
- Intended: after teardown no registration is accepted. The code has no such latch: `addReceiver`
  after `disconnectAll` still appends.

## Model

| member | source | states |
|---|---|---|
| Connections.Conn.Send | src/main/kotlin/com/github/discordPodcasts/podcast/PodcastSessionManager.kt:54 | a send appends exactly the payload to the connection's outbox and changes none of its flags |
| Connections.Conn.Close | src/main/kotlin/com/github/discordPodcasts/podcast/PodcastSessionManager.kt:74 | a close marks the connection closed with the given reason and leaves its outbox and active flag alone |
| Buffers.ByteBuffer.Allocate | src/main/kotlin/com/github/discordPodcasts/podcast/PodcastSessionManager.kt:68 | `ByteBuffer.allocate(n)` gives n zero bytes, position 0 and limit n |
| Buffers.ByteBuffer.Put | src/main/kotlin/com/github/discordPodcasts/podcast/PodcastSessionManager.kt:69 | a relative put writes the byte at the position and advances it by one; the limit is kept |
| Buffers.ByteBuffer.PutAll | src/main/kotlin/com/github/discordPodcasts/podcast/PodcastSessionManager.kt:70 | a bulk put is the bytes put one after another: the written prefix grows by exactly `src` |
| Buffers.ByteBuffer.Flip | src/main/kotlin/com/github/discordPodcasts/podcast/PodcastSessionManager.kt:68-71 | `flip()` sets the limit to the position and the position to 0 |
| Buffers.ByteBuffer.MoveToByteArray | src/main/kotlin/com/github/discordPodcasts/podcast/PodcastSessionManager.kt:71 | `moveToByteArray()` returns the bytes between position and limit and leaves the buffer drained |
| Frames.EventPacketAsWritten | src/main/kotlin/com/github/discordPodcasts/podcast/PodcastSessionManager.kt:68-71 | the packet built as written (allocate, put type, put event, move out with no flip) is empty, so it is never the framed event |
| Frames.EventPacket | src/main/kotlin/com/github/discordPodcasts/podcast/PodcastSessionManager.kt:68-71 | with the flip, the packet is the framed event: length 1 + the event's length, byte 0 the EVENT type, the rest the event bytes |
| Frames.EventFrameLayout | src/main/kotlin/com/github/discordPodcasts/podcast/PodcastSessionManager.kt:64-71 | the teardown packet has length 1 + the event's length, starts with the packet type and then carries the event unchanged |
| Frames.UnframeEventFrame | src/main/kotlin/com/github/discordPodcasts/podcast/PodcastSessionManager.kt:68-71 | splitting a teardown packet gives back the packet type and the event bytes |
| Frames.EventFrameUnframe | src/main/kotlin/com/github/discordPodcasts/podcast/PodcastSessionManager.kt:68-71 | a packet can be split exactly when it is non-empty, and re-framing its parts gives the packet back |
| Frames.IsValidFrame | src/main/kotlin/com/github/discordPodcasts/podcast/PodcastSessionManager.kt:24-40 | a frame passes the gate exactly when it is longer than 1 + 24 = 25 bytes; a frame of exactly 25 bytes is rejected |
| Frames.ValidFramesMembership | src/main/kotlin/com/github/discordPodcasts/podcast/PodcastSessionManager.kt:40 | a frame is broadcast exactly when it arrived and is longer than 25 bytes (both directions) |
| Frames.ValidFramesAllValid | src/main/kotlin/com/github/discordPodcasts/podcast/PodcastSessionManager.kt:40-42 | when every frame passes the size gate, all of them are broadcast, unchanged and in order |
| Frames.NoValidFrames | src/main/kotlin/com/github/discordPodcasts/podcast/PodcastSessionManager.kt:40 | when every frame is at most 25 bytes, nothing is broadcast and every frame is rejected |
| Frames.FramesPartitioned | src/main/kotlin/com/github/discordPodcasts/podcast/PodcastSessionManager.kt:40-42 | each frame is either broadcast or rejected: the two counts add up to the number of frames |
| Frames.ValidFramesSnoc | src/main/kotlin/com/github/discordPodcasts/podcast/PodcastSessionManager.kt:38-42 | one more frame extends the broadcast frames by that frame if it passes the gate, the rejections by one otherwise |
| Frames.RejectedStep | src/main/kotlin/com/github/discordPodcasts/podcast/PodcastSessionManager.kt:40 | the i-th frame adds one rejection exactly when it is at most 25 bytes |
| Frames.FannedStep | src/main/kotlin/com/github/discordPodcasts/podcast/PodcastSessionManager.kt:38-55 | the i-th frame, when valid, adds k copies of itself after what a receiver listed k times already got |
| Frames.OutboxStep | src/main/kotlin/com/github/discordPodcasts/podcast/PodcastSessionManager.kt:38-42 | one more frame of the collect extends a receiver's outbox from the start of listen to the next prefix of frames |
| Frames.FannedSnoc | src/main/kotlin/com/github/discordPodcasts/podcast/PodcastSessionManager.kt:51-55 | broadcasting one more frame appends k copies of it for a receiver listed k times |
| Frames.FannedOnce | src/main/kotlin/com/github/discordPodcasts/podcast/PodcastSessionManager.kt:38-55 | a receiver listed once gets exactly the broadcast frames, each once, in the order they were processed |
| Frames.FannedNone | src/main/kotlin/com/github/discordPodcasts/podcast/PodcastSessionManager.kt:51-55 | a handle that is not listed (or inactive) gets nothing from any run of broadcasts |
| Frames.SingleValidFrame | src/main/kotlin/com/github/discordPodcasts/podcast/PodcastSessionManager.kt:40-42 | one valid frame is broadcast, not rejected, and reaches a receiver listed once exactly once |
| Frames.RejectedThenValidFrames | src/main/kotlin/com/github/discordPodcasts/podcast/PodcastSessionManager.kt:40 | a rejected frame only skips itself: the valid frame after it is still broadcast, and one rejection is counted |
| Frames.RepeatLength | src/main/kotlin/com/github/discordPodcasts/podcast/PodcastSessionManager.kt:51-55 | k copies of a value have length k and every element is that value |
| Frames.RepeatAdd | src/main/kotlin/com/github/discordPodcasts/podcast/PodcastSessionManager.kt:51-55 | m copies followed by n copies are m + n copies |
| Membership.RemoveFirst | src/main/kotlin/com/github/discordPodcasts/podcast/PodcastSessionManager.kt:32 | `MutableList.remove` as the corrected line 32 would call it: a handle that is not listed leaves the list as it was; the result is never longer and holds only listed handles |
| Membership.OccurrencesCount | src/main/kotlin/com/github/discordPodcasts/podcast/PodcastSessionManager.kt:22 | counting a handle's occurrences in the list agrees with the list's multiset |
| Membership.DistinctOccursOnce | src/main/kotlin/com/github/discordPodcasts/podcast/PodcastSessionManager.kt:22 | in a list without duplicates a handle occurs once if listed and otherwise not at all |
| Membership.RemoveFirstMultiset | src/main/kotlin/com/github/discordPodcasts/podcast/PodcastSessionManager.kt:32 | the corrected removal takes away one occurrence of the handle, if there is one, and nothing else |
| Membership.RemoveFirstLength | src/main/kotlin/com/github/discordPodcasts/podcast/PodcastSessionManager.kt:32 | the corrected removal shrinks the list by one exactly when the handle was in it |
| Membership.RemoveFirstCut | src/main/kotlin/com/github/discordPodcasts/podcast/PodcastSessionManager.kt:32 | the corrected removal cuts out the first occurrence and keeps the other handles in order |
| Membership.RemoveFirstDistinct | src/main/kotlin/com/github/discordPodcasts/podcast/PodcastSessionManager.kt:32 | from a list without duplicates the corrected removal leaves the handle absent |
| Session.ActiveOf | src/main/kotlin/com/github/discordPodcasts/podcast/PodcastSessionManager.kt:52-53 | the filtered copy holds only handles of the list that are active |
| Session.ActiveOfCopies | src/main/kotlin/com/github/discordPodcasts/podcast/PodcastSessionManager.kt:52-54 | the filtered copy holds each active handle as often as the list does and each inactive handle not at all |
| Session.CopiesOfDistinct | src/main/kotlin/com/github/discordPodcasts/podcast/PodcastSessionManager.kt:51-55 | with no duplicate handles an active receiver gets one copy of each broadcast and an inactive one none |
| Session.SendEach | src/main/kotlin/com/github/discordPodcasts/podcast/PodcastSessionManager.kt:54 | the forEach of sends: each handle gets the bytes once per time it is listed, appended to its outbox; no flag changes |
| Session.PodcastSessionManager.constructor | src/main/kotlin/com/github/discordPodcasts/podcast/PodcastSessionManager.kt:19-23 | a manager starts with the given sender slot and receiver list, and no destroy call |
| Session.PodcastSessionManager.AddReceiver | src/main/kotlin/com/github/discordPodcasts/podcast/PodcastSessionManager.kt:31 | `addReceiver` returns true and appends the handle at the end; earlier entries stay, duplicates are kept |
| Session.PodcastSessionManager.RemoveReceiver | src/main/kotlin/com/github/discordPodcasts/podcast/PodcastSessionManager.kt:32 | `removeReceiver` as written has the same effect as `addReceiver`: it returns true and appends the handle, so the list grows by one |
| Session.PodcastSessionManager.RemoveReceiverCorrected | src/main/kotlin/com/github/discordPodcasts/podcast/PodcastSessionManager.kt:32 | a true removal: the result says whether the handle was listed, one occurrence leaves, and a duplicate-free list no longer holds it |
| Session.PodcastSessionManager.DestroyPodcast | src/main/kotlin/com/github/discordPodcasts/podcast/PodcastSessionManager.kt:40 | `podcast.destroy(reason)` is recorded once, after earlier calls; membership and sender untouched |
| Session.PodcastSessionManager.Broadcast | src/main/kotlin/com/github/discordPodcasts/podcast/PodcastSessionManager.kt:51-55 | every listed active receiver gets exactly the bytes, once per listing; inactive ones get nothing; the list and all flags are unchanged |
| Session.PodcastSessionManager.OnFrame | src/main/kotlin/com/github/discordPodcasts/podcast/PodcastSessionManager.kt:40-42 | a frame of at most 25 bytes causes one destroy with INVALID_PAYLOAD and changes no outbox; a longer one is broadcast unmodified and causes no destroy |
| Session.PodcastSessionManager.Listen | src/main/kotlin/com/github/discordPodcasts/podcast/PodcastSessionManager.kt:37-44 | with a bound sender: one INVALID_PAYLOAD destroy per short frame, and each receiver gets the valid frames in arrival order, once per listing if active; with no sender: "Sender is not initialized" and nothing changes |
| Session.PodcastSessionManager.CloseReceivers | src/main/kotlin/com/github/discordPodcasts/podcast/PodcastSessionManager.kt:73-75 | every handle that was listed is closed with the default close reason, outboxes untouched, and the list ends empty |
| Session.PodcastSessionManager.DisconnectAll | src/main/kotlin/com/github/discordPodcasts/podcast/PodcastSessionManager.kt:63-81 | the list ends empty; every previously listed receiver is closed, inactive ones too; each active one got the teardown packet as its last send; a bound sender gets the bare event last and is closed with the reason's close reason |
| Scenarios.FrameReachesActiveReceivers | src/main/kotlin/com/github/discordPodcasts/podcast/PodcastSessionManager.kt:38-55 | one valid frame reaches two active receivers byte for byte, an inactive one and the sender get nothing, and the list keeps its three entries |
| Scenarios.TeardownNotifiesAndCloses | src/main/kotlin/com/github/discordPodcasts/podcast/PodcastSessionManager.kt:63-81 | teardown with three receivers, with the flipped (corrected) packet: the two active get the framed event, all three are closed normally, the sender gets the bare event and its close reason, the list is empty |
| Scenarios.RejectedThenValid | src/main/kotlin/com/github/discordPodcasts/podcast/PodcastSessionManager.kt:40-42 | a 25-byte frame is rejected with one INVALID_PAYLOAD destroy and reaches nobody; the skip is per frame, so a valid frame after it is broadcast to the receivers still listed (with a destroy that only records the call, that is the same receiver) |
| Scenarios.ListenWithoutSender | src/main/kotlin/com/github/discordPodcasts/podcast/PodcastSessionManager.kt:43 | without a sender listen fails with "Sender is not initialized"; nothing is sent and nothing destroyed |
| Scenarios.RemoveReceiverAppends | src/main/kotlin/com/github/discordPodcasts/podcast/PodcastSessionManager.kt:31-32 | add then remove leaves the handle listed twice, so it gets each later frame twice |
| Scenarios.RemoveReceiverCorrectedRemoves | src/main/kotlin/com/github/discordPodcasts/podcast/PodcastSessionManager.kt:31-32 | add then the corrected remove leaves the list empty, so the handle gets no later frame |

## Left out

- Coroutines and locking: `podcast.coroutineScope.launch`, `receiveAsFlow().collect`, the
  `Mutex`/`withLock` blocks and the unlocked `toList()` snapshot. Each call is modelled as one
  sequential atomic step, and the frames of `listen` are given as a finite sequence. An
  interleaved teardown and broadcast is therefore not modelled.
- `createSession` / `PodcastSession.load()` is not part of this model: it belongs to a
  collaborator.
- Real websocket behaviour: suspension, I/O failure and the meaning of `isActive`. A send is an
  outbox append and `isActive` is a flag that the manager never changes.
  - Connections.Conn.Send: appends even to a closed connection. No failure of a send on a
    closed socket is modelled.
  - Connections.Conn.Close: a second close on the same connection overwrites the recorded reason.
    Closing a closed socket is not modelled any further.
- The internals of `encodeToBytes`, `DisconnectedEvent`, `WsError.asCloseReason`,
  `PacketType.EVENT.raw` and `Podcast.destroy` are not part of this model: they are uninterpreted
  parameters, or the destroy call is only recorded. The `WsError` kinds other than INVALID_PAYLOAD
  are one constructor carrying a name.
- `getOrNull` on the deferred sender is the `Option` slot. Blocking until a sender is bound is
  not modelled.
- Session.PodcastSessionManager.Listen: the `IllegalStateException` thrown with no sender is
  returned as the outcome `SenderNotInitialized("Sender is not initialized")`, not thrown.
- Buffers.ByteBuffer.Put: a put past the limit is excluded by a precondition rather than modelled
  as a `BufferOverflowException`. The teardown buffer is allocated at exactly the size written,
  so the overflow cannot occur on the path modelled here.
- Session.PodcastSessionManager.DisconnectAll, Scenarios.TeardownNotifiesAndCloses: broadcast the
  corrected packet (`Frames.EventPacket`). As written, each active receiver's last send before
  closing is the empty packet instead; that packet is modelled separately by
  `Frames.EventPacketAsWritten` (see Findings).
- Session.PodcastSessionManager.DestroyPodcast, Scenarios.RejectedThenValid: `podcast.destroy`
  only records the reason. Its own teardown is not modelled: `Podcast.destroy` calls
  `disconnectAll` (`PodcastSessionManager.kt:58-59`), which would close and clear the receivers.
  A frame after a rejected one therefore reaches a receiver only if destroy leaves the receivers
  listed and open, which the model assumes and the program most likely does not do.

## Findings

| source | as written | input that shows it | evidently intended | confidence | as-written member | corrected member |
|---|---|---|---|---|---|---|
| src/main/kotlin/com/github/discordPodcasts/podcast/PodcastSessionManager.kt:68-71 | the teardown packet is `ByteBuffer.allocate(1 + n).apply { put(type); put(event) }.moveToByteArray()`, with no `flip()`, so the position already sits at the limit and no bytes remain to copy | any event, e.g. an event of one byte: the buffer is filled to capacity and `moveToByteArray` copies 0 bytes, so receivers get an empty packet | flip the buffer before reading it out, so receivers get the EVENT byte followed by the encoded event | medium, not executed; it relies on Ktor's `moveToByteArray` copying the remaining bytes | Frames.EventPacketAsWritten | Frames.EventPacket |
| src/main/kotlin/com/github/discordPodcasts/podcast/PodcastSessionManager.kt:32 | `removeReceiver` calls `receivers.add(client)` | add a receiver, then remove it: it is listed twice and gets every later frame twice | `receivers.remove(client)` | high, not executed | Session.PodcastSessionManager.RemoveReceiver | Session.PodcastSessionManager.RemoveReceiverCorrected |
