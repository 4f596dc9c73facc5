/**
 * The per-broadcast relay: one sender, a list of receiver connections, the size gate on sender
 * frames, the fan-out of each accepted frame and the group teardown.
 */
module Session {
  import opened Options
  import opened Connections
  import opened Frames
  import opened Membership

  /** Close-reason kinds; INVALID_PAYLOAD is the one this component raises itself. */
  datatype WsError = InvalidPayload | OtherError(name: string)

  /**
   * The collaborators the manager calls but does not define: the encoding of a disconnected event
   * for a reason, the close reason a reason maps to, and the raw byte of the EVENT packet type.
   */
  datatype Collaborators = Collaborators(
    encodeDisconnected: WsError -> seq<byte>,
    asCloseReason: WsError -> CloseReason,
    eventPacketType: byte)

  /** How `listen` ends: the frames were collected, or it failed because no sender is bound. */
  datatype ListenOutcome = Collected | SenderNotInitialized(message: string)

  /** The active handles of `rs`, in list order (what the fan-out sends to). */
  function ActiveOf(rs: seq<Conn>): (ts: seq<Conn>)
    reads rs
    ensures forall c :: c in ts ==> c in rs && c.active
  {
    if rs == [] then [] else (if rs[0].active then [rs[0]] else []) + ActiveOf(rs[1..])
  }

  /** How many copies of one broadcast `c` receives when the receiver list is `rs`. */
  function Copies(rs: seq<Conn>, c: Conn): nat
    reads c
  {
    if c.active then multiset(rs)[c] else 0
  }

  /** An active handle gets one copy per occurrence in the list; an inactive one gets none. */
  lemma {:induction false} ActiveOfCopies(rs: seq<Conn>, c: Conn)
    ensures multiset(ActiveOf(rs))[c] == Copies(rs, c)
  {
    if rs != [] {
      assert rs == [rs[0]] + rs[1..];
      ActiveOfCopies(rs[1..], c);
    }
  }

  /** With no duplicate handles, an active receiver gets exactly one copy of each broadcast. */
  lemma CopiesOfDistinct(rs: seq<Conn>, c: Conn)
    requires Distinct(rs) && c in rs
    ensures Copies(rs, c) == if c.active then 1 else 0
  {
    DistinctOccursOnce(rs, c);
  }

  /** Sends `bytes` to each handle of `targets` in order; a handle listed twice gets two copies. */
  method SendEach(targets: seq<Conn>, bytes: seq<byte>)
    modifies targets
    ensures forall c :: c in targets ==>
              c.outbox == old(c.outbox) + Repeat(bytes, multiset(targets)[c]) &&
              c.active == old(c.active) && c.closed == old(c.closed) && c.closeReason == old(c.closeReason)
  {
    var i := 0;
    while i < |targets|
      invariant 0 <= i <= |targets|
      invariant forall c :: c in targets ==>
                  c.outbox == old(c.outbox) + Repeat(bytes, Occurrences(targets[..i], c)) &&
                  c.active == old(c.active) && c.closed == old(c.closed) && c.closeReason == old(c.closeReason)
    {
      var target := targets[i];
      assert targets[..i + 1][..i] == targets[..i];
      ghost var before, repeated := old(target.outbox), Repeat(bytes, Occurrences(targets[..i], target));
      target.Send(bytes);
      assert target.outbox == before + (repeated + [bytes]);
      i := i + 1;
    }
    assert targets[..i] == targets;
    forall c | c in targets ensures Occurrences(targets, c) == multiset(targets)[c] {
      OccurrencesCount(targets, c);
    }
  }

  class PodcastSessionManager {
    const collaborators: Collaborators
    /** The write-once sender slot; None until a sender connection is bound. */
    var sender: Option<Conn>
    var receivers: seq<Conn>
    /** The reasons `podcast.destroy` was called with, in order. */
    var destroyCalls: seq<WsError>

    constructor (collaborators: Collaborators, sender: Option<Conn>, receivers: seq<Conn>)
      ensures this.collaborators == collaborators && this.sender == sender
      ensures this.receivers == receivers && destroyCalls == []
    {
      this.collaborators := collaborators;
      this.sender := sender;
      this.receivers := receivers;
      destroyCalls := [];
    }

    predicate IsSender(c: Conn)
      reads this
    {
      sender == Some(c)
    }

    function SenderObjects(): set<Conn>
      reads this
    {
      if sender.Some? then {sender.value} else {}
    }

    /** The encoded disconnected event for `reason`. */
    function EventBytes(reason: WsError): seq<byte>
    {
      collaborators.encodeDisconnected(reason)
    }

    /** The packet receivers get at teardown: EVENT packet type, then the encoded event. */
    function TeardownPacket(reason: WsError): seq<byte>
    {
      EventFrame(collaborators.eventPacketType, EventBytes(reason))
    }

    /** `addReceiver`: appends the handle; duplicates are kept. */
    method AddReceiver(client: Conn) returns (added: bool)
      modifies this
      ensures added
      ensures receivers == old(receivers) + [client]
      ensures sender == old(sender) && destroyCalls == old(destroyCalls)
    {
      receivers := receivers + [client];
      added := true;
    }

    /** `removeReceiver` as written: it appends the handle, exactly as AddReceiver does. */
    method RemoveReceiver(client: Conn) returns (added: bool)
      modifies this
      ensures added
      ensures receivers == old(receivers) + [client]
      ensures client in receivers && |receivers| == |old(receivers)| + 1
      ensures sender == old(sender) && destroyCalls == old(destroyCalls)
    {
      receivers := receivers + [client];
      added := true;
    }

    /** `removeReceiver` with the list's `remove`: drops the first occurrence of the handle. */
    method RemoveReceiverCorrected(client: Conn) returns (removed: bool)
      modifies this
      ensures removed == (client in old(receivers))
      ensures receivers == RemoveFirst(old(receivers), client)
      ensures multiset(receivers) == multiset(old(receivers)) - multiset{client}
      ensures Distinct(old(receivers)) ==> client !in receivers
      ensures sender == old(sender) && destroyCalls == old(destroyCalls)
    {
      removed := client in receivers;
      RemoveFirstMultiset(receivers, client);
      if Distinct(receivers) {
        RemoveFirstDistinct(receivers, client);
      }
      receivers := RemoveFirst(receivers, client);
    }

    /** `podcast.destroy(reason)`: the call is recorded; what it does is not part of this model. */
    method DestroyPodcast(reason: WsError)
      modifies this
      ensures destroyCalls == old(destroyCalls) + [reason]
      ensures receivers == old(receivers) && sender == old(sender)
    {
      destroyCalls := destroyCalls + [reason];
    }

    /**
     * `broadcast(bytes)`: sends the exact bytes to every active handle of a snapshot of the list,
     * in list order; inactive handles get nothing and the list itself is left alone.
     */
    method Broadcast(bytes: seq<byte>)
      modifies receivers
      ensures forall c :: c in receivers ==>
                c.outbox == old(c.outbox) + Repeat(bytes, old(Copies(receivers, c))) &&
                c.active == old(c.active) && c.closed == old(c.closed) && c.closeReason == old(c.closeReason)
    {
      var snapshot := receivers;
      var targets := ActiveOf(snapshot);
      forall c | c in snapshot
        ensures multiset(targets)[c] == old(Copies(receivers, c))
      {
        ActiveOfCopies(snapshot, c);
      }
      assert forall j :: 0 <= j < |targets| ==> targets[j] in old(receivers);
      SendEach(targets, bytes);
    }

    /** One element of `listen`'s collect: reject a short frame, otherwise broadcast it unchanged. */
    method OnFrame(frame: seq<byte>)
      modifies this, receivers
      ensures receivers == old(receivers) && sender == old(sender)
      ensures destroyCalls == old(destroyCalls) + (if IsValidFrame(frame) then [] else [InvalidPayload])
      ensures forall c :: c in receivers ==>
                c.outbox == old(c.outbox) + (if IsValidFrame(frame) then Repeat(frame, old(Copies(receivers, c))) else []) &&
                c.active == old(c.active) && c.closed == old(c.closed) && c.closeReason == old(c.closeReason)
    {
      if |frame| <= MinFrameBytesSize {
        DestroyPodcast(InvalidPayload);
        return;
      }
      Broadcast(frame);
    }

    /**
     * `listen`: with a bound sender, processes the sender's frames in order; a rejected frame is
     * skipped and later frames are still processed. Without a sender it fails and changes nothing.
     */
    method Listen(frames: seq<seq<byte>>) returns (outcome: ListenOutcome)
      modifies this, receivers
      ensures outcome == if old(sender).Some? then Collected
                         else SenderNotInitialized("Sender is not initialized")
      ensures receivers == old(receivers) && sender == old(sender)
      ensures destroyCalls == old(destroyCalls) +
                (if sender.Some? then Repeat(InvalidPayload, RejectedCount(frames)) else [])
      ensures forall c :: c in receivers ==>
                c.outbox == old(c.outbox) +
                  (if sender.Some? then Fanned(ValidFrames(frames), old(Copies(receivers, c))) else []) &&
                c.active == old(c.active) && c.closed == old(c.closed) && c.closeReason == old(c.closeReason)
    {
      if sender.None? {
        return SenderNotInitialized("Sender is not initialized");
      }
      var i := 0;
      while i < |frames|
        invariant 0 <= i <= |frames|
        invariant receivers == old(receivers) && sender == old(sender)
        invariant destroyCalls == old(destroyCalls) + Repeat(InvalidPayload, RejectedCount(frames[..i]))
        invariant forall c :: c in receivers ==>
                    c.outbox == old(c.outbox) + Fanned(ValidFrames(frames[..i]), Copies(receivers, c)) &&
                    c.active == old(c.active) && c.closed == old(c.closed) && c.closeReason == old(c.closeReason)
      {
        label Before:
        OnFrame(frames[i]);
        RejectedStep(frames, i);
        RepeatAdd(InvalidPayload, RejectedCount(frames[..i]), if IsValidFrame(frames[i]) then 0 else 1);
        forall c | c in receivers
          ensures c.outbox == old(c.outbox) + Fanned(ValidFrames(frames[..i + 1]), Copies(receivers, c))
        {
          var k := Copies(receivers, c);
          assert old@Before(Copies(receivers, c)) == k;
          OutboxStep(old(c.outbox), old@Before(c.outbox), c.outbox, frames, i, k);
        }
        i := i + 1;
      }
      assert frames[..i] == frames;
      outcome := Collected;
    }

    /** The locked block of `disconnectAll`: closes every receiver with `close()`, then clears the list. */
    method CloseReceivers()
      modifies this, receivers
      ensures receivers == [] && sender == old(sender) && destroyCalls == old(destroyCalls)
      ensures forall c :: c in old(receivers) ==>
                c.closed && c.closeReason == Some(NormalClose) &&
                c.outbox == old(c.outbox) && c.active == old(c.active)
    {
      var i := 0;
      while i < |receivers|
        modifies receivers
        invariant 0 <= i <= |receivers|
        invariant receivers == old(receivers) && sender == old(sender) && destroyCalls == old(destroyCalls)
        invariant forall c :: c in receivers ==>
                    c.outbox == old(c.outbox) && c.active == old(c.active) &&
                    (c in receivers[..i] ==> c.closed && c.closeReason == Some(NormalClose))
      {
        receivers[i].Close(NormalClose);
        i := i + 1;
      }
      receivers := [];
    }

    /**
     * `disconnectAll(reason)`: broadcasts the teardown packet, closes every receiver and clears
     * the list, then sends the unframed event to the sender, when one is bound, and closes it with
     * the reason's close reason.
     */
    method DisconnectAll(reason: WsError)
      modifies this, receivers, SenderObjects()
      ensures receivers == [] && sender == old(sender) && destroyCalls == old(destroyCalls)
      ensures forall c :: c in old(receivers) ==>
                c.closed && c.active == old(c.active) &&
                (!IsSender(c) ==>
                   c.closeReason == Some(NormalClose) &&
                   c.outbox == old(c.outbox) + Repeat(TeardownPacket(reason), old(Copies(receivers, c))) &&
                   (old(c.active) ==> |c.outbox| > 0 && c.outbox[|c.outbox| - 1] == TeardownPacket(reason)))
      ensures sender.Some? ==>
                var s := sender.value;
                s.outbox == old(s.outbox) + Repeat(TeardownPacket(reason), old(Copies(receivers, s))) + [EventBytes(reason)] &&
                s.closed && s.closeReason == Some(collaborators.asCloseReason(reason)) && s.active == old(s.active)
    {
      var eventBytes := collaborators.encodeDisconnected(reason);
      var packet := EventPacket(collaborators.eventPacketType, eventBytes);
      Broadcast(packet);
      forall c | c in receivers && c.active
        ensures Repeat(packet, old(Copies(receivers, c))) != []
        ensures Repeat(packet, old(Copies(receivers, c)))[|Repeat(packet, old(Copies(receivers, c)))| - 1] == packet
      {
        RepeatLength(packet, old(Copies(receivers, c)));
      }
      CloseReceivers();
      if sender.Some? {
        sender.value.Send(eventBytes);
        sender.value.Close(collaborators.asCloseReason(reason));
      }
    }
  }
}
