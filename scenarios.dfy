/** Whole-session runs of the manager, stated from the connections' point of view. */
module Scenarios {
  import opened Options
  import opened Connections
  import opened Frames
  import opened Membership
  import opened Session

  /** Three distinct handles, the first two active and the third not: one copy each for the active ones. */
  lemma CopiesOfThree(r1: Conn, r2: Conn, r3: Conn)
    requires r1 != r2 && r1 != r3 && r2 != r3
    requires r1.active && r2.active && !r3.active
    ensures Copies([r1, r2, r3], r1) == 1 && Copies([r1, r2, r3], r2) == 1 && Copies([r1, r2, r3], r3) == 0
  {
    var rs := [r1, r2, r3];
    assert Distinct(rs);
    CopiesOfDistinct(rs, r1);
    CopiesOfDistinct(rs, r2);
    CopiesOfDistinct(rs, r3);
  }

  /**
   * A bound sender and three receivers, the third inactive. One valid frame reaches the two
   * active receivers byte for byte, the inactive one gets nothing, and the list keeps its size.
   */
  method FrameReachesActiveReceivers(collaborators: Collaborators, frame: seq<byte>)
    returns (r1: Conn, r2: Conn, r3: Conn, s: Conn, sizeAfterFrame: nat)
    requires IsValidFrame(frame)
    ensures sizeAfterFrame == 3
    ensures r1.outbox == [frame] && r2.outbox == [frame] && r3.outbox == [] && s.outbox == []
  {
    s := new Conn(true);
    r1 := new Conn(true);
    r2 := new Conn(true);
    r3 := new Conn(false);
    var manager := new PodcastSessionManager(collaborators, Some(s), [r1, r2, r3]);
    CopiesOfThree(r1, r2, r3);
    SingleValidFrame(frame);
    var outcome := manager.Listen([frame]);
    assert r1 in manager.receivers && r1.outbox == Fanned(ValidFrames([frame]), 1);
    assert r2 in manager.receivers && r2.outbox == Fanned(ValidFrames([frame]), 1);
    assert r3 in manager.receivers && r3.outbox == Fanned(ValidFrames([frame]), 0);
    sizeAfterFrame := |manager.receivers|;
  }

  /**
   * Teardown with a bound sender and three receivers, the third inactive: each active receiver
   * gets the framed event, all three are closed, and the sender gets the bare event and is closed
   * with the reason's close reason. The list ends empty.
   */
  method TeardownNotifiesAndCloses(collaborators: Collaborators, reason: WsError)
    returns (r1: Conn, r2: Conn, r3: Conn, s: Conn, sizeAfterTeardown: nat)
    ensures sizeAfterTeardown == 0
    ensures r1.outbox == [EventFrame(collaborators.eventPacketType, collaborators.encodeDisconnected(reason))]
    ensures r2.outbox == r1.outbox && r3.outbox == []
    ensures r1.closed && r2.closed && r3.closed
    ensures r1.closeReason == Some(NormalClose) && r2.closeReason == Some(NormalClose) && r3.closeReason == Some(NormalClose)
    ensures s.outbox == [collaborators.encodeDisconnected(reason)]
    ensures s.closed && s.closeReason == Some(collaborators.asCloseReason(reason))
  {
    s := new Conn(true);
    r1 := new Conn(true);
    r2 := new Conn(true);
    r3 := new Conn(false);
    var manager := new PodcastSessionManager(collaborators, Some(s), [r1, r2, r3]);
    ghost var packet := manager.TeardownPacket(reason);
    assert Repeat(packet, 1) == [packet] && Repeat(packet, 0) == [];
    CopiesOfThree(r1, r2, r3);
    assert Copies([r1, r2, r3], s) == 0;
    manager.DisconnectAll(reason);
    assert !manager.IsSender(r1) && !manager.IsSender(r2) && !manager.IsSender(r3);
    sizeAfterTeardown := |manager.receivers|;
  }

  /**
   * A frame of exactly 25 bytes is rejected with INVALID_PAYLOAD and reaches nobody; the valid
   * frame after it is still broadcast.
   */
  method RejectedThenValid(collaborators: Collaborators, short: seq<byte>, frame: seq<byte>)
    returns (r: Conn, destroyCalls: seq<WsError>)
    requires |short| == MinFrameBytesSize && IsValidFrame(frame)
    ensures r.outbox == [frame]
    ensures destroyCalls == [InvalidPayload]
  {
    var s := new Conn(true);
    r := new Conn(true);
    var manager := new PodcastSessionManager(collaborators, Some(s), [r]);
    RejectedThenValidFrames(short, frame);
    assert Copies([r], r) == 1;
    var outcome := manager.Listen([short, frame]);
    assert r in manager.receivers;
    destroyCalls := manager.destroyCalls;
  }

  /** Without a bound sender `listen` fails and nothing is sent or destroyed. */
  method ListenWithoutSender(collaborators: Collaborators, frames: seq<seq<byte>>)
    returns (outcome: ListenOutcome, r: Conn, destroyCalls: seq<WsError>)
    ensures outcome == SenderNotInitialized("Sender is not initialized")
    ensures r.outbox == [] && destroyCalls == []
  {
    r := new Conn(true);
    var manager := new PodcastSessionManager(collaborators, None, [r]);
    outcome := manager.Listen(frames);
    destroyCalls := manager.destroyCalls;
  }

  /**
   * `removeReceiver` as written: the "removed" receiver is listed twice afterwards and so gets
   * every later frame twice.
   */
  method RemoveReceiverAppends(collaborators: Collaborators, frame: seq<byte>)
    returns (sizeBefore: nat, sizeAfter: nat, stillListed: bool, r: Conn)
    requires IsValidFrame(frame)
    ensures sizeBefore == 1 && sizeAfter == 2 && stillListed
    ensures r.outbox == [frame, frame]
  {
    var s := new Conn(true);
    r := new Conn(true);
    var manager := new PodcastSessionManager(collaborators, Some(s), []);
    var _ := manager.AddReceiver(r);
    sizeBefore := |manager.receivers|;
    var _ := manager.RemoveReceiver(r);
    sizeAfter := |manager.receivers|;
    stillListed := r in manager.receivers;
    assert multiset(manager.receivers)[r] == 2;
    var outcome := manager.Listen([frame]);
    assert ValidFrames([frame]) == [frame] by {
      assert [frame][..0] == [];
    }
    assert Fanned([frame], 2) == [frame, frame] by {
      assert [frame][..0] == [];
    }
  }

  /** The corrected removal takes the receiver out, and it gets no later frame. */
  method RemoveReceiverCorrectedRemoves(collaborators: Collaborators, frame: seq<byte>)
    returns (removed: bool, sizeAfter: nat, r: Conn)
    requires IsValidFrame(frame)
    ensures removed && sizeAfter == 0 && r.outbox == []
  {
    var s := new Conn(true);
    r := new Conn(true);
    var manager := new PodcastSessionManager(collaborators, Some(s), []);
    var _ := manager.AddReceiver(r);
    removed := manager.RemoveReceiverCorrected(r);
    sizeAfter := |manager.receivers|;
    var outcome := manager.Listen([frame]);
  }
}
