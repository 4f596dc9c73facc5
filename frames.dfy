/**
 * Frame validation, the per-receiver delivery logs a run of frames produces, and the framing of the
 * teardown event packet (one packet-type byte in front of the encoded event).
 */
module Frames {
  import opened Options
  import opened Connections
  import opened Buffers

  /** The smallest frame size that is still rejected: one flag byte plus a 24-byte nonce. */
  const MinFrameBytesSize: nat := 1 + 24

  /** A sender frame is broadcast only when it is strictly longer than MinFrameBytesSize. */
  predicate IsValidFrame(frame: seq<byte>): (valid: bool)
    ensures valid <==> |frame| >= 26
    ensures |frame| == 25 ==> !valid
  {
    |frame| > MinFrameBytesSize
  }

  /** The frames of `frames` that pass the size gate, in the order they arrived. */
  function ValidFrames(frames: seq<seq<byte>>): seq<seq<byte>>
  {
    if frames == [] then []
    else
      var last := frames[|frames| - 1];
      ValidFrames(frames[..|frames| - 1]) + (if IsValidFrame(last) then [last] else [])
  }

  /** How many frames of `frames` the size gate rejects. */
  function RejectedCount(frames: seq<seq<byte>>): nat
  {
    if frames == [] then 0
    else
      RejectedCount(frames[..|frames| - 1]) + (if IsValidFrame(frames[|frames| - 1]) then 0 else 1)
  }

  /** `n` copies of `x`. */
  function Repeat<T>(x: T, n: nat): seq<T>
  {
    if n == 0 then [] else Repeat(x, n - 1) + [x]
  }

  /** What a receiver listed `k` times gets from broadcasting `frames` one after another. */
  function Fanned(frames: seq<seq<byte>>, k: nat): seq<seq<byte>>
  {
    if frames == [] then []
    else Fanned(frames[..|frames| - 1], k) + Repeat(frames[|frames| - 1], k)
  }

  /** The teardown packet sent to receivers: the event packet type, then the encoded event. */
  function EventFrame(packetType: byte, eventBytes: seq<byte>): seq<byte>
  {
    [packetType] + eventBytes
  }

  /** Splits a packet into its leading packet-type byte and its payload; None for an empty packet. */
  function Unframe(packet: seq<byte>): Option<(byte, seq<byte>)>
  {
    if packet == [] then None else Some((packet[0], packet[1..]))
  }

  // ---------------------------------------------------------------------------------------------
  // The size gate

  lemma {:induction false} ValidFramesMembership(frames: seq<seq<byte>>, f: seq<byte>)
    ensures f in ValidFrames(frames) <==> f in frames && IsValidFrame(f)
  {
    if frames != [] {
      var init := frames[..|frames| - 1];
      ValidFramesMembership(init, f);
      assert frames == init + [frames[|frames| - 1]];
    }
  }

  lemma {:induction false} ValidFramesAllValid(frames: seq<seq<byte>>)
    requires forall i :: 0 <= i < |frames| ==> IsValidFrame(frames[i])
    ensures ValidFrames(frames) == frames
  {
    if frames != [] {
      var init := frames[..|frames| - 1];
      ValidFramesAllValid(init);
      assert frames == init + [frames[|frames| - 1]];
    }
  }

  lemma {:induction false} NoValidFrames(frames: seq<seq<byte>>)
    requires forall i :: 0 <= i < |frames| ==> !IsValidFrame(frames[i])
    ensures ValidFrames(frames) == [] && RejectedCount(frames) == |frames|
  {
    if frames != [] {
      NoValidFrames(frames[..|frames| - 1]);
    }
  }

  /** Every frame is either broadcast or rejected, never both and never neither. */
  lemma {:induction false} FramesPartitioned(frames: seq<seq<byte>>)
    ensures |ValidFrames(frames)| + RejectedCount(frames) == |frames|
  {
    if frames != [] {
      FramesPartitioned(frames[..|frames| - 1]);
    }
  }

  /** Processing one more frame extends the valid run by that frame exactly when it is valid. */
  lemma ValidFramesSnoc(frames: seq<seq<byte>>, f: seq<byte>)
    ensures ValidFrames(frames + [f]) == ValidFrames(frames) + (if IsValidFrame(f) then [f] else [])
    ensures RejectedCount(frames + [f]) == RejectedCount(frames) + (if IsValidFrame(f) then 0 else 1)
  {
    assert (frames + [f])[..|frames|] == frames;
  }

  /** One more frame processed: it is rejected exactly when it fails the size gate. */
  lemma RejectedStep(frames: seq<seq<byte>>, i: nat)
    requires i < |frames|
    ensures RejectedCount(frames[..i + 1]) == RejectedCount(frames[..i]) + (if IsValidFrame(frames[i]) then 0 else 1)
  {
    assert frames[..i + 1][..i] == frames[..i];
  }

  // ---------------------------------------------------------------------------------------------
  // Delivery logs

  lemma {:induction false} RepeatLength<T>(x: T, n: nat)
    ensures |Repeat(x, n)| == n
    ensures forall i :: 0 <= i < n ==> Repeat(x, n)[i] == x
  {
    if n > 0 {
      RepeatLength(x, n - 1);
    }
  }

  lemma {:induction false} RepeatAdd<T>(x: T, m: nat, n: nat)
    ensures Repeat(x, m + n) == Repeat(x, m) + Repeat(x, n)
  {
    if n > 0 {
      RepeatAdd(x, m, n - 1);
    }
  }

  lemma FannedSnoc(frames: seq<seq<byte>>, f: seq<byte>, k: nat)
    ensures Fanned(frames + [f], k) == Fanned(frames, k) + Repeat(f, k)
  {
    assert (frames + [f])[..|frames|] == frames;
  }

  /** One more frame processed: a receiver listed `k` times gets `k` copies of it when it is valid. */
  lemma FannedStep(frames: seq<seq<byte>>, i: nat, k: nat)
    requires i < |frames|
    ensures Fanned(ValidFrames(frames[..i + 1]), k)
         == Fanned(ValidFrames(frames[..i]), k) + (if IsValidFrame(frames[i]) then Repeat(frames[i], k) else [])
  {
    assert frames[..i + 1] == frames[..i] + [frames[i]];
    ValidFramesSnoc(frames[..i], frames[i]);
    if IsValidFrame(frames[i]) {
      FannedSnoc(ValidFrames(frames[..i]), frames[i], k);
    } else {
      assert ValidFrames(frames[..i + 1]) == ValidFrames(frames[..i]);
    }
  }

  /** A log that grew by `added` after `delivered` is the log that grew by their concatenation. */
  lemma ConcatStep<T>(entry: seq<T>, delivered: seq<T>, added: seq<T>, next: seq<T>)
    requires next == delivered + added
    ensures (entry + delivered) + added == entry + next
  {
  }

  /** One more frame of a listen loop, seen from one receiver's outbox: `entry` at the start, `mid` before the frame, `after` it. */
  lemma OutboxStep(entry: seq<seq<byte>>, mid: seq<seq<byte>>, after: seq<seq<byte>>, frames: seq<seq<byte>>, i: nat, k: nat)
    requires i < |frames|
    requires mid == entry + Fanned(ValidFrames(frames[..i]), k)
    requires after == mid + (if IsValidFrame(frames[i]) then Repeat(frames[i], k) else [])
    ensures after == entry + Fanned(ValidFrames(frames[..i + 1]), k)
  {
    FannedStep(frames, i, k);
    ConcatStep(entry, Fanned(ValidFrames(frames[..i]), k),
               if IsValidFrame(frames[i]) then Repeat(frames[i], k) else [],
               Fanned(ValidFrames(frames[..i + 1]), k));
  }

  /** A receiver listed once gets exactly the frames, each once, in the order they were broadcast. */
  lemma {:induction false} FannedOnce(frames: seq<seq<byte>>)
    ensures Fanned(frames, 1) == frames
  {
    if frames != [] {
      var init := frames[..|frames| - 1];
      FannedOnce(init);
      assert Repeat(frames[|frames| - 1], 1) == [frames[|frames| - 1]];
      assert frames == init + [frames[|frames| - 1]];
    }
  }

  /** One valid frame: a receiver listed once gets exactly it, an unlisted one nothing. */
  lemma SingleValidFrame(frame: seq<byte>)
    requires IsValidFrame(frame)
    ensures ValidFrames([frame]) == [frame] && RejectedCount([frame]) == 0
    ensures Fanned(ValidFrames([frame]), 1) == [frame] && Fanned(ValidFrames([frame]), 0) == []
  {
    assert [frame][..0] == [];
    FannedOnce([frame]);
    FannedNone([frame]);
  }

  /** A rejected frame followed by a valid one: only the valid one is broadcast. */
  lemma RejectedThenValidFrames(short: seq<byte>, frame: seq<byte>)
    requires !IsValidFrame(short) && IsValidFrame(frame)
    ensures ValidFrames([short, frame]) == [frame] && RejectedCount([short, frame]) == 1
    ensures Fanned(ValidFrames([short, frame]), 1) == [frame]
  {
    ValidFramesSnoc([], short);
    ValidFramesSnoc([short], frame);
    assert [short, frame] == [short] + [frame];
    FannedOnce([frame]);
  }

  /** A receiver that is not listed gets nothing. */
  lemma {:induction false} FannedNone(frames: seq<seq<byte>>)
    ensures Fanned(frames, 0) == []
  {
    if frames != [] {
      FannedNone(frames[..|frames| - 1]);
    }
  }

  // ---------------------------------------------------------------------------------------------
  // The teardown packet

  /** The packet is one byte longer than the event, starts with the type and carries the event. */
  lemma EventFrameLayout(packetType: byte, eventBytes: seq<byte>)
    ensures |EventFrame(packetType, eventBytes)| == 1 + |eventBytes|
    ensures EventFrame(packetType, eventBytes)[0] == packetType
    ensures EventFrame(packetType, eventBytes)[1..] == eventBytes
  {
  }

  /** Framing is undone by Unframe ... */
  lemma UnframeEventFrame(packetType: byte, eventBytes: seq<byte>)
    ensures Unframe(EventFrame(packetType, eventBytes)) == Some((packetType, eventBytes))
  {
    assert EventFrame(packetType, eventBytes)[1..] == eventBytes;
  }

  /** ... and every non-empty packet is the framing of what Unframe splits it into. */
  lemma EventFrameUnframe(packet: seq<byte>)
    ensures Unframe(packet).Some? <==> packet != []
    ensures Unframe(packet).Some? ==> EventFrame(Unframe(packet).value.0, Unframe(packet).value.1) == packet
  {
  }

  /**
   * The packet as PodcastSessionManager.kt builds it: allocate `1 + |eventBytes|` bytes, put the
   * packet type, put the event, then `moveToByteArray()` with no `flip()` in between. The position
   * is then at the limit, no bytes remain, and the result is empty instead of the framed event.
   */
  method EventPacketAsWritten(packetType: byte, eventBytes: seq<byte>) returns (packet: seq<byte>)
    ensures packet == []
    ensures packet != EventFrame(packetType, eventBytes)
  {
    var buffer := new ByteBuffer.Allocate(1 + |eventBytes|);
    buffer.Put(packetType);
    buffer.PutAll(eventBytes);
    packet := buffer.MoveToByteArray();
  }

  /** The packet with the buffer flipped before it is read out: the framed event. */
  method EventPacket(packetType: byte, eventBytes: seq<byte>) returns (packet: seq<byte>)
    ensures packet == EventFrame(packetType, eventBytes)
    ensures |packet| == 1 + |eventBytes| && packet[0] == packetType && packet[1..] == eventBytes
  {
    var buffer := new ByteBuffer.Allocate(1 + |eventBytes|);
    buffer.Put(packetType);
    buffer.PutAll(eventBytes);
    buffer.Flip();
    packet := buffer.MoveToByteArray();
  }
}
