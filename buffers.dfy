/**
 * The part of java.nio.ByteBuffer the teardown packet is built with: a fixed-capacity array with a
 * position and a limit. Relative `put` writes at the position and advances it; `flip` makes the
 * written prefix readable; `moveToByteArray` copies out the remaining bytes (position to limit).
 */
module Buffers {
  import opened Connections

  class ByteBuffer {
    const data: array<byte>
    var position: nat
    var limit: nat

    ghost predicate Valid()
      reads this
    {
      position <= limit <= data.Length
    }

    /** `ByteBuffer.allocate(capacity)`: zero-filled, position 0, limit at capacity. */
    constructor Allocate(capacity: nat)
      ensures Valid() && fresh(data)
      ensures data.Length == capacity && position == 0 && limit == capacity
      ensures forall k :: 0 <= k < capacity ==> data[k] == 0
    {
      data := new byte[capacity](_ => 0);
      position := 0;
      limit := capacity;
    }

    /** Relative `put(b)`: writes `b` at the position and advances it by one. */
    method Put(b: byte)
      requires Valid() && position < limit
      modifies this, data
      ensures Valid() && limit == old(limit)
      ensures position == old(position) + 1
      ensures data[..position] == old(data[..position]) + [b]
      ensures forall k :: position <= k < data.Length ==> data[k] == old(data[k])
    {
      data[position] := b;
      position := position + 1;
    }

    /** Bulk `put(src)`: the same as putting the bytes of `src` one after another. */
    method PutAll(src: seq<byte>)
      requires Valid() && position + |src| <= limit
      modifies this, data
      ensures Valid() && limit == old(limit)
      ensures position == old(position) + |src|
      ensures data[..position] == old(data[..position]) + src
      ensures forall k :: position <= k < data.Length ==> data[k] == old(data[k])
    {
      var i := 0;
      while i < |src|
        invariant 0 <= i <= |src|
        invariant Valid() && limit == old(limit)
        invariant position == old(position) + i
        invariant data[..position] == old(data[..position]) + src[..i]
        invariant forall k :: position <= k < data.Length ==> data[k] == old(data[k])
      {
        Put(src[i]);
        assert src[..i + 1] == src[..i] + [src[i]];
        i := i + 1;
      }
      assert src[..i] == src;
    }

    /** `flip()`: the limit becomes the position and the position returns to 0. */
    method Flip()
      requires Valid()
      modifies this
      ensures Valid() && limit == old(position) && position == 0
    {
      limit := position;
      position := 0;
    }

    /** `moveToByteArray()`: a new array holding the remaining bytes; the buffer is then drained. */
    method MoveToByteArray() returns (r: seq<byte>)
      requires Valid()
      modifies this
      ensures Valid() && limit == old(limit) && position == limit
      ensures r == data[old(position)..limit]
    {
      r := data[position..limit];
      position := limit;
    }
  }
}
