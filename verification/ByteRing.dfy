/** The ring of bytes on their way to a socket (`faproxy/src/request.c`). */
module ByteRing {
  import opened Bytes
  import opened Rings

  const CAPACITY: nat := 1024

  class Payload {
    var payload: array<byte>
    var r: nat
    var w: nat
    var size: nat
    ghost var accepted: Text  // every byte ever put
    ghost var consumed: Text  // every byte ever consumed

    ghost predicate Shape()
      reads this
    {
      payload.Length == CAPACITY && r < CAPACITY && size <= CAPACITY && w == Slot(r, size, CAPACITY)
    }

    /** The bytes in the ring, oldest first. */
    ghost function Contents(): Text
      requires Shape()
      reads this, payload
    {
      Items(payload[..], r, size)
    }

    /** The writing place is where the source's modulus puts it. */
    lemma WriteIndex()
      requires Valid()
      ensures w == (r + size) % CAPACITY
    {
      SlotIsMod(r, size, CAPACITY);
    }

    ghost predicate Valid()
      reads this, payload
    {
      Shape() && consumed + Contents() == accepted
    }

    constructor ()
      ensures Valid() && fresh(payload) && size == 0 && accepted == []
    {
      payload := new byte[CAPACITY](_ => 0);
      r, w, size := 0, 0, 0;
      accepted, consumed := [], [];
    }

    /** Accepts exactly what fits; a full ring is an error. */
    method Put(buffer: Text) returns (ret: int)
      requires Valid()
      modifies this`w, this`size, this`accepted, payload
      ensures Valid()
      ensures old(size) == CAPACITY ==> ret == -1 && accepted == old(accepted) && Contents() == old(Contents())
      ensures old(size) < CAPACITY ==>
        && ret == (if |buffer| < CAPACITY - old(size) then |buffer| else CAPACITY - old(size))
        && accepted == old(accepted) + buffer[..ret]
        && Contents() == old(Contents()) + buffer[..ret]
    {
      hide Items, Slot;
      if size == CAPACITY {
        return -1;
      }
      ghost var was := Contents();
      var u := 0;
      while u < |buffer| && size < CAPACITY
        invariant u <= |buffer| && Shape() && size == old(size) + u && accepted == old(accepted)
        invariant Contents() == was + buffer[..u]
      {
        ghost var before := payload[..];
        payload[w] := buffer[u];
        Push(before, r, size, buffer[u]);
        Next(r, size, CAPACITY);
        w := (w + 1) % CAPACITY;
        size := size + 1;
        assert payload[..] == before[Slot(r, size - 1, CAPACITY) := buffer[u]];
        assert buffer[..u + 1] == buffer[..u] + [buffer[u]];
        u := u + 1;
      }
      accepted := accepted + buffer[..u];
      ret := u;
    }

    /** Copies the oldest bytes out and leaves them in the ring. */
    method Copy(buffer: array<byte>, bufferSz: nat) returns (ret: int)
      requires Valid() && bufferSz <= buffer.Length && buffer != payload
      modifies buffer
      ensures Valid() && Contents() == old(Contents())
      ensures size == 0 ==> ret == -1 && buffer[..] == old(buffer[..])
      ensures 0 < size ==>
        && ret == (if bufferSz < size then bufferSz else size)
        && buffer[..ret] == Contents()[..ret] && buffer[ret..] == old(buffer[ret..])
    {
      if size == 0 {
        return -1;
      }
      var min := if bufferSz < size then bufferSz else size;
      var u := 0;
      while u < min
        invariant u <= min && Valid() && Contents() == old(Contents())
        invariant forall i :: 0 <= i < u ==> buffer[i] == Contents()[i]
        invariant forall i :: min <= i < buffer.Length ==> buffer[i] == old(buffer[i])
      {
        SlotIsMod(r, u, CAPACITY);
        var readAt := (r + u) % CAPACITY;
        buffer[u] := payload[readAt];
        u := u + 1;
      }
      return min;
    }

    /** Drops the oldest bytes, all of them at most. */
    method Consume(bufferSz: nat)
      requires Valid()
      modifies this`r, this`size, this`consumed
      ensures Valid() && accepted == old(accepted)
      ensures var max := if bufferSz < old(size) then bufferSz else old(size);
        consumed == old(consumed) + old(Contents())[..max] && Contents() == old(Contents())[max..]
    {
      hide Items, Slot;
      if size == 0 {
        return;
      }
      var max := if bufferSz < size then bufferSz else size;
      ghost var was := Contents();
      SlotIsMod(r, max, CAPACITY);
      Drop(payload[..], r, size, max);
      r := (r + max) % CAPACITY;
      size := size - max;
      SplitAt(consumed, was, max);
      consumed := consumed + was[..max];
    }
  }

  lemma SplitAt(a: Text, b: Text, k: nat)
    requires k <= |b|
    ensures a + b[..k] + b[k..] == a + b
  {
    assert b == b[..k] + b[k..];
  }
}
