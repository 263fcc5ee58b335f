/**
 * The fixed-capacity cyclic byte store underneath the recorder.
 *
 * A read cursor marks the oldest live byte and a write cursor the next free
 * byte, both taken modulo the capacity. The buffer is empty exactly when the
 * two cursors are equal, so at most `size - 1` bytes can be live at once: a
 * completely full ring would be indistinguishable from an empty one.
 * Write and Pad advance the write cursor, Read and Skip the read cursor;
 * none of them checks for overflow, which is the caller's obligation.
 */
module Ring {
  import opened Framing

  class CircularBuffer {
    /** Capacity in bytes. */
    const size: nat
    const buf: array<byte>
    /** Oldest live byte. */
    var rptr: nat
    /** Next free byte. */
    var wptr: nat

    /** The live bytes, oldest first. */
    ghost var Contents: seq<byte>

    ghost predicate Valid()
      reads this, buf
    {
      && 0 < size
      && buf.Length == size
      && rptr < size
      && wptr < size
      && |Contents| == Used()
      && forall k {:trigger buf[k]} :: 0 <= k < size && Age(k) < |Contents| ==> buf[k] == Contents[Age(k)]
    }

    /** Number of live bytes: the cyclic distance from the read to the write cursor. */
    function Used(): nat
      reads this
      requires rptr < size
    {
      if rptr <= wptr then wptr - rptr else size - rptr + wptr
    }

    /** Position in the live bytes that slot k of buf holds, when it is live. */
    function Age(k: nat): nat
      reads this
      requires rptr < size && k < size
    {
      if rptr <= k then k - rptr else size - rptr + k
    }

    /** Free space, see FreeSpace. */
    function Available(): (n: nat)
      reads this, buf
      requires Valid()
      ensures n == FreeSpace(size, |Contents|)
    {
      size - 1 - Used()
    }

    function Empty(): (b: bool)
      reads this, buf
      requires Valid()
      ensures b <==> Contents == []
    {
      rptr == wptr
    }

    constructor (capacity: nat)
      requires capacity > 0
      ensures Valid() && fresh(buf)
      ensures size == capacity && Contents == []
      ensures rptr == 0 && wptr == 0
    {
      size := capacity;
      buf := new byte[capacity];
      rptr, wptr := 0, 0;
      Contents := [];
    }

    /**
     * Copies the bytes in at the write cursor, in two pieces when they reach
     * the end of buf, and advances the write cursor past them.
     */
    method Write(data: seq<byte>)
      requires Valid()
      requires |data| <= Available()
      modifies this, buf
      ensures Valid()
      ensures Contents == old(Contents) + data
      ensures rptr == old(rptr)
      ensures wptr == old(wptr) + |data| || wptr == old(wptr) + |data| - size
    {
      var n := |data|;
      if wptr + n >= size {
        var first := size - wptr;
        forall i | 0 <= i < first {
          buf[wptr + i] := data[i];
        }
        forall i | 0 <= i < n - first {
          buf[i] := data[first + i];
        }
        wptr := n - first;
      } else {
        forall i | 0 <= i < n {
          buf[wptr + i] := data[i];
        }
        wptr := wptr + n;
      }
      Contents := Contents + data;
    }

    /**
     * Advances the write cursor over n bytes whose content is left as it was;
     * they become live with whatever they held (`skipped`).
     */
    method Pad(n: nat) returns (ghost skipped: seq<byte>)
      requires Valid()
      requires n <= Available()
      modifies this
      ensures Valid()
      ensures |skipped| == n && Contents == old(Contents) + skipped
      ensures rptr == old(rptr)
      ensures wptr == old(wptr) + n || wptr == old(wptr) + n - size
    {
      skipped := if wptr + n <= size then buf[wptr..wptr + n]
                 else buf[wptr..] + buf[..wptr + n - size];
      WrapOnce(wptr + n, size);
      wptr := (wptr + n) % size;
      Contents := Contents + skipped;
    }

    /**
     * Hands over the n oldest live bytes, in two pieces when they reach the end
     * of buf (the returned sequence is their concatenation), and advances the
     * read cursor past them.
     */
    method Read(n: nat) returns (data: seq<byte>)
      requires Valid()
      requires n <= |Contents|
      modifies this
      ensures Valid()
      ensures data == old(Contents)[..n]
      ensures Contents == old(Contents)[n..]
      ensures wptr == old(wptr)
      ensures rptr == old(rptr) + n || rptr == old(rptr) + n - size
    {
      ghost var live := Contents;
      var rest := n;
      data := [];
      if rptr + rest >= size {
        data := buf[rptr..];
        rest := rest - (size - rptr);
        rptr := 0;
      }
      data := data + buf[rptr..rptr + rest];
      rptr := rptr + rest;
      Contents := Contents[n..];
      assert forall i :: 0 <= i < n ==> data[i] == live[i];
    }

    /** Advances the read cursor over the n oldest live bytes without handing them over. */
    method Skip(n: nat)
      requires Valid()
      requires n <= |Contents|
      modifies this
      ensures Valid()
      ensures Contents == old(Contents)[n..]
      ensures wptr == old(wptr)
      ensures rptr == old(rptr) + n || rptr == old(rptr) + n - size
    {
      WrapOnce(rptr + n, size);
      rptr := (rptr + n) % size;
      Contents := Contents[n..];
    }
  }

  /** A cursor advanced by less than a full turn wraps around at most once. */
  lemma WrapOnce(x: nat, size: nat)
    requires 0 < size && x < 2 * size
    ensures x % size == if x < size then x else x - size
  {
    if x >= size {
      assert x == size * 1 + (x - size);
    }
  }
}
