/**
 The object view: `BoundedBuffer` with its two fields, taking the caller's
 raw `char*` buffers as arrays. Each method refines the matching transition
 of `BoundedQueue`; the lock and condition variables are not modelled, and
 the wait predicates and the size assertion are preconditions.
 */
module BufferObject {
  import opened CTypes
  import opened AssertCheck
  import BoundedQueue

  class BoundedBuffer {
    var cap: int
    var q: seq<seq<Byte>>

    /** The abstract state these fields represent. */
    function Model(): BoundedQueue.Buffer
      reads this
    {
      BoundedQueue.Buffer(cap, q)
    }

    ghost predicate Valid()
      reads this
    {
      BoundedQueue.Valid(Model())
    }

    /** `BoundedBuffer(int _cap)`: sets the capacity; the queue starts empty. */
    constructor (cap0: int)
      requires 0 < cap0 <= INT_MAX
      ensures Valid()
      ensures Model() == BoundedQueue.New(cap0)
    {
      cap := cap0;
      q := [];
    }

    /** `push(data, len)`: the bytes are copied into a value before the queue
        changes, so the caller may reuse `data` afterwards without touching the
        stored record. */
    method Push(data: array<Byte>, len: int)
      requires Valid() && BoundedQueue.CanPush(Model())
      requires IsInt(len) && 0 <= len <= data.Length
      modifies this
      ensures Valid()
      ensures Model() == BoundedQueue.Push(old(Model()), data[..], len)
      ensures cap == old(cap)
    {
      var d := data[..len];
      q := q + [d];
    }

    /** `pop(buf, bufcap)`: removes the head, copies its bytes into
        `buf[0..n)` one by one as `memcpy` does, and returns `n`. */
    method Pop(buf: array<Byte>, bufcap: int) returns (n: int)
      requires Valid() && BoundedQueue.CanPop(Model())
      requires IsInt(bufcap) && bufcap <= buf.Length
      requires Fits(|q[0]|, bufcap)
      modifies this, buf
      ensures Valid()
      ensures var r := BoundedQueue.Pop(old(Model()), old(buf[..]), bufcap);
              Model() == r.next && buf[..] == r.dest && n == r.n
      ensures cap == old(cap)
    {
      var d := q[0];
      q := q[1..];
      var i := 0;
      while i < |d|
        invariant 0 <= i <= |d| <= buf.Length
        invariant cap == old(cap) && q == old(q[1..]) && d == old(q[0])
        invariant forall k :: 0 <= k < i ==> buf[k] == d[k]
        invariant forall k :: i <= k < buf.Length ==> buf[k] == old(buf[k])
        decreases |d| - i
      {
        buf[i] := d[i];
        i := i + 1;
      }
      n := |d|;
      assert buf[..] == BoundedQueue.Memcpy(old(buf[..]), d);
    }
  }
}
