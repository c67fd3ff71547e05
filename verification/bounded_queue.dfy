/**
 The sequential state machine underneath `BoundedBuffer`: a capacity and a
 FIFO queue of byte records. The mutex and the two condition variables only
 serialise calls to these transitions; each blocking wait appears here as the
 enabling precondition of its operation.
 */
module BoundedQueue {
  import opened CTypes
  import opened AssertCheck

  /** A record: an owned copy of the bytes a producer handed over. */
  type Record = seq<Byte>

  /** The state guarded by the lock: `cap` and the queue `q`, head first. */
  datatype Buffer = Buffer(cap: int, q: seq<Record>)

  /** The invariant the lock protects: a positive `int` capacity, never more
      than `cap` records, and every record short enough for its length to be
      an `int` (a record is built from an `int` length). */
  predicate Valid(b: Buffer) {
    && 0 < b.cap <= INT_MAX
    && |b.q| <= b.cap
    && forall i :: 0 <= i < |b.q| ==> |b.q[i]| <= INT_MAX
  }

  /** The wait predicate of `push`: there is a free slot. */
  predicate CanPush(b: Buffer) {
    |b.q| < b.cap
  }

  /** The wait predicate of `pop`: there is a record to take. */
  predicate CanPop(b: Buffer) {
    |b.q| > 0
  }

  /** The constructor: an empty queue bounded at `cap`. */
  function New(cap: int): (b: Buffer)
    requires 0 < cap <= INT_MAX
    ensures Valid(b)
    ensures b.cap == cap
    ensures |b.q| == 0 && CanPush(b) && !CanPop(b)
  {
    Buffer(cap, [])
  }

  /** `push(data, len)` once a slot is free: a copy of `data[0..len)` joins
      the tail; the records already queued and the capacity stay as they were. */
  function Push(b: Buffer, data: seq<Byte>, len: int): (b': Buffer)
    requires Valid(b) && CanPush(b)
    requires IsInt(len) && 0 <= len <= |data|
    ensures Valid(b')
    ensures b'.cap == b.cap
    ensures |b'.q| == |b.q| + 1
    ensures forall i :: 0 <= i < |b.q| ==> b'.q[i] == b.q[i]
    ensures |b'.q[|b.q|]| == len
    ensures forall k :: 0 <= k < len ==> b'.q[|b.q|][k] == data[k]
    ensures CanPop(b')
  {
    b.(q := b.q + [data[..len]])
  }

  /** The caller's buffer after `memcpy(dst, src, |src|)`: the pointwise
      C semantics, byte `i` coming from `src` below `|src|` and left alone from
      `|src|` on. */
  function Memcpy(dst: seq<Byte>, src: seq<Byte>): (r: seq<Byte>)
    requires |src| <= |dst|
    ensures |r| == |dst|
    ensures r[..|src|] == src
    ensures r[|src|..] == dst[|src|..]
  {
    seq(|dst|, i requires 0 <= i < |dst| => if i < |src| then src[i] else dst[i])
  }

  /** What `pop` leaves behind: the new state, the caller's buffer after the
      copy, and the returned length. */
  datatype PopResult = PopResult(next: Buffer, dest: seq<Byte>, n: int)

  /** `pop(buf, bufcap)` once a record is queued and the head passes the
      assertion `d.size() <= bufcap`, compared as integers (the intended
      check, `AssertCheck.Fits`): the head leaves the queue, its bytes land
      at the front of `buf`, and its length comes back as an `int`. */
  function Pop(b: Buffer, buf: seq<Byte>, bufcap: int): (r: PopResult)
    requires Valid(b) && CanPop(b)
    requires IsInt(bufcap) && bufcap <= |buf|
    requires Fits(|b.q[0]|, bufcap)
    ensures Valid(r.next)
    ensures r.next.cap == b.cap
    ensures |r.next.q| == |b.q| - 1 && CanPush(r.next)
    ensures forall i :: 0 <= i < |r.next.q| ==> r.next.q[i] == b.q[i + 1]
    ensures r.n == |b.q[0]| && 0 <= r.n <= bufcap
    ensures |r.dest| == |buf|
    ensures forall k :: 0 <= k < r.n ==> r.dest[k] == b.q[0][k]
    ensures forall k :: r.n <= k < |buf| ==> r.dest[k] == buf[k]
  {
    PopResult(b.(q := b.q[1..]), Memcpy(buf, b.q[0]), |b.q[0]|)
  }
}
