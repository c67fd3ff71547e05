/**
 The sequential round trip: push records `r1..rk` within capacity, then pop
 `k` times into one caller buffer that is reused between pops.
 */
module RoundTrip {
  import opened CTypes
  import opened BoundedQueue

  /** Every record could have come from a `push`: its length is an `int`. */
  predicate Pushable(rs: seq<Record>) {
    forall i :: 0 <= i < |rs| ==> |rs[i]| <= INT_MAX
  }

  /** Push each record whole (`push(r, |r|)`), in order: the records join
      the tail in that order, behind the records already queued. */
  function PushAll(b: Buffer, rs: seq<Record>): (b': Buffer)
    requires Valid(b) && |b.q| + |rs| <= b.cap && Pushable(rs)
    ensures Valid(b') && b'.cap == b.cap
    ensures |b'.q| == |b.q| + |rs|
    ensures b'.q[..|b.q|] == b.q
    ensures b'.q[|b.q|..] == rs
    decreases |rs|
  {
    if |rs| == 0 then b
    else
      var b1 := Push(b, rs[0], |rs[0]|);
      assert b1.q == b.q + [rs[0]] by {
        assert b1.q[|b.q|] == rs[0];
      }
      var b' := PushAll(b1, rs[1..]);
      assert b'.q[|b.q|..] == [rs[0]] + rs[1..] by {
        assert b'.q[|b.q|..] == b1.q[|b.q|..] + b'.q[|b1.q|..] by {
          assert b'.q[..|b1.q|] == b1.q;
        }
      }
      b'
  }

  /** Pop `k` times into the same caller buffer of declared capacity
      `bufcap`; collect `buf[0..n)` of each pop. */
  function PopAll(b: Buffer, k: nat, buf: seq<Byte>, bufcap: int): (r: (Buffer, seq<Record>))
    requires Valid(b) && k <= |b.q|
    requires IsInt(bufcap) && bufcap <= |buf|
    requires forall i :: 0 <= i < k ==> |b.q[i]| <= bufcap
    ensures Valid(r.0) && r.0.cap == b.cap
    ensures |r.0.q| == |b.q| - k && |r.1| == k
    decreases k
  {
    if k == 0 then (b, [])
    else
      var p := Pop(b, buf, bufcap);
      var rest := PopAll(p.next, k - 1, p.dest, bufcap);
      (rest.0, [p.dest[..p.n]] + rest.1)
  }

  /** Popping `k` times hands back the first `k` records, in order and with
      their exact bytes, and leaves the rest queued. */
  lemma {:induction false} PopAllTakesPrefix(b: Buffer, k: nat, buf: seq<Byte>, bufcap: int)
    requires Valid(b) && k <= |b.q|
    requires IsInt(bufcap) && bufcap <= |buf|
    requires forall i :: 0 <= i < k ==> |b.q[i]| <= bufcap
    ensures PopAll(b, k, buf, bufcap).1 == b.q[..k]
    ensures PopAll(b, k, buf, bufcap).0.q == b.q[k..]
    decreases k
  {
    if k > 0 {
      var p := Pop(b, buf, bufcap);
      assert p.next.q == b.q[1..];
      PopAllTakesPrefix(p.next, k - 1, p.dest, bufcap);
      assert [b.q[0]] + b.q[1..][..k - 1] == b.q[..k];
      assert b.q[1..][k - 1..] == b.q[k..];
    }
  }

  /** Lossless FIFO round trip from a fresh buffer: the consumer receives
      exactly the records pushed, in order, zero-length records and any byte
      values included, and the buffer ends empty. */
  lemma RoundTrip(cap: int, rs: seq<Record>, buf: seq<Byte>, bufcap: int)
    requires 0 < cap <= INT_MAX && |rs| <= cap && Pushable(rs)
    requires IsInt(bufcap) && bufcap <= |buf|
    requires forall i :: 0 <= i < |rs| ==> |rs[i]| <= bufcap
    ensures var full := PushAll(New(cap), rs);
            PopAll(full, |rs|, buf, bufcap).1 == rs &&
            PopAll(full, |rs|, buf, bufcap).0 == New(cap)
  {
    var full := PushAll(New(cap), rs);
    PopAllTakesPrefix(full, |rs|, buf, bufcap);
  }
}
