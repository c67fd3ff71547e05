/**
 Histories of calls. Under the lock every completed `push` and `pop` takes
 effect atomically, so any interleaving of producer and consumer threads is
 some sequence of the transitions below. A call whose wait predicate is false
 blocks; a `pop` whose head record does not fit the caller's buffer aborts.
 */
module Traces {
  import opened CTypes
  import opened BoundedQueue
  import opened AssertCheck

  /** One call: `push(data, len)` or `pop(buf, bufcap)`. */
  datatype Op =
    | PushOp(data: seq<Byte>, len: int)
    | PopOp(buf: seq<Byte>, bufcap: int)

  /** What a call does from a given state. */
  datatype StepResult =
    | Blocked
    | Abort
    | Pushed(next: Buffer)
    | Popped(res: PopResult)

  /** The arguments are what the caller's types allow: `int` lengths, and a
      buffer that really holds `len` (for push) or `bufcap` (for pop) bytes. */
  predicate WellFormed(op: Op) {
    match op
    case PushOp(data, len) => IsInt(len) && 0 <= len <= |data|
    case PopOp(buf, bufcap) => IsInt(bufcap) && bufcap <= |buf|
  }

  /** One call against the state `b`: it blocks exactly when its wait
      predicate is false, a `pop` aborts exactly when the head is longer than
      `bufcap`, and otherwise the call completes and keeps the invariant. */
  function Step(b: Buffer, op: Op): (r: StepResult)
    requires Valid(b) && WellFormed(op)
    ensures r.Blocked? <==> (op.PushOp? && |b.q| == b.cap) || (op.PopOp? && |b.q| == 0)
    ensures r.Abort? <==> op.PopOp? && |b.q| > 0 && |b.q[0]| > op.bufcap
    ensures r.Pushed? <==> op.PushOp? && |b.q| < b.cap
    ensures r.Pushed? ==> Valid(r.next) && r.next.cap == b.cap
    ensures r.Popped? ==> Valid(r.res.next) && r.res.next.cap == b.cap
    ensures r.Popped? ==> 0 <= r.res.n <= op.bufcap && r.res.n == |b.q[0]|
  {
    match op
    case PushOp(data, len) =>
      if CanPush(b) then Pushed(Push(b, data, len)) else Blocked
    case PopOp(buf, bufcap) =>
      if !CanPop(b) then Blocked
      else if Fits(|b.q[0]|, bufcap) then Popped(Pop(b, buf, bufcap))
      else Abort
  }

  /** A completed history: the final state, the records producers handed over
      (`data[0..len)` of each push) and the records consumers received
      (`buf[0..n)` of each pop), each in call order. */
  datatype History = History(final: Buffer, sent: seq<Record>, received: seq<Record>)

  /** Running a sequence of calls either completes or gets stuck at the first
      call that blocks or aborts. */
  datatype RunResult = Stuck(at: nat) | Completed(h: History)

  predicate AllWellFormed(ops: seq<Op>) {
    forall i :: 0 <= i < |ops| ==> WellFormed(ops[i])
  }

  /** The calls in `ops`, one after the other, from state `b`. */
  function Run(b: Buffer, ops: seq<Op>): (r: RunResult)
    requires Valid(b) && AllWellFormed(ops)
    decreases |ops|
  {
    if |ops| == 0 then Completed(History(b, [], []))
    else
      match Step(b, ops[0])
      case Blocked => Stuck(0)
      case Abort => Stuck(0)
      case Pushed(next) =>
        (match Run(next, ops[1..])
         case Stuck(k) => Stuck(k + 1)
         case Completed(h) => Completed(h.(sent := [ops[0].data[..ops[0].len]] + h.sent)))
      case Popped(res) =>
        (match Run(res.next, ops[1..])
         case Stuck(k) => Stuck(k + 1)
         case Completed(h) => Completed(h.(received := [res.dest[..res.n]] + h.received)))
  }

  /** Capacity invariant: along any completed history the state stays valid
      (so `0 <= |q| <= cap`) and `cap` never changes. */
  lemma {:induction false} RunKeepsInvariant(b: Buffer, ops: seq<Op>)
    requires Valid(b) && AllWellFormed(ops)
    requires Run(b, ops).Completed?
    ensures Valid(Run(b, ops).h.final)
    ensures Run(b, ops).h.final.cap == b.cap
    ensures 0 <= |Run(b, ops).h.final.q| <= b.cap
    decreases |ops|
  {
    if |ops| > 0 {
      match Step(b, ops[0])
      case Pushed(next) => RunKeepsInvariant(next, ops[1..]);
      case Popped(res) => RunKeepsInvariant(res.next, ops[1..]);
    }
  }

  /** FIFO with nothing lost or duplicated: what consumers received, followed
      by what is still queued, is exactly what was queued at the start followed
      by what producers sent, in order. */
  lemma {:induction false} RunIsFifo(b: Buffer, ops: seq<Op>)
    requires Valid(b) && AllWellFormed(ops)
    requires Run(b, ops).Completed?
    ensures Run(b, ops).h.received + Run(b, ops).h.final.q == b.q + Run(b, ops).h.sent
    decreases |ops|
  {
    if |ops| > 0 {
      match Step(b, ops[0])
      case Pushed(next) =>
        RunIsFifo(next, ops[1..]);
        var h := Run(next, ops[1..]).h;
        var d := ops[0].data[..ops[0].len];
        assert next.q == b.q + [d];
        calc {
          h.received + h.final.q;
          next.q + h.sent;
          b.q + ([d] + h.sent);
        }
      case Popped(res) =>
        RunIsFifo(res.next, ops[1..]);
        var h := Run(res.next, ops[1..]).h;
        assert res.next.q == b.q[1..];
        assert res.dest[..res.n] == b.q[0];
        calc {
          ([res.dest[..res.n]] + h.received) + h.final.q;
          [b.q[0]] + (h.received + h.final.q);
          [b.q[0]] + (b.q[1..] + h.sent);
          b.q + h.sent;
        }
    }
  }

  /** Corollary from an empty buffer: the records received so far are a prefix
      of the records sent, in the same order. */
  lemma ReceivedIsPrefixOfSent(cap: int, ops: seq<Op>)
    requires 0 < cap <= INT_MAX && AllWellFormed(ops)
    requires Run(New(cap), ops).Completed?
    ensures Run(New(cap), ops).h.received <= Run(New(cap), ops).h.sent
    ensures |Run(New(cap), ops).h.sent| - |Run(New(cap), ops).h.received| <= cap
  {
    RunIsFifo(New(cap), ops);
    RunKeepsInvariant(New(cap), ops);
    var h := Run(New(cap), ops).h;
    assert h.received + h.final.q == h.sent;
  }

  /** The worked scenario: with capacity 2, pushing "AAA" and "BBBBB"
      completes, a third push blocks, and the first pop into an 8-byte buffer
      returns "AAA" with length 3. */
  lemma CapacityTwoScenario(third: seq<Byte>, buf: seq<Byte>)
    requires |buf| == 8 && |third| <= INT_MAX
    ensures var aaa: seq<Byte> := [0x41, 0x41, 0x41];
            var bbbbb: seq<Byte> := [0x42, 0x42, 0x42, 0x42, 0x42];
            var b1 := Step(New(2), PushOp(aaa, 3));
            && b1.Pushed?
            && var b2 := Step(b1.next, PushOp(bbbbb, 5));
            && b2.Pushed?
            && Step(b2.next, PushOp(third, |third|)).Blocked?
            && var p := Step(b2.next, PopOp(buf, 8));
            && p.Popped? && p.res.n == 3 && p.res.dest[..3] == aaa
            && Step(p.res.next, PushOp(third, |third|)).Pushed?
  {
  }
}
