# BoundedBuffer in Dafny

A model of `BoundedBuffer`, a thread-safe bounded FIFO queue of variable-length
byte records used between producer and consumer threads. Its state is a
capacity `cap` and a `std::queue<std::vector<char>>`. `push(data, len)` waits
for a free slot and then appends a copy of `data[0..len)`. `pop(buf, bufcap)`
waits for a record and removes the head. It then asserts that the head fits
in `bufcap` bytes, `memcpy`s it into `buf` and returns its length.

Underneath the mutex and condition variables this is a sequential state
machine, and that is what is modelled:

- `CTypes` holds the C++ integer types involved: 32-bit `int`, 64-bit `size_t`
  and bytes as `bv8`.
- `BoundedQueue` holds the state (`Buffer`), its invariant `Valid`, the
  constructor `New` and the transitions `Push` and `Pop`. It also holds
  `Memcpy`, the effect of the copy on the caller's buffer. Each blocking wait
  is a precondition: `CanPush` for `push`, `CanPop` for `pop`. The size
  assertion is a precondition of `Pop` too.
- `Traces` runs arbitrary sequences of calls (`Step`, `Run`). Under the lock
  every interleaving of threads is such a sequence. A call whose wait
  predicate is false is `Blocked`. A `pop` whose head does not fit is `Abort`.
  It proves the capacity invariant and FIFO order with nothing lost or
  duplicated.
- `RoundTrip` proves the lossless round trip. It pushes `r1..rk` and pops `k`
  times into one reused caller buffer.
- `AssertCheck` models the size assertion as compiled and as intended (see
  Findings).
- `BufferObject` is the class view over `array<bv8>` caller buffers. Each of
  its methods refines the matching `BoundedQueue` transition. `Pop` copies
  byte by byte with a loop invariant.

Records are Dafny sequences, which are values. The record `Push` stores is
therefore a copy, and later writes to the caller's `data` array cannot
reach it.

## Model

| member | source | states |
|---|---|---|
| CTypes.ToSizeT | BoundedBuffer.h:65 | converting an `int` to `size_t` leaves non-negative values alone and adds 2^64 to negative ones |
| BoundedQueue.New | BoundedBuffer.h:30-32 | a new buffer satisfies the invariant, has capacity `cap`, holds no records, admits a push and blocks a pop |
| BoundedQueue.Push | BoundedBuffer.h:38-47 | enabled only when `|q| < cap`; the invariant and `cap` are kept, the size grows by exactly one, every earlier record is unchanged, and the new tail has length `len` and bytes `data[0..len)` |
| BoundedQueue.Memcpy | BoundedBuffer.h:66 | the caller's buffer keeps its length; its first `|src|` bytes become `src` and every byte from `|src|` on is unchanged |
| BoundedQueue.Pop | BoundedBuffer.h:54-72 | enabled only on a non-empty queue whose head fits in `bufcap`; the rest of the queue shifts forward by one, `cap` and the invariant are kept, the return value is the head's length (an `int` no larger than `bufcap`), `buf[0..n)` is the head and `buf` from `n` on is unchanged |
| Traces.Step | BoundedBuffer.h:38-73 | a push blocks exactly when the queue is full and a pop exactly when it is empty; a pop aborts exactly when the head is longer than `bufcap`; every completed call keeps the invariant and `cap`, and a pop returns no more than `bufcap` bytes |
| Traces.RunKeepsInvariant | BoundedBuffer.h:18-19 | along any completed sequence of calls the invariant holds, so `0 <= |q| <= cap`, and `cap` never changes |
| Traces.RunIsFifo | BoundedBuffer.h:47-61 | for any completed sequence of calls, the records received followed by the records still queued equal the records initially queued followed by the records sent: no loss, duplication or reordering |
| Traces.ReceivedIsPrefixOfSent | BoundedBuffer.h:30-73 | from a fresh buffer the records received are a prefix of the records sent, and at most `cap` sent records are not yet received |
| Traces.CapacityTwoScenario | BoundedBuffer.h:38-72 | with capacity 2, pushing "AAA" and "BBBBB" completes and a third push blocks; a pop then returns "AAA" with length 3 and unblocks the third push |
| RoundTrip.PushAll | BoundedBuffer.h:40-47 | pushing records one by one within capacity puts them at the tail in order, behind the records already queued |
| RoundTrip.PopAll | BoundedBuffer.h:56-72 | popping `k` records keeps the invariant and `cap`, leaves `|q| - k` records and yields `k` results |
| RoundTrip.PopAllTakesPrefix | BoundedBuffer.h:60-72 | popping `k` times into a reused buffer yields exactly the first `k` records, bytes and lengths, and leaves the rest queued |
| RoundTrip.RoundTrip | BoundedBuffer.h:40-72 | pushing `r1..rk` within capacity into a fresh buffer and then popping `k` times returns `r1..rk` in order, empty and zero-byte records included, and leaves the buffer empty |
| AssertCheck.NegativeCapacityPassesAssert | BoundedBuffer.h:65-66 | some record and negative `bufcap` pass the compiled assertion although the record does not fit |
| AssertCheck.AsWrittenVersusIntended | BoundedBuffer.h:65 | the compiled and the intended check agree for `bufcap >= 0`; for a negative `bufcap` nothing fits, yet the compiled check accepts every record no longer than 2^64 + `bufcap` |
| AssertCheck.FitsAsWritten | BoundedBuffer.h:65 | the size assertion as compiled: the record length compared with `bufcap` after `bufcap` is converted to `size_t` |
| AssertCheck.Fits | BoundedBuffer.h:65 | the size assertion as intended: the record length is at most `bufcap`, compared as integers |
| BoundedQueue.CanPush | BoundedBuffer.h:44 | the wait predicate of `push`: fewer than `cap` records are queued |
| BoundedQueue.CanPop | BoundedBuffer.h:57 | the wait predicate of `pop`: at least one record is queued |
| BufferObject.BoundedBuffer.constructor | BoundedBuffer.h:30-32 | a new object satisfies the invariant and its fields equal `BoundedQueue.New(cap)`: capacity `cap`, empty queue |
| BufferObject.BoundedBuffer.Push | BoundedBuffer.h:38-47 | the object's fields change exactly as `BoundedQueue.Push` says, with the bytes taken from the caller's array |
| BufferObject.BoundedBuffer.Pop | BoundedBuffer.h:54-72 | the object's fields and the caller's array change exactly as `BoundedQueue.Pop` says, and the returned length agrees |

## Left out

- The mutex, `unique_lock`, both condition variables and `notify_one` are not modelled. Blocking, wakeups, spurious wakeups, liveness and starvation are concurrency concerns. Each wait predicate is an enabling precondition, or the `Blocked` outcome of `Traces.Step`. Any interleaving is represented by the sequence of calls it linearises to.
- The process abort of a failed `assert` is not modelled as control flow. `BoundedQueue.Pop` requires the assertion, and `Traces.Step` reports `Abort` and stops the run.
- The internals of `std::queue` and `std::vector` are not modelled. Both are Dafny sequences.
- A negative `len` in `push` is excluded by precondition. It is undefined behaviour in the vector range constructor.
- A non-positive `cap` is excluded by the precondition `0 < cap`. With `cap == 0` the wait predicate never admits a push. A negative `cap` converts to 2^64 + `cap` in the comparison with `size_t`, so the wait predicate admits pushes without a practical bound.
- The empty destructor is not modelled. Threads blocked when the object is destroyed are undefined in the source.
- BoundedQueue.Memcpy: popping a zero-length record calls `memcpy` with the null pointer that `data()` returns for an empty vector. C and C++ (before C2y) leave that call undefined. `BoundedQueue.Memcpy` models it as the no-op that mainstream libraries perform.
- The caller's pointers are modelled as sequences or arrays of known length. Preconditions require that `data` holds `len` bytes and `buf` holds `bufcap` bytes; the source cannot check either.

## Findings

| source | as written | input that shows it | evidently intended | confidence | as-written member | corrected member |
|---|---|---|---|---|---|---|
| BoundedBuffer.h:65 | `assert(d.size() <= bufcap)` compares a `size_t` with an `int`, so a negative `bufcap` is converted to 2^64 + `bufcap` and the assertion passes | `bufcap == -1` with a 5-byte head record: the assertion passes and `memcpy` writes 5 bytes into a buffer declared to hold none | a record longer than `bufcap` fails the assertion for every `bufcap`, negative ones included | not executed; follows from the C++ usual arithmetic conversions with a 64-bit `size_t` | AssertCheck.NegativeCapacityPassesAssert | Traces.Step |

The rest of the model uses the intended comparison, `AssertCheck.Fits`: the
head's length compared with `bufcap` as integers. It is the precondition of
`BoundedQueue.Pop` and `BufferObject.BoundedBuffer.Pop`, and the abort
condition of `Traces.Step`.
`Traces.Step` proves the intended property: a pop aborts exactly when the head
is longer than `bufcap`, and a completed pop never returns more than `bufcap`
bytes.
