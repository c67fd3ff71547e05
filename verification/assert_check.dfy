/**
 The buffer-size assertion of `pop`, `assert(d.size() <= bufcap)`. The left
 side is a `size_t`, the right side an `int`, so C++ converts `bufcap` to
 `size_t` before comparing. For a negative `bufcap` the assertion therefore
 passes for every record, and `memcpy` then writes the whole record into a
 buffer the caller declared to have no room at all.
 */
module AssertCheck {
  import opened CTypes

  /** The assertion as compiled: `bufcap` reinterpreted as a 64-bit unsigned. */
  predicate FitsAsWritten(size: nat, bufcap: int)
    requires IsInt(bufcap)
  {
    size <= ToSizeT(bufcap)
  }

  /** The assertion as intended: the record is no longer than the declared
      capacity, compared as integers. This is the check `BoundedQueue.Pop`
      requires and `Traces.Step` turns into its abort outcome. */
  predicate Fits(size: nat, bufcap: int) {
    size <= bufcap
  }

  /** The discrepancy: a 5-byte record and `bufcap == -1` pass the compiled
      assertion, yet the record does not fit. */
  lemma NegativeCapacityPassesAssert()
    ensures exists size: nat, bufcap: int ::
      IsInt(bufcap) && FitsAsWritten(size, bufcap) && !Fits(size, bufcap)
  {
    assert IsInt(-1) && FitsAsWritten(5, -1) && !Fits(5, -1);
  }

  /** Exactly where the two disagree: for a non-negative `bufcap` they agree,
      for a negative one the compiled check accepts any record no longer than
      2^64 + bufcap while the intended check accepts none. */
  lemma AsWrittenVersusIntended(size: nat, bufcap: int)
    requires IsInt(bufcap)
    ensures 0 <= bufcap ==> (FitsAsWritten(size, bufcap) <==> Fits(size, bufcap))
    ensures bufcap < 0 ==> !Fits(size, bufcap)
    ensures bufcap < 0 ==> (FitsAsWritten(size, bufcap) <==> size <= SIZE_MODULUS + bufcap)
  {
  }
}
