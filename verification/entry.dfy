/** A stored entry of the in-memory key/value store and its validity rule. */
module Entries {

  /** One byte of a serialized payload. */
  newtype byte = b: int | 0 <= b < 256

  /** An opaque serialized value, as produced by the caller's encoder. */
  type Bytes = seq<byte>

  /** An instant in nanoseconds since the Unix epoch (Go's `UnixNano`).
      Unbounded: the 64-bit range of the source is not modelled. */
  type Time = int

  /** The deadline value meaning "never expires". It is also a real instant
      (the Unix epoch itself), so an entry whose deadline is exactly the epoch
      never expires: the two meanings collide. */
  const NoDeadline: Time := 0

  /** A payload together with the last instant at which it may be read. */
  datatype Entry = Entry(data: Bytes, validTo: Time) {

    predicate HasDeadline() {
      validTo != NoDeadline
    }

    /** An entry is invalid at `t` only when it has a deadline and `t` lies
        strictly after it. */
    predicate ValidAt(t: Time) {
      !(HasDeadline() && t > validTo)
    }
  }

  /** Validity in closed form: no deadline, or `t` at or before the deadline,
      so an entry is still readable at the very instant of its deadline. */
  lemma ValidAtIff(e: Entry, t: Time)
    ensures e.ValidAt(t) <==> e.validTo == NoDeadline || t <= e.validTo
  {
  }

  /** The deadline itself is the last valid instant: one nanosecond later the
      entry is gone. */
  lemma BoundaryInclusive(e: Entry)
    requires e.HasDeadline()
    ensures e.ValidAt(e.validTo)
    ensures !e.ValidAt(e.validTo + 1)
  {
  }

  /** Expiry is permanent: an entry invalid at `t` is invalid at every later
      instant (equivalently, valid at `t'` implies valid at every earlier one). */
  lemma ExpiredStaysExpired(e: Entry, t: Time, t': Time)
    requires !e.ValidAt(t)
    requires t <= t'
    ensures !e.ValidAt(t')
  {
  }
}
