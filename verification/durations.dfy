/**
 * The part of Rust's `core::time::Duration` that NTP64 converts to and from:
 * whole seconds in a `u64` and the sub-second part in nanoseconds, always
 * below one second.
 */
module Durations {
  import opened Machine

  const NANOS_PER_SEC: int := 1_000_000_000

  /** A nanosecond count below one second. */
  type SubsecNanos = n: u32 | n < NANOS_PER_SEC

  datatype Duration = Duration(secs: u64, nanos: SubsecNanos)

  /** The whole span in nanoseconds. */
  function TotalNanos(d: Duration): nat
  {
    d.secs * NANOS_PER_SEC + d.nanos
  }

  /**
   * `Duration::new(secs, nanos)`: nanoseconds of a second or more are carried
   * into the seconds; the call panics when that carry overflows the seconds.
   */
  function New(secs: u64, nanos: u32): (r: Checked<Duration>)
    ensures r.Returns? <==> secs + nanos / NANOS_PER_SEC < TWO_64
    ensures r.Returns? ==> TotalNanos(r.value) == secs * NANOS_PER_SEC + nanos
    ensures nanos < NANOS_PER_SEC ==> r == Returns(Duration(secs, nanos))
  {
    if nanos < NANOS_PER_SEC then
      Returns(Duration(secs, nanos))
    else if secs + nanos / NANOS_PER_SEC < TWO_64 then
      Returns(Duration(secs + nanos / NANOS_PER_SEC, nanos % NANOS_PER_SEC))
    else
      Panics
  }

  /** Durations are ordered by their span: seconds first, then nanoseconds. */
  predicate Before(a: Duration, b: Duration)
  {
    a.secs < b.secs || (a.secs == b.secs && a.nanos < b.nanos)
  }

  lemma BeforeIsShorter(a: Duration, b: Duration)
    ensures Before(a, b) <==> TotalNanos(a) < TotalNanos(b)
  {
  }
}
