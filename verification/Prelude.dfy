/** Shared vocabulary: optional values, and the one clock that every component reads.
    Instants are integers counting nanoseconds, so that the millisecond rounding of stored
    dates and the whole-second rounding of durations can be stated exactly. */
module Prelude {

  datatype Option<+T> = None | Some(value: T)

  function Seconds(n: int): int {
    1_000_000_000 * n
  }

  function Hours(n: int): int {
    Seconds(3600 * n)
  }

  function Millis(n: int): int {
    1_000_000 * n
  }

  const U64_MAX: nat := 0xFFFF_FFFF_FFFF_FFFF

  // A stored date keeps whole milliseconds only.
  function ToMillis(t: int): int {
    Millis(t / 1_000_000)
  }

  // The whole seconds of a duration, truncated toward zero.
  function WholeSeconds(d: int): int {
    if d >= 0 then d / 1_000_000_000 else -((-d) / 1_000_000_000)
  }

  /** What is cut off is less than a second, and the sign does not matter. */
  lemma WholeSecondsTruncates(d: int)
    ensures WholeSeconds(-d) == -WholeSeconds(d)
    ensures d >= 0 ==> 1_000_000_000 * WholeSeconds(d) <= d < 1_000_000_000 * (WholeSeconds(d) + 1)
  {
  }

  function Min(a: int, b: int): int {
    if a < b then a else b
  }

  function Max(a: int, b: int): int {
    if a < b then b else a
  }
}
