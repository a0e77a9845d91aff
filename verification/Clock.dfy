/** Clock readings are integer nanoseconds; the tables hold whole unix seconds. */
module Clock {
  const SECOND := 1_000_000_000
  const MINUTE := 60 * SECOND

  function Unix(t: int): int {
    t / SECOND
  }

  /** The whole seconds of a duration, truncated toward zero. */
  function WholeSeconds(d: int): int {
    if d >= 0 then d / SECOND else -((-d) / SECOND)
  }
}
