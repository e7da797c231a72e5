/** Durations of Go's `time` package, in nanoseconds. */
module Clock {
  const SECOND := 1_000_000_000
  const MINUTE := 60 * SECOND
}
