/** Time is an integer count of nanoseconds, as Go's `time.Duration`. */
module Clock {

  const Second: int := 1_000_000_000
  const Hour: int := 3600 * Second
}
