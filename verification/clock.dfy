/** Clock readings and the millisecond arithmetic the scheduler does on them.

    A `LocalDateTime` is a point on a nanosecond timeline; an `Instant` here is
    that point counted in nanoseconds from a fixed origin.  The scheduler turns
    the gap between "now" and a task's begin into whole milliseconds with
    `Duration.toMillis`, which truncates toward zero. */
module Clock {

  /** A `LocalDateTime` reading, in nanoseconds on one fixed timeline. */
  type Instant = int

  const NanosPerMilli: int := 1_000_000

  /** `Duration.toMillis` of a duration of `d` nanoseconds: the whole number
      of milliseconds in `d`, truncated toward zero. */
  function ToMillis(d: int): (m: int)
    ensures d >= 0 ==> 0 <= m && m * 1_000_000 <= d < (m + 1) * 1_000_000
    ensures d < 0 ==> m <= 0 && (m - 1) * 1_000_000 < d <= m * 1_000_000
  {
    if d >= 0 then d / 1_000_000 else -((-d) / 1_000_000)
  }

  /** `Duration.between(from, to).toMillis()`. */
  function MillisBetween(from: Instant, to: Instant): int {
    ToMillis(to - from)
  }

  /** A record whose begin is `begin` is run at reading `now`: less than one
      millisecond is left before its begin (see `DueIff` for why this is the
      loop's test). */
  predicate Due(begin: Instant, now: Instant) {
    begin - now < NanosPerMilli
  }

  /** A timestamp with nothing below the millisecond. */
  predicate WholeMillis(t: Instant) {
    t % NanosPerMilli == 0
  }

  /** The loop runs a record when the truncated millisecond gap to its
      begin is not positive. Truncation only loses the sub-millisecond part,
      so that test holds exactly when less than one millisecond is left: a
      record may start up to just under a millisecond before its begin. */
  lemma DueIff(begin: Instant, now: Instant)
    ensures MillisBetween(now, begin) <= 0 <==> Due(begin, now)
  {
  }

  /** When both readings are whole milliseconds, "due" means begin <= now. */
  lemma DueWholeMillis(begin: Instant, now: Instant)
    requires WholeMillis(begin) && WholeMillis(now)
    ensures Due(begin, now) <==> begin <= now
  {
    var b, n := begin / NanosPerMilli, now / NanosPerMilli;
    assert begin == b * NanosPerMilli;
    assert now == n * NanosPerMilli;
    if begin < now + NanosPerMilli {
      assert b * NanosPerMilli < (n + 1) * NanosPerMilli;
      assert b < n + 1;
    }
  }
}
