/**
 A snapshot's age in whole days: the `days` component of the elapsed time,
 which is the elapsed time divided by one day and rounded towards negative
 infinity (a snapshot created in the future has a negative age).
 */
module Ages {

  const MicrosPerSecond: int := 1_000_000
  const MicrosPerDay: int := 86_400 * MicrosPerSecond

  /** Whole days elapsed from `created` to `now` (both in microseconds).
      Dafny's `/` on a positive divisor rounds down, as Python's `timedelta.days` does. */
  function AgeInDays(now: int, created: int): (days: int)
    ensures days * MicrosPerDay <= now - created < (days + 1) * MicrosPerDay
  {
    (now - created) / MicrosPerDay
  }

  /** The age is the only whole number of days bracketing the elapsed time. */
  lemma AgeIsUnique(now: int, created: int, days: int)
    requires days * MicrosPerDay <= now - created < (days + 1) * MicrosPerDay
    ensures days == AgeInDays(now, created)
  {
  }

  /** A record is at least `k` days old exactly when `k` whole days have elapsed. */
  lemma AgeAtLeast(now: int, created: int, k: int)
    ensures AgeInDays(now, created) >= k <==> now - created >= k * MicrosPerDay
  {
  }

  /** Ages never decrease as the clock advances. */
  lemma AgeMonotone(now: int, later: int, created: int)
    requires now <= later
    ensures AgeInDays(now, created) <= AgeInDays(later, created)
  {
  }
}
