/** The two timeouts: the 12-hour credential window and the 5-minute VIP section deadline.
    Both are pure comparisons of a timestamp (milliseconds) against the current time. */
module Expiration {
  import opened Wrappers

  /** Credential lifetime: 12 hours in milliseconds. */
  const EXPIRATION_TIME_MS: int := 12 * 60 * 60 * 1000

  /** Dwell time allowed in the VIP section after first entry: 5 minutes in milliseconds. */
  const VIP_SECTION_TIMEOUT_MS: int := 5 * 60 * 1000

  /** A timestamp slot as JavaScript's truthiness reads it: absent and 0 both count as unset. */
  predicate IsSet(t: Option<int>) {
    t.Some? && t.value != 0
  }

  /** A creation timestamp has aged out: it is set and strictly more than 12 hours old. */
  predicate IsExpiredAt(createdAt: Option<int>, now: int) {
    IsSet(createdAt) && now - createdAt.value > EXPIRATION_TIME_MS
  }

  /** The VIP deadline has passed: strictly more than 5 minutes since entry. */
  predicate VipOverdue(entry: int, now: int) {
    now - entry > VIP_SECTION_TIMEOUT_MS
  }

  /** The window is 43 200 000 ms and closes strictly: exactly 12 hours old is still valid,
      one millisecond more is expired, and an unset timestamp never expires. */
  lemma ExpiryBoundary(t: int, now: int)
    requires t != 0
    ensures EXPIRATION_TIME_MS == 43_200_000
    ensures !IsExpiredAt(Some(t), t + EXPIRATION_TIME_MS)
    ensures IsExpiredAt(Some(t), t + EXPIRATION_TIME_MS + 1)
    ensures !IsExpiredAt(None, now) && !IsExpiredAt(Some(0), now)
  {
  }

  /** Once expired, a timestamp stays expired at every later time. */
  lemma ExpiryIsMonotone(createdAt: Option<int>, now: int, later: int)
    requires now <= later
    ensures IsExpiredAt(createdAt, now) ==> IsExpiredAt(createdAt, later)
  {
  }

  /** The VIP deadline is 300 000 ms and also closes strictly. */
  lemma VipBoundary(entry: int)
    ensures VIP_SECTION_TIMEOUT_MS == 300_000
    ensures !VipOverdue(entry, entry + VIP_SECTION_TIMEOUT_MS - 1)
    ensures !VipOverdue(entry, entry + VIP_SECTION_TIMEOUT_MS)
    ensures VipOverdue(entry, entry + VIP_SECTION_TIMEOUT_MS + 1)
  {
  }
}
