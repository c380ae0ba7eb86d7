/** Go's time.Time and time.Duration as integer nanoseconds since the Unix epoch, in UTC. */
module Clock {
  type Time = int

  const MILLISECOND := 1_000_000
  const SECOND := 1_000_000_000
  const MINUTE := 60 * SECOND
  const HOUR := 60 * MINUTE
  const DAY := 24 * HOUR

  /** An hour and a day as differences of Unix timestamps. */
  const HOUR_SECONDS := 3600
  const DAY_SECONDS := 86400

  /** Time.Truncate; Go's zero time is a UTC midnight, so hours and days line up with those of the epoch. */
  function Truncate(t: Time, d: int): Time
    requires d > 0
  {
    t - t % d
  }

  /** Time.Unix */
  function Unix(t: Time): int {
    t / SECOND
  }

  /** The Unix timestamp of the hour that contains `t`. */
  function HourKey(t: Time): int {
    Unix(Truncate(t, HOUR))
  }

  /** The Unix timestamp of the midnight before a Unix timestamp. */
  function FloorDay(s: int): int {
    s - s % DAY_SECONDS
  }

  lemma HourKeyFacts(t: Time)
    ensures HourKey(t) % HOUR_SECONDS == 0
    ensures HourKey(t) <= Unix(t) < HourKey(t) + HOUR_SECONDS
  {
    var q := t / HOUR;
    assert Truncate(t, HOUR) == q * HOUR;
    assert HourKey(t) == q * HOUR_SECONDS;
  }

  lemma HourKeyOfHour(key: int)
    requires key % HOUR_SECONDS == 0
    ensures HourKey(key * SECOND) == key
  {
    var q := key / HOUR_SECONDS;
    assert key * SECOND == q * HOUR;
    assert Truncate(q * HOUR, HOUR) == q * HOUR;
  }

  lemma HourKeyMonotone(t: Time, u: Time)
    requires t <= u
    ensures HourKey(t) <= HourKey(u)
  {
    assert t / HOUR <= u / HOUR;
    assert Truncate(t, HOUR) == t / HOUR * HOUR && Truncate(u, HOUR) == u / HOUR * HOUR;
  }

  lemma UnixMonotone(t: Time, u: Time)
    requires t <= u
    ensures Unix(t) <= Unix(u)
  {
  }

  lemma FloorDayMonotone(s: int, u: int)
    requires s <= u
    ensures FloorDay(s) <= FloorDay(u)
  {
    assert s / DAY_SECONDS <= u / DAY_SECONDS;
  }

  lemma FloorDayFacts(s: int)
    ensures FloorDay(s) % DAY_SECONDS == 0 && FloorDay(s) <= s < FloorDay(s) + DAY_SECONDS
  {
  }

  /** A multiple of a day is the midnight of everything in the day it starts. */
  lemma FloorDayUnique(d: int, s: int)
    requires d % DAY_SECONDS == 0
    ensures d <= s < d + DAY_SECONDS <==> FloorDay(s) == d
  {
  }
}
