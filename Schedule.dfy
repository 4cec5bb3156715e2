/** The daily trigger (`scheduled_discount_check`): how long to sleep so that
    the digest goes out at the next 06:00, Korean time. Instants are integer
    microseconds on the Asia/Seoul wall clock, counted from a midnight; that
    zone keeps no daylight saving time, so every day is 24 hours long. */
module Schedule {

  /** Microseconds in a day. */
  const Day: int := 86_400_000_000

  /** 06:00:00.000000, as microseconds after midnight. */
  const FireAt: int := 6 * 3_600_000_000

  /** The time of day of instant `t`. */
  function TimeOfDay(t: int): int {
    t % Day
  }

  /** The day instant `t` falls in. */
  function DayOf(t: int): int {
    t / Day
  }

  /** The wait computed by `scheduled_discount_check`: 06:00 of the current
      day, or of the next day when `now` is at or past it, minus `now`. */
  function NextWait(now: int): (wait: int)
    ensures 0 < wait <= Day
    ensures TimeOfDay(now + wait) == FireAt
  {
    var target := DayOf(now) * Day + FireAt;
    if now >= target then target + Day - now else target - now
  }

  /** The wait ends at the first 06:00 strictly after `now`: no instant in
      between is 06:00. */
  lemma NextWaitIsFirst(now: int, t: int)
    requires now < t < now + NextWait(now)
    ensures TimeOfDay(t) != FireAt
  {
    var d := DayOf(now);
    var start := if now >= d * Day + FireAt then d else d - 1;
    // t lies strictly between 06:00 of day `start` and 06:00 of the next day
    assert start * Day + FireAt < t < (start + 1) * Day + FireAt;
    if t < (start + 1) * Day {
      assert DayOf(t) == start;
      assert TimeOfDay(t) == t - start * Day;
    } else {
      assert DayOf(t) == start + 1;
      assert TimeOfDay(t) == t - (start + 1) * Day;
    }
  }

  /** At or after 06:00 the run is tomorrow at 06:00, before 06:00 it is
      today; exactly at 06:00 the wait is a whole day. */
  lemma NextWaitDay(now: int)
    ensures TimeOfDay(now) >= FireAt ==> DayOf(now + NextWait(now)) == DayOf(now) + 1
    ensures TimeOfDay(now) < FireAt ==> DayOf(now + NextWait(now)) == DayOf(now)
    ensures NextWait(now) == Day <==> TimeOfDay(now) == FireAt
  {
    var d := DayOf(now);
    assert now == d * Day + TimeOfDay(now);
    if TimeOfDay(now) >= FireAt {
      assert now + NextWait(now) == (d + 1) * Day + FireAt;
    } else {
      assert now + NextWait(now) == d * Day + FireAt;
    }
  }
}
