/**
 * Points in time as the application sees them: naive local `datetime` values.
 * A moment is a whole number of microseconds (the resolution of Python's
 * `datetime`) counted from a local midnight; naive datetimes carry no time
 * zone and no daylight-saving shifts, so every day is exactly `Day` long and
 * a date is the midnight that starts it.
 */
module Clock {

  type Time = int

  const Minute: int := 60_000_000
  const Hour: int := 60 * Minute
  const Day: int := 24 * Hour

  /** `t.date()`, as the midnight that starts the day holding `t`. */
  function Midnight(t: Time): (m: Time)
    ensures m <= t < m + Day
    ensures m % Day == 0
  {
    t - t % Day
  }

  /** `datetime.combine(date, time(hour, minute))` for the date starting at `midnight`. */
  function Combine(midnight: Time, hour: int, minute: int): Time
  {
    midnight + hour * Hour + minute * Minute
  }

  /** The `%H` field of `t.strftime(...)`. */
  function HourOf(t: Time): (h: int)
    ensures 0 <= h < 24
  {
    (t % Day) / Hour
  }

  /** The `%M` field of `t.strftime(...)`. */
  function MinuteOf(t: Time): (m: int)
    ensures 0 <= m < 60
  {
    ((t % Day) % Hour) / Minute
  }

  /** A positive multiple of a positive number is at least that number. */
  lemma {:induction false} MultipleAtLeast(k: int, d: int)
    requires k >= 1 && d > 0
    ensures k * d >= d
  {
    if k > 1 {
      MultipleAtLeast(k - 1, d);
      assert k * d == (k - 1) * d + d;
    }
  }

  /** Euclidean division is determined by quotient and remainder. */
  lemma DivModUnique(x: int, d: int, q: int, r: int)
    requires d > 0 && 0 <= r < d && x == q * d + r
    ensures x / d == q && x % d == r
  {
    var q', r' := x / d, x % d;
    assert x == q' * d + r';
    assert (q - q') * d == r' - r by {
      assert (q - q') * d == q * d - q' * d;
    }
    if q' < q {
      MultipleAtLeast(q - q', d);
    } else if q' > q {
      MultipleAtLeast(q' - q, d);
    }
  }

  /** Moving forward by one day moves the date forward by one day. */
  lemma {:induction false} MidnightNextDay(t: Time)
    ensures Midnight(t + Day) == Midnight(t) + Day
  {
    var q := (t - t % Day) / Day;
    DivModUnique(t, Day, q, t % Day);
    DivModUnique(t + Day, Day, q + 1, t % Day);
  }

  /**
   * A moment built on some date from an hour and a minute lies on that date,
   * and reading back its `%H` and `%M` gives that hour and minute.
   */
  lemma {:induction false} CombineFields(midnight: Time, hour: int, minute: int)
    requires midnight % Day == 0
    requires 0 <= hour < 24 && 0 <= minute < 60
    ensures Midnight(Combine(midnight, hour, minute)) == midnight
    ensures Combine(midnight, hour, minute) % Day == hour * Hour + minute * Minute
    ensures HourOf(Combine(midnight, hour, minute)) == hour
    ensures MinuteOf(Combine(midnight, hour, minute)) == minute
  {
    var t := Combine(midnight, hour, minute);
    var tod := hour * Hour + minute * Minute;
    DivModUnique(midnight, Day, midnight / Day, 0);
    DivModUnique(t, Day, midnight / Day, tod);
    DivModUnique(tod, Hour, hour, minute * Minute);
    DivModUnique(minute * Minute, Minute, minute, 0);
  }
}
