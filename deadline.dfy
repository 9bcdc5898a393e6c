/**
 * The deadline rule of `TaskManager.add_task`: the time text names a time of
 * day; the deadline is that time today, or tomorrow when today's moment is
 * already earlier than now.
 */
module Deadlines {
  import opened Options
  import opened Clock
  import opened ClockText

  /** What `add_task` makes of its `deadline_str`. */
  datatype Scheduled =
    | NoDeadline         // `deadline_str` is `None` or empty: the task gets no deadline
    | DueAt(at: Time)    // the text parsed: the task is due at `at`
    | BadTime            // `strptime` raised `ValueError`: `add_task` returns `None`

  /**
   * The moment `add_task` computes for a parsed hour and minute: it lies in
   * `[now, now + Day)`, shows that hour and minute, and falls on today's date
   * exactly when today's moment at that time is not earlier than `now`.
   */
  function DeadlineAt(hour: int, minute: int, now: Time): (d: Time)
    requires 0 <= hour < 24 && 0 <= minute < 60
    ensures now <= d < now + Day
    ensures HourOf(d) == hour && MinuteOf(d) == minute
    ensures d % Day == hour * Hour + minute * Minute
    ensures Midnight(d) == Midnight(now) <==> Combine(Midnight(now), hour, minute) >= now
  {
    var today := Combine(Midnight(now), hour, minute);
    CombineFields(Midnight(now), hour, minute);
    if today < now then
      MidnightNextDay(now);
      CombineFields(Midnight(now + Day), hour, minute);
      Combine(Midnight(now + Day), hour, minute)
    else
      today
  }

  /**
   * The deadline is the first moment from `now` on whose time of day is the
   * parsed hour and minute: any moment of the coming day with that time of
   * day is the deadline.
   */
  lemma {:induction false} DeadlineIsNextOccurrence(hour: int, minute: int, now: Time, t: Time)
    requires 0 <= hour < 24 && 0 <= minute < 60
    requires now <= t < now + Day && t % Day == hour * Hour + minute * Minute
    ensures t == DeadlineAt(hour, minute, now)
  {
    var d := DeadlineAt(hour, minute, now);
    var tod := hour * Hour + minute * Minute;
    DivModUnique(t, Day, t / Day, tod);
    DivModUnique(d, Day, d / Day, tod);
    var k := t / Day - d / Day;
    assert t - d == k * Day by {
      assert t - d == (t / Day) * Day - (d / Day) * Day;
    }
    if k >= 1 {
      MultipleAtLeast(k, Day);
    } else if k <= -1 {
      MultipleAtLeast(-k, Day);
    }
  }

  /** The deadline `add_task` derives from its optional time text at clock reading `now`. */
  function Schedule(text: Option<string>, now: Time): (r: Scheduled)
    ensures r.NoDeadline? <==> text.None? || text.value == []
    ensures r.BadTime? <==> text.Some? && text.value != [] && ParseClock(text.value).None?
    ensures r.DueAt? ==> now <= r.at < now + Day
    ensures r.DueAt? ==> ParseClock(text.value) == Some((HourOf(r.at), MinuteOf(r.at)))
    ensures r.DueAt? ==> r.at == DeadlineAt(ParseClock(text.value).value.0, ParseClock(text.value).value.1, now)
  {
    if text.None? || text.value == [] then NoDeadline
    else
      match ParseClock(text.value)
      case None => BadTime
      case Some((hour, minute)) => DueAt(DeadlineAt(hour, minute, now))
  }

  /**
   * "09:07" read at 08:00 is due at 09:07 the same day; read at 10:00, or one
   * microsecond after 09:07, it is due at 09:07 the next day; "25:99" is
   * rejected.
   */
  lemma RolloverExamples()
    ensures Schedule(Some("09:07"), 8 * Hour) == DueAt(9 * Hour + 7 * Minute)
    ensures Schedule(Some("09:07"), 10 * Hour) == DueAt(Day + 9 * Hour + 7 * Minute)
    ensures Schedule(Some("09:07"), 9 * Hour + 7 * Minute + 1) == DueAt(Day + 9 * Hour + 7 * Minute)
    ensures Schedule(Some("25:99"), 8 * Hour) == BadTime
  {
    assert ParseClock("09:07") == Some((9, 7)) by {
      assert HourWidth("09:07") == 2;
      assert "09:07"[..2] == "09" && "09:07"[3..] == "07";
    }
    assert HourWidth("25:99") == 0;
  }
}
