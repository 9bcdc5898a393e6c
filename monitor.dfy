/**
 * The deadline monitor, stated on task values: what one run of
 * `check_deadlines` and of `stop_alarm` does to the list, and whether the
 * alarm is started, stopped or left as it is.
 */
module Monitor {
  import opened Options
  import opened Clock
  import opened Tasks

  /** The test in `check_deadlines`: a deadline, not completed, not yet notified, and reached. */
  predicate Alarming(v: TaskValue, now: Time)
  {
    v.deadline.Some? && !v.completed && !v.notified && v.deadline.value <= now
  }

  /** The test in `stop_alarm`: a deadline that has been reached, completed or not. */
  predicate Passed(v: TaskValue, now: Time)
  {
    v.deadline.Some? && v.deadline.value <= now
  }

  /** Some task of the list raises the alarm. */
  predicate AnyAlarming(vs: seq<TaskValue>, now: Time)
  {
    exists i :: 0 <= i < |vs| && Alarming(vs[i], now)
  }

  /** The `any(...)` of `check_deadlines`: some task is notified but not completed, so the alarm still has a reason. */
  predicate AlarmActive(vs: seq<TaskValue>)
  {
    exists i :: 0 <= i < |vs| && !vs[i].completed && vs[i].notified
  }

  /** The marking loop of `check_deadlines`, task by task. */
  function MarkDue(vs: seq<TaskValue>, now: Time): (ws: seq<TaskValue>)
    ensures |ws| == |vs|
  {
    if vs == [] then []
    else [if Alarming(vs[0], now) then vs[0].(notified := true) else vs[0]] + MarkDue(vs[1..], now)
  }

  /** The marking loop of `stop_alarm`, task by task. */
  function SilenceAll(vs: seq<TaskValue>, now: Time): (ws: seq<TaskValue>)
    ensures |ws| == |vs|
  {
    if vs == [] then []
    else [if Passed(vs[0], now) then vs[0].(notified := true) else vs[0]] + SilenceAll(vs[1..], now)
  }

  /**
   * Exactly the alarming tasks get `notified`; every other field of every
   * task, and every other task, stays as it was.
   */
  lemma {:induction false} MarkDueExact(vs: seq<TaskValue>, now: Time, i: nat)
    requires i < |vs|
    ensures MarkDue(vs, now)[i].notified == (vs[i].notified || Alarming(vs[i], now))
    ensures MarkDue(vs, now)[i] == vs[i].(notified := MarkDue(vs, now)[i].notified)
  {
    if i > 0 {
      MarkDueExact(vs[1..], now, i - 1);
    }
  }

  /** `stop_alarm` sets `notified` on exactly the tasks whose deadline has been reached and changes nothing else. */
  lemma {:induction false} SilenceAllExact(vs: seq<TaskValue>, now: Time, i: nat)
    requires i < |vs|
    ensures SilenceAll(vs, now)[i].notified == (vs[i].notified || Passed(vs[i], now))
    ensures SilenceAll(vs, now)[i] == vs[i].(notified := SilenceAll(vs, now)[i].notified)
  {
    if i > 0 {
      SilenceAllExact(vs[1..], now, i - 1);
    }
  }

  /** The marking loop changes the list exactly when some task raises the alarm: `alarm_needed` means "something was marked". */
  lemma {:induction false} MarkDueChangesIffAlarming(vs: seq<TaskValue>, now: Time)
    ensures MarkDue(vs, now) != vs <==> AnyAlarming(vs, now)
  {
    var ws := MarkDue(vs, now);
    if AnyAlarming(vs, now) {
      var i :| 0 <= i < |vs| && Alarming(vs[i], now);
      MarkDueExact(vs, now, i);
      assert ws[i] != vs[i];
    } else {
      forall i | 0 <= i < |vs| ensures ws[i] == vs[i] {
        MarkDueExact(vs, now, i);
      }
    }
  }

  /** After the marking loop no task raises the alarm at the same `now`. */
  lemma {:induction false} MarkDueSettles(vs: seq<TaskValue>, now: Time)
    ensures !AnyAlarming(MarkDue(vs, now), now)
  {
    var ws := MarkDue(vs, now);
    forall i | 0 <= i < |ws| ensures !Alarming(ws[i], now) {
      MarkDueExact(vs, now, i);
    }
  }

  /** Silencing, at any clock reading, never makes a task alarming. */
  lemma {:induction false} SilenceAllKeepsQuiet(vs: seq<TaskValue>, stopAt: Time, now: Time)
    requires !AnyAlarming(vs, now)
    ensures !AnyAlarming(SilenceAll(vs, stopAt), now)
  {
    var ws := SilenceAll(vs, stopAt);
    forall i | 0 <= i < |ws| ensures !Alarming(ws[i], now) {
      SilenceAllExact(vs, stopAt, i);
      assert !Alarming(vs[i], now);
    }
  }

  /** A second `stop_alarm` with the same clock reading changes nothing. */
  lemma {:induction false} SilenceAllIdempotent(vs: seq<TaskValue>, now: Time)
    ensures SilenceAll(SilenceAll(vs, now), now) == SilenceAll(vs, now)
  {
    var ws := SilenceAll(vs, now);
    var us := SilenceAll(ws, now);
    forall i | 0 <= i < |vs| ensures us[i] == ws[i] {
      SilenceAllExact(vs, now, i);
      SilenceAllExact(ws, now, i);
    }
  }

  /** What the alarm does at the end of `check_deadlines`. */
  datatype AlarmAction =
    | Play    // `play_alarm()`: some task was marked just now
    | Stop    // `stop_alarm()`: nothing marked, and no notified task is still open
    | Keep    // neither branch runs: the alarm stays as it is

  datatype Tick = Tick(tasks: seq<TaskValue>, action: AlarmAction)

  /**
   * One run of `check_deadlines`: the marking loop at the clock reading
   * `now`, then either the alarm, or `stop_alarm` (which marks every task
   * whose deadline has passed, completed ones included) when no notified
   * task is left open. `stop_alarm` reads the clock again: `stopAt` is that
   * later reading.
   */
  function Check(vs: seq<TaskValue>, now: Time, stopAt: Time): (r: Tick)
    ensures |r.tasks| == |vs|
    ensures r.action == Play <==> MarkDue(vs, now) != vs
    ensures r.action == Keep ==> r.tasks == vs
  {
    MarkDueChangesIffAlarming(vs, now);
    var marked := MarkDue(vs, now);
    if AnyAlarming(vs, now) then Tick(marked, Play)
    else if !AlarmActive(marked) then Tick(SilenceAll(marked, stopAt), Stop)
    else Tick(marked, Keep)
  }

  /**
   * Running `check_deadlines` twice with the same clock readings and nothing
   * in between: the second run changes no task and does not start the alarm.
   */
  lemma {:induction false} CheckTwice(vs: seq<TaskValue>, now: Time, stopAt: Time)
    ensures Check(Check(vs, now, stopAt).tasks, now, stopAt).tasks == Check(vs, now, stopAt).tasks
    ensures Check(Check(vs, now, stopAt).tasks, now, stopAt).action != Play
  {
    var first := Check(vs, now, stopAt);
    var marked := MarkDue(vs, now);
    MarkDueSettles(vs, now);
    MarkDueChangesIffAlarming(marked, now);
    match first.action
    case Play =>
      var i :| 0 <= i < |vs| && Alarming(vs[i], now);
      MarkDueExact(vs, now, i);
      assert !marked[i].completed && marked[i].notified;
    case Stop =>
      SilenceAllKeepsQuiet(marked, stopAt, now);
      MarkDueChangesIffAlarming(first.tasks, now);
      SilenceAllIdempotent(marked, stopAt);
    case Keep =>
  }

  /**
   * A task whose deadline falls between the two clock readings is not yet
   * due at the first and already passed at the second: the stop branch marks
   * it notified while it is still open, and its alarm never plays.
   */
  lemma StopSilencesTaskDueBetweenReadings()
    ensures var v := TaskValue("Call back", Some(100), false, false);
      Check([v], 99, 101) == Tick([v.(notified := true)], Stop)
  {
    var v := TaskValue("Call back", Some(100), false, false);
    assert MarkDue([v], 99) == [v] by {
      MarkDueExact([v], 99, 0);
    }
    assert SilenceAll([v], 101) == [v.(notified := true)] by {
      SilenceAllExact([v], 101, 0);
    }
  }

  /** The rule that a task is notified only once its deadline has been reached (at `now` or before). */
  predicate NotifiedOnlyWhenReached(vs: seq<TaskValue>, now: Time)
  {
    forall i :: 0 <= i < |vs| && vs[i].notified ==> Passed(vs[i], now)
  }

  /**
   * The monitor keeps that rule: if it held at an earlier clock reading, it
   * holds after `check_deadlines` runs at later ones.
   */
  lemma {:induction false} CheckKeepsNotifiedRule(vs: seq<TaskValue>, earlier: Time, now: Time, stopAt: Time)
    requires earlier <= now <= stopAt && NotifiedOnlyWhenReached(vs, earlier)
    ensures NotifiedOnlyWhenReached(Check(vs, now, stopAt).tasks, stopAt)
  {
    var marked := MarkDue(vs, now);
    forall i | 0 <= i < |marked| && marked[i].notified ensures Passed(marked[i], now) {
      MarkDueExact(vs, now, i);
    }
    var silenced := SilenceAll(marked, stopAt);
    forall i | 0 <= i < |silenced| && silenced[i].notified ensures Passed(silenced[i], stopAt) {
      SilenceAllExact(marked, stopAt, i);
    }
  }
}
