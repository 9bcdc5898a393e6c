/**
 * The logic of the `MustDo` window without its widgets: the tasks its list
 * rows hold, the task manager behind them, whether the alarm is sounding,
 * and the handlers that change them.
 *
 * The rows and the manager's list hold references to the same `Task`
 * objects; completing a row or marking it notified changes the shared
 * object in place.
 */
module App {
  import opened Options
  import opened Clock
  import opened Sequences
  import opened InputText
  import opened Deadlines
  import opened Tasks
  import opened Monitor
  import opened Persistence
  import opened Store

  /** How the add handler ends. */
  datatype AddOutcome =
    | Added              // the task is in the manager and has a row
    | EmptyDescription   // "Input Error": the stripped description is empty
    | InvalidTime        // "Invalid Time Format": `add_task` returned `None`

  class MustDo {
    const manager: TaskManager
    var rows: seq<Task>          // the task each row of the list widget holds, top to bottom
    var alarmSounding: bool      // the alarm is playing and the stop button shows

    ghost predicate Valid()
      reads this, manager
    {
      manager.Valid() && Distinct(rows)
    }

    /** The rows show exactly the manager's tasks, in the manager's order. */
    ghost predicate Synced()
      reads this, manager
    {
      rows == manager.tasks
    }

    /**
     * Start-up: load the tasks file and give every loaded task a row. When
     * loading raises, the error is reported and no row is added, although
     * the manager keeps the tasks it had read before the failure.
     */
    constructor (file: File)
      ensures Valid() && fresh(manager) && !alarmSounding
      ensures forall t :: t in manager.tasks ==> fresh(t)
      ensures Values(manager.tasks) == Loaded(file)
      ensures if LoadRaises(file) then rows == [] else Synced()
    {
      var m := new TaskManager();
      var ok := m.LoadTasks(file);
      manager := m;
      rows := if ok then m.tasks else [];
      alarmSounding := false;
    }

    /**
     * The add handler: `input` is the text field, `timeText` the time
     * editor's text, `now` the clock reading `add_task` takes. The stripped
     * description must not be empty; a new task gets a row at the bottom.
     */
    method AddTask(input: string, timeText: string, now: Time) returns (outcome: AddOutcome)
      requires Valid()
      modifies this`rows, manager
      ensures Valid()
      ensures outcome == EmptyDescription <==> Strip(input) == []
      ensures outcome == InvalidTime <==> Strip(input) != [] && Schedule(Some(timeText), now).BadTime?
      ensures outcome != Added ==> rows == old(rows) && manager.tasks == old(manager.tasks)
      ensures outcome == Added ==>
        && |rows| == |old(rows)| + 1 && rows[..|old(rows)|] == old(rows) && fresh(rows[|old(rows)|])
        && manager.tasks == old(manager.tasks) + [rows[|old(rows)|]]
        && Values(rows) == old(Values(rows)) + [TaskValue(Strip(input), DeadlineField(Schedule(Some(timeText), now)), false, false)]
      ensures old(Synced()) ==> Synced()
    {
      var description := Strip(input);
      if description == [] {
        return EmptyDescription;
      }
      ghost var shown := Values(rows);
      var task := manager.AddTask(description, Some(timeText), now);
      if task == null {
        return InvalidTime;
      }
      assert Values(rows) == shown && task !in rows;
      rows := rows + [task];
      assert Values(rows) == shown + [task.Value()];
      outcome := Added;
    }

    /** The double-click handler: the row's task becomes completed; nothing else changes. */
    method CompleteTask(row: nat)
      requires Valid() && row < |rows|
      modifies {rows[row]}`completed
      ensures Valid()
      ensures rows[row].completed
      ensures Values(rows) == old(Values(rows))[row := old(rows[row].Value()).(completed := true)]
    {
      rows[row].completed := true;
    }

    /**
     * `stop_alarm` at clock reading `now`: the alarm stops, and every task
     * whose deadline has passed is marked notified, completed or not.
     */
    method StopAlarm(now: Time)
      requires Valid()
      modifies rows`notified, this`alarmSounding
      ensures Valid()
      ensures !alarmSounding
      ensures Values(rows) == SilenceAll(old(Values(rows)), now)
    {
      alarmSounding := false;
      ghost var before := Values(rows);
      var i := 0;
      while i < |rows|
        invariant 0 <= i <= |rows|
        invariant forall j :: 0 <= j < i ==> rows[j].Value() == SilenceAll(before, now)[j]
        invariant forall j :: i <= j < |rows| ==> rows[j].Value() == before[j]
        invariant !alarmSounding
        invariant Valid()
      {
        var task := rows[i];
        assert forall j :: 0 <= j < |rows| && j != i ==> rows[j] != task;
        SilenceAllExact(before, now, i);
        if task.deadline.Some? && task.deadline.value <= now {
          task.notified := true;
        }
        i := i + 1;
      }
    }

    /**
     * The loop of `check_deadlines`: every task that raises the alarm is
     * marked notified; `alarmNeeded` says whether any was.
     */
    method MarkDueTasks(now: Time) returns (alarmNeeded: bool)
      requires Valid()
      modifies rows`notified
      ensures Valid()
      ensures Values(rows) == MarkDue(old(Values(rows)), now)
      ensures alarmNeeded == AnyAlarming(old(Values(rows)), now)
    {
      ghost var before := Values(rows);
      ghost var after := MarkDue(before, now);
      alarmNeeded := false;
      var i := 0;
      while i < |rows|
        invariant 0 <= i <= |rows|
        invariant forall j :: 0 <= j < |rows| ==> rows[j].Value() == if j < i then after[j] else before[j]
        invariant alarmNeeded <==> exists j :: 0 <= j < i && Alarming(before[j], now)
      {
        var task := rows[i];
        assert forall j :: 0 <= j < |rows| && j != i ==> rows[j] != task;
        MarkDueExact(before, now, i);
        var marked := MarkIfAlarming(task, now);
        alarmNeeded := alarmNeeded || marked;
        i := i + 1;
      }
    }

    /**
     * The timer handler `check_deadlines`: mark the tasks that raise the
     * alarm at clock reading `now`; if any did, the alarm plays; otherwise,
     * if no notified task is left open, `stop_alarm` runs, reading the clock
     * again (`stopAt`).
     */
    method CheckDeadlines(now: Time, stopAt: Time) returns (alarmNeeded: bool)
      requires Valid()
      modifies rows`notified, this`alarmSounding
      ensures Valid()
      ensures var tick := Check(old(Values(rows)), now, stopAt);
        && Values(rows) == tick.tasks
        && alarmNeeded == (tick.action == Play)
        && alarmSounding == match tick.action
                            case Play => true
                            case Stop => false
                            case Keep => old(alarmSounding)
    {
      alarmNeeded := MarkDueTasks(now);
      if alarmNeeded {
        alarmSounding := true;
      } else if !AlarmActive(Values(rows)) {
        StopAlarm(stopAt);
      }
    }

    /**
     * The delete handler as written: `list.remove` drops the manager's first
     * task that is `==` to the row's task (equal fields, not necessarily the
     * same object), then the clicked row goes. When no task is equal,
     * `remove` raises, the error is reported and nothing changes.
     */
    method DeleteTaskAsWritten(row: nat) returns (ok: bool)
      requires Valid() && row < |rows|
      modifies this`rows, manager`tasks
      ensures Valid()
      ensures var k := FirstIndex(old(Values(manager.tasks)), old(rows[row].Value()));
        if k < |old(manager.tasks)| then
          ok && manager.tasks == RemoveAt(old(manager.tasks), k) && rows == RemoveAt(old(rows), row)
        else
          !ok && manager.tasks == old(manager.tasks) && rows == old(rows)
    {
      var k := FirstIndex(Values(manager.tasks), rows[row].Value());
      if k == |manager.tasks| {
        return false;
      }
      RemoveAtDistinct(manager.tasks, k);
      RemoveAtDistinct(rows, row);
      manager.tasks := RemoveAt(manager.tasks, k);
      rows := RemoveAt(rows, row);
      ok := true;
    }

    /**
     * The delete handler as intended: the manager drops the very task the
     * clicked row holds, and the row goes. Rows and manager stay in step.
     */
    method DeleteTask(row: nat) returns (ok: bool)
      requires Valid() && row < |rows|
      modifies this`rows, manager`tasks
      ensures Valid()
      ensures var k := FirstIndex(old(manager.tasks), old(rows[row]));
        if k < |old(manager.tasks)| then
          ok && manager.tasks == RemoveAt(old(manager.tasks), k) && rows == RemoveAt(old(rows), row)
        else
          !ok && manager.tasks == old(manager.tasks) && rows == old(rows)
      ensures old(Synced()) ==> ok && Synced()
    {
      if Synced() {
        FirstIndexOfDistinct(rows, row);
      }
      var k := FirstIndex(manager.tasks, rows[row]);
      if k == |manager.tasks| {
        return false;
      }
      RemoveAtDistinct(manager.tasks, k);
      RemoveAtDistinct(rows, row);
      manager.tasks := RemoveAt(manager.tasks, k);
      rows := RemoveAt(rows, row);
      ok := true;
    }
  }

  /** The file holding two equal tasks: same description, no deadline, both flags false. */
  function TwinTasksFile(): File
  {
    var e := Object(Some("Buy milk"), Some(None), Some(false), Some(false));
    Array([e, e])
  }

  /** Loading that file raises nothing and gives the two equal tasks. */
  lemma TwinTasksFileLoads()
    ensures !LoadRaises(TwinTasksFile())
    ensures Loaded(TwinTasksFile()) == [TaskValue("Buy milk", None, false, false), TaskValue("Buy milk", None, false, false)]
  {
    var es := TwinTasksFile().entries;
    assert es[1..][1..] == [];
  }

  /**
   * With the delete handler as written: load two equal tasks, delete the
   * second row, complete the row that is left. The row shows the task
   * completed, but the manager kept the other object, so the file saved
   * next records it as not completed.
   */
  method DuplicateDeleteLosesCompletion() returns (shown: TaskValue, saved: File)
    ensures shown.completed
    ensures saved == Array([Record(TaskValue("Buy milk", None, false, false))])
  {
    TwinTasksFileLoads();
    var app := new MustDo(TwinTasksFile());
    var first, second := app.rows[0], app.rows[1];
    assert first in app.manager.tasks && fresh(first) && first != second;
    var ok := app.DeleteTaskAsWritten(1);
    assert app.rows == [first] && app.manager.tasks == [second];
    app.CompleteTask(0);
    assert second.Value() == TaskValue("Buy milk", None, false, false);
    shown := app.rows[0].Value();
    saved := app.manager.SaveTasks();
  }

  /** The same steps with the intended delete: the saved file records the completion. */
  method DuplicateDeleteKeepsCompletion() returns (shown: TaskValue, saved: File)
    ensures shown.completed
    ensures saved == Array([Record(TaskValue("Buy milk", None, true, false))])
  {
    TwinTasksFileLoads();
    var app := new MustDo(TwinTasksFile());
    var first, second := app.rows[0], app.rows[1];
    assert first in app.manager.tasks && fresh(first) && first != second;
    var ok := app.DeleteTask(1);
    assert app.rows == [first] && app.manager.tasks == [first];
    app.CompleteTask(0);
    assert first.Value() == TaskValue("Buy milk", None, true, false);
    shown := app.rows[0].Value();
    saved := app.manager.SaveTasks();
  }

  /** One pass of the `check_deadlines` loop: the task is marked notified when it raises the alarm. */
  method MarkIfAlarming(task: Task, now: Time) returns (marked: bool)
    modifies task`notified
    ensures marked == Alarming(old(task.Value()), now)
    ensures task.Value() == if marked then old(task.Value()).(notified := true) else old(task.Value())
  {
    marked := task.deadline.Some? && !task.completed && !task.notified && task.deadline.value <= now;
    if marked {
      task.notified := true;
    }
  }

  /** A file whose second element is not an object: a task before it, and one after it. */
  function PartialTasksFile(): File
  {
    Array([
      Object(Some("Pay rent"), Some(None), Some(false), Some(false)),
      NonObject,
      Object(Some("Call back"), Some(None), Some(false), Some(false))])
  }

  /** Loading that file raises after the first task. */
  lemma PartialTasksFileLoads()
    ensures LoadRaises(PartialTasksFile())
    ensures Loaded(PartialTasksFile()) == [TaskValue("Pay rent", None, false, false)]
  {
    var es := PartialTasksFile().entries;
    assert es[1].NonObject?;
    assert es[1..][0] == NonObject;
  }

  /** What the add handler makes of "Water plants" and "09:07" at 08:00. */
  lemma WaterPlantsIsAdded()
    ensures Strip("Water plants") == "Water plants"
    ensures DeadlineField(Schedule(Some("09:07"), 8 * Hour)) == Some(9 * Hour + 7 * Minute)
  {
    RolloverExamples();
    var s := "Water plants";
    assert !IsSpace(s[0]) && !IsSpace(s[|s| - 1]);
    assert TrimStart(s) == s;
    assert TrimEnd(s) == s;
  }

  /**
   * Start-up with that file: loading raises, so no row is shown, but the
   * manager keeps the task read before the failure. After one task is
   * added, the rows show only the new task, while the next save writes the
   * hidden task and the new one; the task after the bad element is lost.
   */
  method PartialLoadHidesAndLosesTasks() returns (shownAtStart: nat, shown: seq<TaskValue>, saved: File)
    ensures shownAtStart == 0
    ensures shown == [TaskValue("Water plants", Some(9 * Hour + 7 * Minute), false, false)]
    ensures saved == Array(Encode([
      TaskValue("Pay rent", None, false, false),
      TaskValue("Water plants", Some(9 * Hour + 7 * Minute), false, false)]))
  {
    PartialTasksFileLoads();
    var app := new MustDo(PartialTasksFile());
    shownAtStart := |app.rows|;
    var hidden := app.manager.tasks[0];
    assert hidden.Value() == TaskValue("Pay rent", None, false, false);
    WaterPlantsIsAdded();
    var outcome := app.AddTask("Water plants", "09:07", 8 * Hour);
    var added := TaskValue("Water plants", Some(9 * Hour + 7 * Minute), false, false);
    assert outcome == Added;
    var task := app.rows[0];
    assert app.manager.tasks == [hidden, task] && task.Value() == added;
    shown := Values(app.rows);
    var values := [hidden.Value(), task.Value()];
    assert Values(app.manager.tasks) == values;
    saved := app.manager.SaveTasks();
  }
}
