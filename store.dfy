/** `TaskManager`: the ordered list of tasks, with adding, saving and loading. */
module Store {
  import opened Options
  import opened Clock
  import opened Sequences
  import opened Deadlines
  import opened Tasks
  import opened Persistence

  /** The deadline field a task gets from a time text that did not fail to parse. */
  function DeadlineField(s: Scheduled): Option<Time>
  {
    if s.DueAt? then Some(s.at) else None
  }

  class TaskManager {
    var tasks: seq<Task>

    /** Every task object is listed once: each is created by one `add_task` or one load. */
    ghost predicate Valid()
      reads this
    {
      Distinct(tasks)
    }

    constructor ()
      ensures Valid() && tasks == []
    {
      tasks := [];
    }

    /**
     * `add_task(description, deadline_str)` at clock reading `now`. A time
     * text that does not parse gives `None` (`null`) and leaves the list as
     * it was; otherwise one new task, with both flags false, goes to the end
     * and the tasks before it are untouched.
     */
    method AddTask(description: string, deadlineText: Option<string>, now: Time) returns (task: Task?)
      requires Valid()
      modifies this
      ensures Valid()
      ensures Schedule(deadlineText, now).BadTime? ==> task == null && tasks == old(tasks)
      ensures !Schedule(deadlineText, now).BadTime? ==>
        && task != null && fresh(task)
        && task.Value() == TaskValue(description, DeadlineField(Schedule(deadlineText, now)), false, false)
        && tasks == old(tasks) + [task]
        && Values(tasks) == old(Values(tasks)) + [TaskValue(description, DeadlineField(Schedule(deadlineText, now)), false, false)]
    {
      var scheduled := Schedule(deadlineText, now);
      if scheduled.BadTime? {
        return null;
      }
      task := new Task(description, DeadlineField(scheduled));
      tasks := tasks + [task];
    }

    /** `save_tasks`: the JSON array written to the file, one record per task in list order. */
    method SaveTasks() returns (saved: File)
      ensures saved == Array(Encode(Values(tasks)))
    {
      var records: seq<Entry> := [];
      var i := 0;
      while i < |tasks|
        invariant 0 <= i <= |tasks|
        invariant |records| == i
        invariant forall j :: 0 <= j < i ==> records[j] == Record(tasks[j].Value())
      {
        var t := tasks[i];
        records := records + [Object(Some(t.description), Some(t.deadline), Some(t.completed), Some(t.notified))];
        i := i + 1;
      }
      saved := Array(records);
    }

    /**
     * `load_tasks`: the list is replaced by new tasks built from the file.
     * A missing or corrupt file gives an empty list; an element that is not
     * an object makes the method raise (`ok` false) after the tasks before it
     * have been appended.
     */
    method LoadTasks(file: File) returns (ok: bool)
      modifies this
      ensures Valid()
      ensures forall t :: t in tasks ==> fresh(t)
      ensures Values(tasks) == Loaded(file)
      ensures ok == !LoadRaises(file)
    {
      ok := true;
      tasks := [];
      if file.Array? {
        var es := file.entries;
        var i := 0;
        while i < |es|
          invariant 0 <= i <= |es| && |tasks| == i
          invariant ok && Distinct(tasks)
          invariant forall t :: t in tasks ==> fresh(t)
          invariant forall j :: 0 <= j < i ==> es[j].Object? && tasks[j].Value() == Decode(es[j])
        {
          if es[i].NonObject? {
            ok := false;
            break;
          }
          var t := new Task.FromValue(Decode(es[i]));
          tasks := tasks + [t];
          i := i + 1;
        }
        LoadedPrefix(es, i);
      }
    }
  }
}
