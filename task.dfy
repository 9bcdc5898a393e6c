/** The `Task` dataclass: one to-do item, updated in place by the window's handlers. */
module Tasks {
  import opened Options
  import opened Clock

  /**
   * The fields of a `Task`, as one value. The dataclass compares its fields
   * in order, so two tasks are `==` in Python exactly when their values are.
   */
  datatype TaskValue = TaskValue(
    description: string,
    deadline: Option<Time>,
    completed: bool,
    notified: bool)

  class Task {
    var description: string
    var deadline: Option<Time>
    var completed: bool     // set by a double click; never cleared
    var notified: bool      // the alarm has already fired for this task

    /** `Task(description=..., deadline=...)`: the two flags take their defaults. */
    constructor (description: string, deadline: Option<Time>)
      ensures Value() == TaskValue(description, deadline, false, false)
    {
      this.description := description;
      this.deadline := deadline;
      this.completed := false;
      this.notified := false;
    }

    /** `Task(**fields)`, every field given. */
    constructor FromValue(v: TaskValue)
      ensures Value() == v
    {
      description := v.description;
      deadline := v.deadline;
      completed := v.completed;
      notified := v.notified;
    }

    function Value(): TaskValue
      reads this
    {
      TaskValue(description, deadline, completed, notified)
    }
  }

  /** The values of a list of tasks, in list order. */
  function Values(ts: seq<Task>): (vs: seq<TaskValue>)
    reads ts
    ensures |vs| == |ts|
    ensures forall i :: 0 <= i < |ts| ==> vs[i] == ts[i].Value()
  {
    seq(|ts|, i requires 0 <= i < |ts| reads ts => ts[i].Value())
  }
}
