/** One task: a name, a done flag that is the only thing that ever changes,
    and the variant (to-do, deadline, event) fixed when the task is made.
    The Java classes `Task`, `ToDo`, `Deadline` and `Event` are one class here,
    tagged with its `kind`. */
module Tasks {

  /** The variant of a task and the extra fields it carries. */
  datatype Kind =
    | PlainTask
    | ToDoTask
    | DeadlineTask(due: string)
    | EventTask(startTime: string, endTime: string)

  /** The observable state of a task at one moment. */
  datatype TaskValue = TaskValue(name: string, done: bool, kind: Kind)

  /** The state after marking a task as done. */
  function MarkedDone(v: TaskValue): (r: TaskValue)
    ensures r.done
    ensures r.name == v.name && r.kind == v.kind
  {
    v.(done := true)
  }

  /** The state after marking a task as not done. */
  function MarkedNotDone(v: TaskValue): (r: TaskValue)
    ensures !r.done
    ensures r.name == v.name && r.kind == v.kind
  {
    v.(done := false)
  }

  /** Marking done twice is marking done once. */
  lemma MarkDoneIdempotent(v: TaskValue)
    ensures MarkedDone(MarkedDone(v)) == MarkedDone(v)
  {
  }

  /** Marking not done twice is marking not done once. */
  lemma MarkNotDoneIdempotent(v: TaskValue)
    ensures MarkedNotDone(MarkedNotDone(v)) == MarkedNotDone(v)
  {
  }

  /** Marking and then unmarking leaves the task not done and otherwise as it was. */
  lemma MarkThenUnmark(v: TaskValue)
    ensures MarkedNotDone(MarkedDone(v)) == v.(done := false)
  {
  }

  const DoneIcon: string := "[X]"
  const NotDoneIcon: string := "[ ]"

  class Task {
    const taskName: string
    var isDone: bool
    const kind: Kind

    /** `new Task(taskName)`: a plain task, not done. */
    constructor (taskName: string)
      ensures this.taskName == taskName && !isDone && kind == PlainTask
    {
      this.taskName := taskName;
      this.isDone := false;
      this.kind := PlainTask;
    }

    /** `new ToDo(description)`. */
    constructor ToDo(description: string)
      ensures taskName == description && !isDone && kind == ToDoTask
    {
      taskName := description;
      isDone := false;
      kind := ToDoTask;
    }

    /** `new Deadline(description, due)`, once the due text has been accepted. */
    constructor Deadline(description: string, due: string)
      ensures taskName == description && !isDone && kind == DeadlineTask(due)
    {
      taskName := description;
      isDone := false;
      kind := DeadlineTask(due);
    }

    /** `new Event(description, startTime, endTime)`: both times stored as given, not done. */
    constructor Event(description: string, startTime: string, endTime: string)
      ensures taskName == description && !isDone
      ensures kind == EventTask(startTime, endTime)
    {
      taskName := description;
      isDone := false;
      kind := EventTask(startTime, endTime);
    }

    /** The task's current state as a value. */
    function Value(): TaskValue
      reads this
    {
      TaskValue(taskName, isDone, kind)
    }

    method MarkAsDone()
      modifies this
      ensures Value() == MarkedDone(old(Value()))
    {
      isDone := true;
    }

    method MarkAsNotDone()
      modifies this
      ensures Value() == MarkedNotDone(old(Value()))
    {
      isDone := false;
    }

    /** `[X]` for a done task, `[ ]` otherwise. */
    function StatusIcon(): (r: string)
      reads this
      ensures |r| == 3
      ensures r == DoneIcon <==> isDone
      ensures r == NotDoneIcon <==> !isDone
    {
      if isDone then DoneIcon else NotDoneIcon
    }

    /** The rendering shared by every task: status icon, a space, the name. */
    function ToString(): (r: string)
      reads this
      ensures |r| == 4 + |taskName|
      ensures r[..3] == StatusIcon() && r[3] == ' '
      ensures r[4..] == taskName
    {
      StatusIcon() + " " + taskName
    }

    /** The rendering of an event: `[E]`, the shared rendering, then the two
        times in parentheses. */
    function EventString(): (r: string)
      reads this
      requires kind.EventTask?
      ensures |r| == 21 + |taskName| + |kind.startTime| + |kind.endTime|
      ensures r[..3] == "[E]"
      ensures r[..6] == (if isDone then "[E][X]" else "[E][ ]")
      ensures r[3..7 + |taskName|] == ToString()
      ensures r[7 + |taskName|..] == " (from: " + kind.startTime + " to: " + kind.endTime + ")"
    {
      "[E]" + ToString() + " (from: " + kind.startTime + " to: " + kind.endTime + ")"
    }
  }

  /** Two tasks render alike exactly when they have the same name and the same done flag. */
  lemma ToStringDeterminesTask(a: Task, b: Task)
    ensures a.ToString() == b.ToString() <==> a.taskName == b.taskName && a.isDone == b.isDone
  {
    if a.ToString() == b.ToString() {
      assert a.ToString()[4..] == b.ToString()[4..];
      assert a.StatusIcon() == a.ToString()[..3] == b.ToString()[..3] == b.StatusIcon();
    }
  }

  /** Two events with the same times render alike exactly when their names and done flags agree. */
  lemma EventStringDeterminesTask(a: Task, b: Task)
    requires a.kind.EventTask? && a.kind == b.kind
    ensures a.EventString() == b.EventString() <==> a.taskName == b.taskName && a.isDone == b.isDone
  {
    var suffix := " (from: " + a.kind.startTime + " to: " + a.kind.endTime + ")";
    if a.EventString() == b.EventString() {
      var s := a.EventString();
      assert |s| == 7 + |a.taskName| + |suffix| == 7 + |b.taskName| + |suffix|;
      assert a.ToString() == s[3..7 + |a.taskName|] == b.ToString();
      ToStringDeterminesTask(a, b);
    }
  }
}
