/** The chatbot's command handling: the task list it owns, the commands that
    change it, and one pass of the main loop. Console output and the storage
    file are not modelled; a write to storage is recorded as the list
    contents it would write (`saved`). */
module Chatbot {
  import opened JavaText
  import opened Tasks
  import opened TaskLists
  import opened Commands

  /** What `executeSingleCommand` puts on the console. */
  datatype Display = ShowList(entries: seq<TaskValue>) | ShowFarewell | ShowNothing

  class Duke {
    const tasks: TaskList
    /** The list as it was last written to storage. */
    var saved: seq<TaskValue>

    ghost predicate Valid()
      reads this, tasks
    {
      tasks.Valid()
    }

    /** A session over an empty list; loading a stored list is not modelled. */
    constructor ()
      ensures Valid() && fresh(tasks)
      ensures tasks.View() == [] && saved == []
    {
      tasks := new TaskList();
      saved := [];
    }

    /** `addTask`: build the task the command names from `taskInfo` and append it.
        A missing piece of a `split` result is `Malformed`; a due text the
        deadline constructor refuses is `InvalidDate`. */
    method AddTask(command: Command, taskInfo: string, validDate: string -> bool) returns (outcome: Outcome)
      requires Valid() && IsAddCommand(command)
      modifies tasks
      ensures Valid()
      ensures match NewTask(command, taskInfo, validDate)
        case Created(v) => outcome == Continue && tasks.View() == old(tasks.View()) + [v]
        case NotCreated(reason) => outcome == reason && tasks.View() == old(tasks.View())
    {
      var newTask: Task;
      if command == Todo {
        newTask := new Task.ToDo(taskInfo);
      } else if command == Deadline {
        var deadlineInfo := Split(taskInfo, ByDelimiter);
        if |deadlineInfo| < 2 {
          return Malformed;
        }
        if !validDate(deadlineInfo[1]) {
          return InvalidDate;
        }
        newTask := new Task.Deadline(deadlineInfo[0], deadlineInfo[1]);
      } else {
        var eventInfo := Split(taskInfo, FromDelimiter);
        if |eventInfo| < 2 {
          return Malformed;
        }
        var eventTime := Split(eventInfo[1], ToDelimiter);
        if |eventTime| < 2 {
          return Malformed;
        }
        newTask := new Task.Event(eventInfo[0], eventTime[0], eventTime[1]);
      }
      tasks.AddTask(newTask);
      outcome := Continue;
    }

    /** `editTask`: delete, mark or unmark the task at a valid 1-based index. */
    method EditTask(command: Command, taskIndex: int)
      requires Valid() && IsEditCommand(command) && tasks.IsValidIndex(taskIndex)
      modifies tasks, tasks.items
      ensures Valid()
      ensures tasks.View() == Edit(command, old(tasks.View()), taskIndex)
    {
      if command == Delete {
        tasks.DeleteTask(taskIndex);
      } else if command == Mark {
        tasks.MarkTask(taskIndex);
      } else {
        tasks.UnmarkTask(taskIndex);
      }
    }

    /** `executeSingleCommand`: `list` shows the whole list, `bye` the
        farewell; nothing changes. */
    method ExecuteSingleCommand(command: Command) returns (shown: Display)
      ensures command == List ==> shown.ShowList? && shown.entries == tasks.View()
      ensures command == Bye ==> shown == ShowFarewell
      ensures command != List && command != Bye ==> shown == ShowNothing
    {
      if command == List {
        shown := ShowList(tasks.View());
      } else if command == Bye {
        shown := ShowFarewell;
      } else {
        shown := ShowNothing;
      }
    }

    /** `runCommand`: one command on the list, given the line cut by
        `split(" ", 2)`. `bye` writes the list itself; the checks of `delete`,
        `mark` and `unmark`, written out three times in the source, are one
        branch here. */
    method RunCommand(command: Command, inputs: seq<string>, validDate: string -> bool) returns (outcome: Outcome)
      requires Valid() && 1 <= |inputs| <= 2
      modifies this, tasks, tasks.items
      ensures Valid()
      ensures outcome == Dispatch(old(tasks.View()), command, inputs, validDate).outcome
      ensures tasks.View() == Dispatch(old(tasks.View()), command, inputs, validDate).tasks
      ensures saved == if command == Bye then tasks.View() else old(saved)
    {
      if command == Bye {
        saved := tasks.View();
        return Stop;
      } else if IsAddCommand(command) {
        if |inputs| == 1 || inputs[0] == "" {
          return EmptyArgument;
        }
        outcome := AddTask(command, inputs[1], validDate);
      } else if IsEditCommand(command) {
        if |inputs| == 1 || inputs[1] == "" {
          return EmptyArgument;
        }
        var index := ParseInt(inputs[1]);
        if index.None? || !tasks.IsValidIndex(index.value) {
          return InvalidIndex(tasks.Size());
        }
        EditTask(command, index.value);
        outcome := Continue;
      } else if command == List {
        var _ := ExecuteSingleCommand(List);
        outcome := Continue;
      } else {
        outcome := UnknownCommand;
      }
    }

    /** The body of the main loop for one line whose command kind the parser
        has already found: split, run, and write the list unless the command
        threw. `wrote` says whether storage was written during the pass. */
    method ProcessLine(command: Command, line: string, validDate: string -> bool) returns (outcome: Outcome, wrote: bool)
      requires Valid()
      modifies this, tasks, tasks.items
      ensures Valid()
      ensures var s := LineStep(old(tasks.View()), command, line, validDate);
        outcome == s.outcome && tasks.View() == s.tasks && wrote == s.wrote
      ensures saved == if wrote then tasks.View() else old(saved)
    {
      var inputs := SplitOnce(line, Space);
      outcome := RunCommand(command, inputs, validDate);
      if outcome == Continue {
        saved := tasks.View();
      }
      wrote := outcome == Continue || outcome == Stop;
    }
  }
}
