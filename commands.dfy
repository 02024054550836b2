/** What one input line does to the task list, as values: the reference
    definition the chatbot's imperative dispatcher is proved against, and the
    properties of it that the dispatcher promises. */
module Commands {
  import opened JavaText
  import opened Tasks

  /** The command kind the parser assigns to a line. */
  datatype Command = Todo | Deadline | Event | Delete | Mark | Unmark | List | Bye | Unknown

  predicate IsAddCommand(c: Command)
  {
    c == Todo || c == Deadline || c == Event
  }

  predicate IsEditCommand(c: Command)
  {
    c == Delete || c == Mark || c == Unmark
  }

  /** How a command ends: the session goes on, the session stops, or one of
      the errors the main loop catches and reports. `Malformed` is the array
      access past the end of a `split` result; `InvalidDate` is the deadline
      constructor rejecting its due text. */
  datatype Outcome =
    | Continue
    | Stop
    | EmptyArgument
    | InvalidIndex(size: nat)
    | UnknownCommand
    | Malformed
    | InvalidDate

  /** The command returned normally (rather than throwing). */
  predicate Succeeded(o: Outcome)
  {
    o == Continue || o == Stop
  }

  const Space: string := " "
  const ByDelimiter: string := " /by "
  const FromDelimiter: string := " /from "
  const ToDelimiter: string := " /to "

  datatype Creation = Created(task: TaskValue) | NotCreated(reason: Outcome)

  /** The task `addTask` builds from the text after the command word, or why it cannot. */
  function NewTask(command: Command, taskInfo: string, validDate: string -> bool): (c: Creation)
    requires IsAddCommand(command)
    ensures c.Created? ==> !c.task.done
    ensures c.NotCreated? ==> command != Todo && (c.reason == Malformed || c.reason == InvalidDate)
    ensures c == NotCreated(InvalidDate) ==> command == Deadline
  {
    if command == Todo then
      Created(TaskValue(taskInfo, false, ToDoTask))
    else if command == Deadline then
      var info := Split(taskInfo, ByDelimiter);
      if |info| < 2 then NotCreated(Malformed)
      else if !validDate(info[1]) then NotCreated(InvalidDate)
      else Created(TaskValue(info[0], false, DeadlineTask(info[1])))
    else
      var info := Split(taskInfo, FromDelimiter);
      if |info| < 2 then NotCreated(Malformed)
      else
        var time := Split(info[1], ToDelimiter);
        if |time| < 2 then NotCreated(Malformed)
        else Created(TaskValue(info[0], false, EventTask(time[0], time[1])))
  }

  datatype IndexArg = Resolved(index: nat) | Rejected(reason: Outcome)

  /** The checks `delete`, `mark` and `unmark` make of their argument before
      touching the list: present and non-empty, an `int`, and a valid index. */
  function IndexArgument(inputs: seq<string>, size: nat): (a: IndexArg)
    requires 1 <= |inputs| <= 2
    ensures a.Resolved? <==>
      |inputs| == 2 && ParseInt(inputs[1]).Some? && 1 <= ParseInt(inputs[1]).value <= size
    ensures a.Resolved? ==> a.index as int == ParseInt(inputs[1]).value
    ensures a == Rejected(EmptyArgument) <==> |inputs| == 1 || inputs[1] == ""
    ensures a.Rejected? && a.reason != EmptyArgument ==> a.reason == InvalidIndex(size)
  {
    if |inputs| == 1 || inputs[1] == "" then Rejected(EmptyArgument)
    else match ParseInt(inputs[1])
      case None => Rejected(InvalidIndex(size))
      case Some(n) => if 1 <= n <= size then Resolved(n) else Rejected(InvalidIndex(size))
  }

  /** The list after `editTask` at a valid 1-based index. */
  function Edit(command: Command, ts: seq<TaskValue>, i: nat): (r: seq<TaskValue>)
    requires IsEditCommand(command) && 1 <= i <= |ts|
    ensures command == Delete ==> |r| == |ts| - 1
    ensures command == Delete ==> forall j :: 0 <= j < i - 1 ==> r[j] == ts[j]
    ensures command == Delete ==> forall j :: i - 1 <= j < |r| ==> r[j] == ts[j + 1]
    ensures command != Delete ==> |r| == |ts|
    ensures command != Delete ==> forall j :: 0 <= j < |ts| && j != i - 1 ==> r[j] == ts[j]
    ensures command == Mark ==> r[i - 1] == MarkedDone(ts[i - 1])
    ensures command == Unmark ==> r[i - 1] == MarkedNotDone(ts[i - 1])
  {
    if command == Delete then ts[..i - 1] + ts[i..]
    else if command == Mark then ts[i - 1 := MarkedDone(ts[i - 1])]
    else ts[i - 1 := MarkedNotDone(ts[i - 1])]
  }

  datatype Transition = Transition(outcome: Outcome, tasks: seq<TaskValue>)

  /** `runCommand` on a list `ts`, given the line as `split(" ", 2)` cut it. */
  function Dispatch(ts: seq<TaskValue>, command: Command, inputs: seq<string>, validDate: string -> bool)
    : (t: Transition)
    requires 1 <= |inputs| <= 2
    ensures t.outcome == Stop <==> command == Bye
    ensures !Succeeded(t.outcome) ==> t.tasks == ts
    ensures command == Bye || command == List ==> t.tasks == ts
  {
    if command == Bye then Transition(Stop, ts)
    else if IsAddCommand(command) then
      if |inputs| == 1 || inputs[0] == "" then Transition(EmptyArgument, ts)
      else match NewTask(command, inputs[1], validDate)
        case Created(v) => Transition(Continue, ts + [v])
        case NotCreated(reason) => Transition(reason, ts)
    else if IsEditCommand(command) then
      match IndexArgument(inputs, |ts|)
      case Resolved(i) => Transition(Continue, Edit(command, ts, i))
      case Rejected(reason) => Transition(reason, ts)
    else if command == List then Transition(Continue, ts)
    else Transition(UnknownCommand, ts)
  }

  datatype Step = Step(outcome: Outcome, tasks: seq<TaskValue>, wrote: bool)

  /** One pass of the main loop's body: split the line, run the command, and
      write the list to storage unless the command threw (`bye` writes inside
      `runCommand`, every other command after it returns). */
  function LineStep(ts: seq<TaskValue>, command: Command, line: string, validDate: string -> bool)
    : (s: Step)
    ensures s.outcome == Stop <==> command == Bye
    ensures s.wrote <==> s.outcome == Continue || s.outcome == Stop
    ensures !s.wrote ==> s.tasks == ts
  {
    var t := Dispatch(ts, command, SplitOnce(line, Space), validDate);
    Step(t.outcome, t.tasks, Succeeded(t.outcome))
  }

  // ---------------------------------------------------------------- bye

  /** `bye` stops the session, leaves the list alone and writes it. */
  lemma ByeStopsAndWrites(ts: seq<TaskValue>, line: string, validDate: string -> bool)
    ensures LineStep(ts, Bye, line, validDate) == Step(Stop, ts, true)
  {
  }

  /** Every command other than `bye` that returns normally continues the session. */
  lemma OthersContinue(ts: seq<TaskValue>, command: Command, inputs: seq<string>, validDate: string -> bool)
    requires 1 <= |inputs| <= 2 && command != Bye
    ensures Succeeded(Dispatch(ts, command, inputs, validDate).outcome) ==>
      Dispatch(ts, command, inputs, validDate).outcome == Continue
  {
  }

  // ---------------------------------------------------------------- storage

  /** The list is written exactly when the command returned normally, and a
      command that threw leaves the list as it was. */
  lemma WriteExactlyOnSuccess(ts: seq<TaskValue>, command: Command, line: string, validDate: string -> bool)
    ensures var s := LineStep(ts, command, line, validDate);
      (s.wrote <==> s.outcome == Continue || s.outcome == Stop) && (!s.wrote ==> s.tasks == ts)
  {
  }

  /** `list` changes nothing, continues and still triggers a write. */
  lemma ListWritesUnchanged(ts: seq<TaskValue>, line: string, validDate: string -> bool)
    ensures LineStep(ts, List, line, validDate) == Step(Continue, ts, true)
  {
  }

  /** An unrecognised command fails, changes nothing and writes nothing. */
  lemma UnknownFails(ts: seq<TaskValue>, line: string, validDate: string -> bool)
    ensures LineStep(ts, Unknown, line, validDate) == Step(UnknownCommand, ts, false)
  {
  }

  // ---------------------------------------------------------------- adding

  /** `todo`, `deadline` and `event` report a missing argument exactly when
      the line had no space or the command word itself is empty: the check
      looks at the command word, not at the description. */
  lemma AddEmptyArgument(ts: seq<TaskValue>, command: Command, inputs: seq<string>, validDate: string -> bool)
    requires 1 <= |inputs| <= 2 && IsAddCommand(command)
    ensures Dispatch(ts, command, inputs, validDate).outcome == EmptyArgument <==>
      |inputs| == 1 || inputs[0] == ""
  {
  }

  /** Splitting a line whose command word has no space at the first space. */
  lemma {:induction false} SplitCommandLine(keyword: string, rest: string)
    requires ' ' !in keyword
    ensures SplitOnce(keyword + Space + rest, Space) == [keyword, rest]
  {
    var s := keyword + Space + rest;
    assert OccursAt(s, Space, |keyword|) by {
      assert s[|keyword|..|keyword| + 1] == Space;
    }
    forall j: nat | j < |keyword|
      ensures !OccursAt(s, Space, j)
    {
      assert s[j..j + 1][0] == s[j] == keyword[j];
    }
    assert IndexOf(s, Space) == Some(|keyword|);
    assert s[..|keyword|] == keyword && s[|keyword| + 1..] == rest;
  }

  /** One pass over a line `word rest` whose command word has no space runs
      the command on exactly `word` and `rest`. */
  lemma LineStepOfCommandLine(ts: seq<TaskValue>, command: Command, keyword: string, rest: string,
                              validDate: string -> bool)
    requires ' ' !in keyword
    ensures var t := Dispatch(ts, command, [keyword, rest], validDate);
      LineStep(ts, command, keyword + Space + rest, validDate) == Step(t.outcome, t.tasks, Succeeded(t.outcome))
  {
    SplitCommandLine(keyword, rest);
  }

  /** The quirk of the emptiness check: `todo ` (a trailing space and nothing
      after it) is accepted and adds a to-do with an empty description. */
  lemma TodoWithEmptyDescription(ts: seq<TaskValue>, keyword: string, validDate: string -> bool)
    requires keyword != "" && ' ' !in keyword
    ensures LineStep(ts, Todo, keyword + Space, validDate) ==
      Step(Continue, ts + [TaskValue("", false, ToDoTask)], true)
  {
    SplitCommandLine(keyword, "");
    assert keyword + Space + "" == keyword + Space;
  }

  /** A successful `todo` appends exactly one task: not done, named by the whole argument. */
  lemma TodoAppends(ts: seq<TaskValue>, inputs: seq<string>, validDate: string -> bool)
    requires 1 <= |inputs| <= 2
    ensures var t := Dispatch(ts, Todo, inputs, validDate);
      t.outcome == Continue <==> |inputs| == 2 && inputs[0] != ""
    ensures var t := Dispatch(ts, Todo, inputs, validDate);
      t.outcome == Continue ==> t.tasks == ts + [TaskValue(inputs[1], false, ToDoTask)]
  {
  }

  /** A `deadline` succeeds exactly when the argument splits on ` /by ` into at
      least two pieces whose second one is an accepted due text; it then
      appends one task named by the text before the first ` /by `, due at the
      text between the first ` /by ` and the next one (or the end). Otherwise
      the list is unchanged. */
  lemma DeadlineAppends(ts: seq<TaskValue>, inputs: seq<string>, validDate: string -> bool)
    requires |inputs| == 2 && inputs[0] != ""
    ensures var t := Dispatch(ts, Deadline, inputs, validDate);
      t.outcome == Malformed <==> |Split(inputs[1], ByDelimiter)| < 2
    ensures var t := Dispatch(ts, Deadline, inputs, validDate);
      t.outcome == InvalidDate <==>
        |Split(inputs[1], ByDelimiter)| >= 2 && !validDate(Split(inputs[1], ByDelimiter)[1])
    ensures var t := Dispatch(ts, Deadline, inputs, validDate);
      t.outcome == Continue ==>
        && IndexOf(inputs[1], ByDelimiter).Some?
        && var due := Before(AfterFirst(inputs[1], ByDelimiter), ByDelimiter);
        && validDate(due)
        && t.tasks == ts + [TaskValue(Before(inputs[1], ByDelimiter), false, DeadlineTask(due))]
  {
    var t := Dispatch(ts, Deadline, inputs, validDate);
    if t.outcome == Continue {
      SplitFirst(inputs[1], ByDelimiter);
      SplitSecond(inputs[1], ByDelimiter);
    }
  }

  /** An `event` succeeds exactly when its argument splits on ` /from ` into
      at least two pieces and the second piece splits on ` /to ` into at least
      two; it then appends one task named by the text before the first
      ` /from `, starting at the text before the first ` /to ` of that second
      piece and ending at the text after it (up to the next ` /to `). */
  lemma EventAppends(ts: seq<TaskValue>, inputs: seq<string>, validDate: string -> bool)
    requires |inputs| == 2 && inputs[0] != ""
    ensures var t := Dispatch(ts, Event, inputs, validDate);
      t.outcome == Malformed <==>
        |Split(inputs[1], FromDelimiter)| < 2 || |Split(Split(inputs[1], FromDelimiter)[1], ToDelimiter)| < 2
    ensures Dispatch(ts, Event, inputs, validDate).outcome != InvalidDate
    ensures var t := Dispatch(ts, Event, inputs, validDate);
      t.outcome == Continue ==>
        && IndexOf(inputs[1], FromDelimiter).Some?
        && var times := Before(AfterFirst(inputs[1], FromDelimiter), FromDelimiter);
        && IndexOf(times, ToDelimiter).Some?
        && t.tasks == ts + [TaskValue(Before(inputs[1], FromDelimiter), false,
                                      EventTask(Before(times, ToDelimiter),
                                                Before(AfterFirst(times, ToDelimiter), ToDelimiter)))]
  {
    var t := Dispatch(ts, Event, inputs, validDate);
    if t.outcome == Continue {
      var info := Split(inputs[1], FromDelimiter);
      SplitFirst(inputs[1], FromDelimiter);
      SplitSecond(inputs[1], FromDelimiter);
      SplitFirst(info[1], ToDelimiter);
      SplitSecond(info[1], ToDelimiter);
    }
  }

  /** An add command with a command word and an argument goes through to `addTask`. */
  lemma AddReachesNewTask(ts: seq<TaskValue>, command: Command, keyword: string, taskInfo: string,
                          validDate: string -> bool)
    requires IsAddCommand(command) && keyword != ""
    ensures Dispatch(ts, command, [keyword, taskInfo], validDate) ==
      match NewTask(command, taskInfo, validDate)
      case Created(v) => Transition(Continue, ts + [v])
      case NotCreated(reason) => Transition(reason, ts)
  {
  }

  /** The command grammar `deadline <description> /by <when>`: with no `/` in
      the description or the due text and a non-empty due text, the task gets
      exactly that description and due text. */
  lemma WellFormedDeadline(ts: seq<TaskValue>, keyword: string, description: string, due: string,
                           validDate: string -> bool)
    requires keyword != "" && '/' !in description && '/' !in due && due != "" && validDate(due)
    ensures Dispatch(ts, Deadline, [keyword, description + ByDelimiter + due], validDate) ==
      Transition(Continue, ts + [TaskValue(description, false, DeadlineTask(due))])
  {
    NoSlashNoDelimiter(due, ByDelimiter);
    SplitAtSoleDelimiter(description, ByDelimiter, due);
    var v := TaskValue(description, false, DeadlineTask(due));
    assert NewTask(Deadline, description + ByDelimiter + due, validDate) == Created(v);
    AddReachesNewTask(ts, Deadline, keyword, description + ByDelimiter + due, validDate);
  }

  /** The event `description /from start /to end` built from its argument,
      when none of the three texts has a `/` and the end is not empty. */
  lemma WellFormedEventTask(description: string, start: string, end: string, validDate: string -> bool)
    requires '/' !in description && '/' !in start && '/' !in end && end != ""
    ensures NewTask(Event, description + FromDelimiter + (start + ToDelimiter + end), validDate) ==
      Created(TaskValue(description, false, EventTask(start, end)))
  {
    var times := start + ToDelimiter + end;
    NoSlashNoDelimiter(end, ToDelimiter);
    SplitAtSoleDelimiter(start, ToDelimiter, end);
    FromNotInTimes(start, end);
    SplitAtSoleDelimiter(description, FromDelimiter, times);
  }

  /** The command grammar `event <description> /from <start> /to <end>`: with
      no `/` in any of the three texts and a non-empty end, the task gets
      exactly those three texts. */
  lemma WellFormedEvent(ts: seq<TaskValue>, keyword: string, description: string, start: string, end: string,
                        validDate: string -> bool)
    requires keyword != "" && '/' !in description && '/' !in start && '/' !in end && end != ""
    ensures Dispatch(ts, Event, [keyword, description + FromDelimiter + start + ToDelimiter + end], validDate) ==
      Transition(Continue, ts + [TaskValue(description, false, EventTask(start, end))])
  {
    var argument := description + FromDelimiter + (start + ToDelimiter + end);
    assert description + FromDelimiter + start + ToDelimiter + end == argument;
    WellFormedEventTask(description, start, end, validDate);
    AddReachesNewTask(ts, Event, keyword, argument, validDate);
  }

  /** ` /from ` does not occur in `<start> /to <end>` when neither text has a
      `/`: the only `/` there is followed by `to`. */
  lemma FromNotInTimes(start: string, end: string)
    requires '/' !in start && '/' !in end
    ensures IndexOf(start + ToDelimiter + end, FromDelimiter).None?
  {
    var times := start + ToDelimiter + end;
    forall j: nat | j + |FromDelimiter| <= |times|
      ensures !OccursAt(times, FromDelimiter, j)
    {
      var window := times[j..j + |FromDelimiter|];
      assert window[1] == times[j + 1] && window[2] == times[j + 2];
      if j + 1 < |start| {
        assert times[j + 1] == start[j + 1];
      } else if j + 1 >= |start| + |ToDelimiter| {
        assert times[j + 1] == end[j + 1 - |start| - |ToDelimiter|];
      } else if j == |start| {
        assert times[j + 2] == ToDelimiter[2];
      } else {
        assert times[j + 1] == ToDelimiter[j + 1 - |start|];
      }
    }
  }

  // ---------------------------------------------------------------- editing

  /** `delete`, `mark` and `unmark` report a missing argument exactly when the
      line had no space or nothing follows it, and then change nothing. */
  lemma EditEmptyArgument(ts: seq<TaskValue>, command: Command, inputs: seq<string>, validDate: string -> bool)
    requires 1 <= |inputs| <= 2 && IsEditCommand(command)
    ensures var t := Dispatch(ts, command, inputs, validDate);
      (t.outcome == EmptyArgument <==> |inputs| == 1 || inputs[1] == "") &&
      (t.outcome == EmptyArgument ==> t.tasks == ts)
  {
  }

  /** A non-empty argument that is not an `int`, or is one but not a valid
      index, is reported as an invalid index carrying the list size, and the
      list is unchanged. */
  lemma EditInvalidIndex(ts: seq<TaskValue>, command: Command, keyword: string, argument: string,
                         validDate: string -> bool)
    requires IsEditCommand(command) && argument != ""
    requires ParseInt(argument).None? || !(1 <= ParseInt(argument).value <= |ts|)
    ensures Dispatch(ts, command, [keyword, argument], validDate) == Transition(InvalidIndex(|ts|), ts)
  {
  }

  /** An edit succeeds exactly when the argument parses to a valid index, and
      then it is that index the edit applies to. */
  lemma EditSucceedsExactly(ts: seq<TaskValue>, command: Command, inputs: seq<string>, validDate: string -> bool)
    requires 1 <= |inputs| <= 2 && IsEditCommand(command)
    ensures var t := Dispatch(ts, command, inputs, validDate);
      t.outcome == Continue <==>
        |inputs| == 2 && ParseInt(inputs[1]).Some? && 1 <= ParseInt(inputs[1]).value <= |ts|
    ensures var t := Dispatch(ts, command, inputs, validDate);
      t.outcome == Continue ==> t.tasks == Edit(command, ts, ParseInt(inputs[1]).value as nat)
  {
  }

  /** `mark i`, `unmark i` and `delete i` written out in decimal act on the
      i-th task for every valid i. */
  lemma EditAtValidIndex(ts: seq<TaskValue>, command: Command, keyword: string, i: nat,
                         validDate: string -> bool)
    requires IsEditCommand(command) && 1 <= i <= |ts| && i <= MaxInt
    ensures Dispatch(ts, command, [keyword, DecimalString(i)], validDate) ==
      Transition(Continue, Edit(command, ts, i))
  {
    ParseDecimal(i);
  }

  /** `0`, `size + 1` and every larger number are rejected as invalid indices,
      leaving the list unchanged. */
  lemma EditOutOfRange(ts: seq<TaskValue>, command: Command, keyword: string, n: nat,
                       validDate: string -> bool)
    requires IsEditCommand(command) && (n == 0 || n > |ts|)
    ensures Dispatch(ts, command, [keyword, DecimalString(n)], validDate) == Transition(InvalidIndex(|ts|), ts)
  {
    ParseDecimal(n);
  }

  /** Negative numbers are rejected as invalid indices, leaving the list unchanged. */
  lemma EditNegative(ts: seq<TaskValue>, command: Command, keyword: string, n: nat,
                     validDate: string -> bool)
    requires IsEditCommand(command) && n >= 1
    ensures Dispatch(ts, command, [keyword, "-" + DecimalString(n)], validDate) ==
      Transition(InvalidIndex(|ts|), ts)
  {
    ParseNegativeDecimal(n);
  }

  /** `delete i` twice: the second one deletes the task that moved into
      position i, and fails only when i was the last position. */
  lemma DeleteRepeated(ts: seq<TaskValue>, keyword: string, i: nat, validDate: string -> bool)
    requires 1 <= i <= |ts| && i <= MaxInt
    ensures var once := Dispatch(ts, Delete, [keyword, DecimalString(i)], validDate);
      var twice := Dispatch(once.tasks, Delete, [keyword, DecimalString(i)], validDate);
      && once == Transition(Continue, ts[..i - 1] + ts[i..])
      && (i < |ts| ==> twice == Transition(Continue, ts[..i - 1] + ts[i + 1..]))
      && (i == |ts| ==> twice == Transition(InvalidIndex(|ts| - 1), once.tasks))
  {
    EditAtValidIndex(ts, Delete, keyword, i, validDate);
    var once := ts[..i - 1] + ts[i..];
    if i < |ts| {
      EditAtValidIndex(once, Delete, keyword, i, validDate);
      assert once[..i - 1] + once[i..] == ts[..i - 1] + ts[i + 1..];
    } else {
      EditOutOfRange(once, Delete, keyword, i, validDate);
    }
  }

  /** Marking (or unmarking) the same task twice is marking (or unmarking) it once. */
  lemma EditRepeated(ts: seq<TaskValue>, command: Command, i: nat)
    requires (command == Mark || command == Unmark) && 1 <= i <= |ts|
    ensures Edit(command, Edit(command, ts, i), i) == Edit(command, ts, i)
  {
    var once := Edit(command, ts, i);
    assert Edit(command, once, i) == once by {
      assert forall j :: 0 <= j < |once| ==> Edit(command, once, i)[j] == once[j];
    }
  }

  // ---------------------------------------------------------------- a session

  const Book: TaskValue := TaskValue("read book", false, ToDoTask)
  const Report: TaskValue := TaskValue("submit report", false, DeadlineTask("Sunday"))

  lemma ScenarioTodo(validDate: string -> bool)
    ensures LineStep([], Todo, "todo read book", validDate) == Step(Continue, [Book], true)
  {
    SplitCommandLine("todo", "read book");
    assert "todo read book" == "todo" + Space + "read book";
  }

  lemma ScenarioTextsHaveNoSlash()
    ensures '/' !in "submit report" && '/' !in "Sunday"
  {
  }

  lemma ScenarioDeadline(validDate: string -> bool)
    requires validDate("Sunday")
    ensures LineStep([Book], Deadline, "deadline submit report /by Sunday", validDate) ==
      Step(Continue, [Book, Report], true)
  {
    ScenarioTextsHaveNoSlash();
    var argument := "submit report" + ByDelimiter + "Sunday";
    assert "deadline submit report /by Sunday" == "deadline" + Space + argument;
    LineStepOfCommandLine([Book], Deadline, "deadline", argument, validDate);
    WellFormedDeadline([Book], "deadline", "submit report", "Sunday", validDate);
    assert [Book] + [Report] == [Book, Report];
  }

  lemma ScenarioMark(validDate: string -> bool)
    ensures LineStep([Book, Report], Mark, "mark 1", validDate) ==
      Step(Continue, [MarkedDone(Book), Report], true)
  {
    SplitCommandLine("mark", "1");
    assert "mark 1" == "mark" + Space + "1";
    assert DecimalString(1) == "1";
    EditAtValidIndex([Book, Report], Mark, "mark", 1, validDate);
  }

  lemma ScenarioDelete(validDate: string -> bool)
    ensures LineStep([MarkedDone(Book), Report], Delete, "delete 2", validDate) ==
      Step(Continue, [MarkedDone(Book)], true)
  {
    SplitCommandLine("delete", "2");
    assert "delete 2" == "delete" + Space + "2";
    assert DecimalString(2) == "2";
    EditAtValidIndex([MarkedDone(Book), Report], Delete, "delete", 2, validDate);
  }

  /** The lines `todo read book`, `deadline submit report /by Sunday`, `list`,
      `mark 1`, `delete 2`, `bye` from an empty list: two tasks are added, the
      first is marked, the second deleted, and the session stops with the
      marked `read book` as the only task, the list written after every line. */
  lemma SessionScenario(validDate: string -> bool)
    requires validDate("Sunday")
    ensures var s1 := LineStep([], Todo, "todo read book", validDate);
      var s2 := LineStep(s1.tasks, Deadline, "deadline submit report /by Sunday", validDate);
      var s3 := LineStep(s2.tasks, List, "list", validDate);
      var s4 := LineStep(s3.tasks, Mark, "mark 1", validDate);
      var s5 := LineStep(s4.tasks, Delete, "delete 2", validDate);
      var s6 := LineStep(s5.tasks, Bye, "bye", validDate);
      && s1 == Step(Continue, [Book], true)
      && s2 == Step(Continue, [Book, Report], true)
      && s3 == Step(Continue, [Book, Report], true)
      && s4 == Step(Continue, [MarkedDone(Book), Report], true)
      && s5 == Step(Continue, [MarkedDone(Book)], true)
      && s6 == Step(Stop, [MarkedDone(Book)], true)
  {
    ScenarioTodo(validDate);
    ScenarioDeadline(validDate);
    ListWritesUnchanged([Book, Report], "list", validDate);
    ScenarioMark(validDate);
    ScenarioDelete(validDate);
    ByeStopsAndWrites([MarkedDone(Book)], "bye", validDate);
  }
}
