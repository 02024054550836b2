# Duke task tracker: command handling, in Dafny

Duke is a single-user chatbot that keeps an ordered list of tasks. The user
types one command per line: `todo`, `deadline`, `event`, `delete`, `mark`,
`unmark`, `list` or `bye`. This project models how Duke handles one line.
It covers the checks made on the argument, the changes to the task list, and
when the list is written to storage. It also models the task objects: a
name, a done flag, and for events a start and an end text. Then it proves
what the code promises about them.

Layout, one module per file:

- `text.dfy`, module `JavaText`: the Java library behaviour the dispatcher
  relies on. `String.split` has a literal delimiter and splits left to right
  on non-overlapping matches. With no limit it drops trailing empty pieces,
  which can leave none at all; `split(" ", 2)` never drops a piece.
  `Integer.parseInt` takes an optional sign, at least one digit, and a value
  that fits in 32 bits. `Integer.toString` is also modelled, for naturals.
- `task.dfy`, module `Tasks`: class `Task`. Its `taskName` and `kind` are
  constants; `isDone` is the only field that changes. `kind` tags the
  variant: plain, to-do, deadline with its due text, or event with its
  start and end. The Java subclasses `ToDo`, `Deadline` and `Event` become
  named constructors. `TaskValue` is a task's state as a value.
- `tasklist.dfy`, module `TaskLists`: class `TaskList`. It holds a
  `seq<Task>` of distinct objects, addressed from 1. `View()` gives its
  contents as values.
- `commands.dfy`, module `Commands`: the reference definition of one
  command (`Dispatch`) and of one pass of the main loop (`LineStep`), on
  values, with the lemmas about them.
- `duke.dfy`, module `Chatbot`: class `Duke`. Its methods are the source's
  `addTask`, `editTask`, `executeSingleCommand` and `runCommand`, plus one
  pass of the main loop's body. Each method is proved against a function
  on values:
  - `AddTask` appends exactly the task `NewTask` builds, or fails with the
    reason `NewTask` gives.
  - `EditTask` leaves exactly `Edit` of the old list.
  - `RunCommand` gives the outcome and list of `Dispatch` on the old list.
  - `ProcessLine` gives the outcome, list and write flag of `LineStep`.
  - `ExecuteSingleCommand` changes nothing. Its contract states outright
    what it shows.

A command ends in one of these outcomes:

- `Continue` or `Stop`: `runCommand` returned `true` or `false`.
- `EmptyArgument`: the argument is missing.
- `InvalidIndex(size)`: the index is bad; the outcome carries the list size.
- `UnknownCommand`.
- `Malformed`: an array index past the end of a `split` result.
- `InvalidDate`: the deadline constructor refused the due text.

Storage is modelled by `Duke.saved`, the list contents last written, and by
the `wrote` result of a pass.

Assumptions about code this model does not include:

- `TaskList`: `isValidIndex(i)` holds exactly when `1 <= i <= size`.
  `deleteTask(i)` removes the i-th task and closes the gap. `markTask(i)` and
  `unmarkTask(i)` set the i-th task's flag in place. `addTask` appends.
- `new ToDo(d)` and `new Deadline(d, due)` store `d` as the name and start
  not done. A deadline stores the due text as given.
- Whether the deadline constructor accepts a due text is the parameter
  `validDate`.

Behaviour of the code worth knowing:

- For `todo`, `deadline` and `event`, the emptiness check tests
  `inputs[0]`, the command word, not the description. So `todo ` (with a
  trailing space) adds a to-do with an empty description
  (`TodoWithEmptyDescription`). Only a line without a space, or one that
  starts with a space, is `EmptyArgument`.
- A deadline or event that lacks a delimiter fails on an array index past
  the end of the `split` result. It does not fail with an error of its own.
  The model calls this `Malformed`.
- A repeated `delete i` deletes the next task whenever `i` is still a valid
  index. It fails only when `i` was the last position (`DeleteRepeated`).
- `/by` splits on every occurrence of the delimiter. So for
  `a /by b /by c` the due text is `b` (`DeadlineAppends`).

## Model

| member | source | states |
|---|---|---|
| `Tasks.Task.constructor` | src/main/java/Task.java:22-25 | a new task keeps the given name and is not done |
| `Tasks.Task.ToDo` | src/main/java/Duke.java:41 | a new to-do keeps its description and is not done |
| `Tasks.Task.Deadline` | src/main/java/Duke.java:44 | a new deadline keeps its description and due text and is not done |
| `Tasks.Task.Event` | src/main/java/Event.java:23-27 | a new event stores its start and end unchanged and is not done |
| `Tasks.Task.MarkAsDone` | src/main/java/Task.java:30-32 | the task becomes done; name and variant (and so start and end) unchanged |
| `Tasks.Task.MarkAsNotDone` | src/main/java/Task.java:37-39 | the task becomes not done; name and variant unchanged |
| `Tasks.MarkedDone` | src/main/java/Task.java:30-32 | marking done yields a done task with the same name and variant |
| `Tasks.MarkedNotDone` | src/main/java/Task.java:37-39 | marking not done yields a not-done task with the same name and variant |
| `Tasks.MarkDoneIdempotent` | src/main/java/Task.java:30-32 | marking done twice equals marking done once |
| `Tasks.MarkNotDoneIdempotent` | src/main/java/Task.java:37-39 | marking not done twice equals marking not done once |
| `Tasks.MarkThenUnmark` | src/main/java/Task.java:30-39 | mark then unmark leaves the task not done and otherwise as it was |
| `Tasks.Task.StatusIcon` | src/main/java/Task.java:45-51 | the icon is `[X]` exactly when done and `[ ]` exactly when not done |
| `Tasks.Task.ToString` | src/main/java/Task.java:58-60 | the rendering is the status icon, a space, then the name |
| `Tasks.ToStringDeterminesTask` | src/main/java/Task.java:58-60 | two tasks render alike exactly when name and done flag agree |
| `Tasks.Task.EventString` | src/main/java/Event.java:35-37 | an event renders as `[E]`, the task rendering, ` (from: `, start, ` to: `, end, `)`; it starts with `[E][X]` when done and `[E][ ]` otherwise |
| `Tasks.EventStringDeterminesTask` | src/main/java/Event.java:35-37 | two events with the same times render alike exactly when name and done flag agree |
| `TaskLists.TaskList.constructor` | src/main/java/Duke.java:21 | a new task list is empty |
| `TaskLists.TaskList.Size` | src/main/java/Duke.java:113 | `getSize()` is the number of tasks in the list's contents |
| `TaskLists.TaskList.IsValidIndex` | src/main/java/Duke.java:112 | `isValidIndex(i)` holds exactly when `i` addresses a task counting from 1 |
| `TaskLists.TaskList.AddTask` | src/main/java/Duke.java:51 | appends the task; the list's contents gain exactly its state at the end |
| `TaskLists.TaskList.DeleteTask` | src/main/java/Duke.java:63 | removes the task at the 1-based index, later tasks move down by one |
| `TaskLists.TaskList.MarkTask` | src/main/java/Duke.java:65 | only the task at the index changes; it becomes done |
| `TaskLists.TaskList.UnmarkTask` | src/main/java/Duke.java:67 | only the task at the index changes; it becomes not done |
| `JavaText.IndexOf` | src/main/java/Duke.java:43 | the offset found is an occurrence of the delimiter and no earlier offset is |
| `JavaText.Before` | src/main/java/Duke.java:43-48 | the text before the first delimiter: a prefix free of earlier occurrences, followed by the delimiter unless it is the whole text |
| `JavaText.AfterFirst` | src/main/java/Duke.java:44-47 | the text is the part before the first delimiter, the delimiter, then this rest |
| `JavaText.Segments` | src/main/java/Duke.java:43 | the pieces between the non-overlapping occurrences of the delimiter, left to right; there is always at least one; `JoinSegments` glues them back into the text |
| `JavaText.DropTrailingEmpty` | src/main/java/Duke.java:43 | keeps a prefix of the pieces that does not end in an empty piece, and drops only empty ones |
| `JavaText.Split` | src/main/java/Duke.java:43-47 | `split(d)`: the whole text when `d` does not occur; otherwise never ends in an empty piece and has at most as many pieces as `Segments`. `SplitIsPrefixOfSegments`, `SplitFirst`, `SplitSecond` and `SplitHasSecond` give its pieces |
| `JavaText.JoinSegments` | src/main/java/Duke.java:43 | joining the split pieces with the delimiter gives back the original text |
| `JavaText.SplitIsPrefixOfSegments` | src/main/java/Duke.java:43 | `split` keeps the leading pieces and drops only trailing empty ones |
| `JavaText.SplitFirst` | src/main/java/Duke.java:44 | the first piece of `split` is the text before the first delimiter |
| `JavaText.SplitSecond` | src/main/java/Duke.java:44 | the second piece of `split` is the text between the first delimiter and the next one |
| `JavaText.SplitHasSecond` | src/main/java/Duke.java:43-44 | `split` has a second piece exactly when the delimiter occurs and some later piece is non-empty |
| `JavaText.SplitOnce` | src/main/java/Duke.java:172 | `split(" ", 2)` yields one or two pieces, one exactly when there is no space; the first is the text before the first space, and joining them gives back the line |
| `JavaText.SplitAtSoleDelimiter` | src/main/java/Duke.java:43-47 | `a<d>b` with no `/` in `a` and no delimiter in a non-empty `b` splits into exactly `a` and `b` |
| `JavaText.ParseInt` | src/main/java/Duke.java:112 | a parsed value fits in a 32-bit int and the text starts with a digit or a sign |
| `JavaText.DecimalString` | src/main/java/Duke.java:113 | the decimal rendering is a non-empty run of digits without a leading zero |
| `JavaText.ParseDecimal` | src/main/java/Duke.java:112 | parsing a decimal rendering gives the number back when it fits in an int, and fails otherwise |
| `JavaText.ParseNegativeDecimal` | src/main/java/Duke.java:112 | parsing `-` plus a decimal rendering gives the negated number when it fits, and fails otherwise |
| `Commands.NewTask` | src/main/java/Duke.java:37-52 | a created task is not done; only deadline and event creation fail, and only as malformed or invalid date; only a deadline can fail as invalid date |
| `Commands.IndexArgument` | src/main/java/Duke.java:107-119 | resolves exactly when the argument parses to an index in 1..size, and to that index; empty argument exactly when absent or `""`; otherwise invalid index with the size |
| `Commands.Edit` | src/main/java/Duke.java:60-69 | delete removes position i and shifts the rest down; mark/unmark change only position i, to done/not done |
| `Commands.Dispatch` | src/main/java/Duke.java:90-155 | stops exactly on `bye`; a failing command leaves the list unchanged; `list` and `bye` never change it |
| `Commands.LineStep` | src/main/java/Duke.java:170-178 | one pass of the loop body: stops exactly on `bye`; writes exactly when the command returned normally; a pass that does not write leaves the list unchanged (also `WriteExactlyOnSuccess`) |
| `Commands.ByeStopsAndWrites` | src/main/java/Duke.java:91-94 | `bye` stops, leaves the list unchanged and writes it |
| `Commands.OthersContinue` | src/main/java/Duke.java:154 | every non-`bye` command that returns normally continues |
| `Commands.WriteExactlyOnSuccess` | src/main/java/Duke.java:172-178 | storage is written exactly when the command returned normally; a throwing command leaves the list unchanged |
| `Commands.ListWritesUnchanged` | src/main/java/Duke.java:120-121 | `list` continues, leaves the list unchanged and still writes it |
| `Commands.UnknownFails` | src/main/java/Duke.java:150-151 | an unknown command fails, leaves the list unchanged and writes nothing |
| `Commands.AddEmptyArgument` | src/main/java/Duke.java:96-98 | an add command fails with empty argument exactly when the line has no space or the command word is empty |
| `Commands.LineStepOfCommandLine` | src/main/java/Duke.java:172-173 | a pass over `word rest`, with no space in `word`, runs the command on exactly `word` and `rest` and writes exactly when it returned normally |
| `Commands.SplitCommandLine` | src/main/java/Duke.java:172 | a line `word rest` with no space in `word` splits into exactly `word` and `rest` |
| `Commands.TodoWithEmptyDescription` | src/main/java/Duke.java:96-100 | `todo ` is accepted: it adds a to-do with an empty description and writes |
| `Commands.TodoAppends` | src/main/java/Duke.java:99-100 | `todo` succeeds exactly when there is an argument, and then appends one not-done to-do named by the whole argument |
| `Commands.DeadlineAppends` | src/main/java/Duke.java:42-44 | malformed exactly when `split(" /by ")` has fewer than two pieces; invalid date exactly when there is a second piece and `validDate` refuses it; on success exactly one task is appended, named by the text before the first ` /by `, due at the text up to the next one |
| `Commands.EventAppends` | src/main/java/Duke.java:45-48 | malformed exactly when a ` /from ` or ` /to ` piece is missing; never invalid date; on success exactly one event is appended, named by the text before the first ` /from `, with start and end cut at ` /to ` |
| `Commands.AddReachesNewTask` | src/main/java/Duke.java:96-105 | an add command with a non-empty command word and an argument appends exactly the task `addTask` builds, or fails with its reason and the list unchanged |
| `Commands.WellFormedDeadline` | src/main/java/Duke.java:42-44 | `deadline <d> /by <w>` with no `/` in `d` or `w` and `w` non-empty adds exactly the task `d` due `w` |
| `Commands.FromNotInTimes` | src/main/java/Duke.java:46-47 | ` /from ` does not occur in `<s> /to <e>` when neither text has a `/` |
| `Commands.WellFormedEventTask` | src/main/java/Duke.java:45-48 | the argument `<d> /from <s> /to <e>` with no `/` in the texts and `e` non-empty builds exactly the not-done event `d` from `s` to `e` |
| `Commands.WellFormedEvent` | src/main/java/Duke.java:45-48 | `event <d> /from <s> /to <e>` with no `/` in the three texts and `e` non-empty adds exactly the event `d` from `s` to `e` |
| `Commands.EditEmptyArgument` | src/main/java/Duke.java:107-109 | delete/mark/unmark fail with empty argument exactly when the argument is absent or `""`, and the list is unchanged |
| `Commands.EditInvalidIndex` | src/main/java/Duke.java:111-117 | a non-empty argument that is not an int, or not a valid index, gives invalid index with the list size and the list unchanged |
| `Commands.EditSucceedsExactly` | src/main/java/Duke.java:111-119 | an edit succeeds exactly when the argument parses to a valid index, and then edits that index |
| `Commands.EditAtValidIndex` | src/main/java/Duke.java:111-119 | `mark i`, `unmark i` and `delete i` in decimal act on task i for every valid i |
| `Commands.EditOutOfRange` | src/main/java/Duke.java:111-117 | `0`, `size + 1` and every larger number give invalid index with the list unchanged |
| `Commands.EditNegative` | src/main/java/Duke.java:111-117 | every negative number gives invalid index with the list unchanged |
| `Commands.DeleteRepeated` | src/main/java/Duke.java:106-119 | a second `delete i` removes the task that moved into position i, and fails with invalid index only when i was the last position |
| `Commands.EditRepeated` | src/main/java/Duke.java:64-67 | repeating a mark or unmark has the effect of doing it once |
| `Commands.SessionScenario` | src/main/java/Duke.java:168-180 | todo, deadline, list, `mark 1`, `delete 2`, bye from an empty list leave only the marked first task and write after every line |
| `Chatbot.Duke.constructor` | src/main/java/Duke.java:20-21 | a new session has an empty list and nothing written |
| `Chatbot.Duke.AddTask` | src/main/java/Duke.java:37-52 | appends exactly the task `NewTask` describes, or fails with its reason and the list unchanged |
| `Chatbot.Duke.EditTask` | src/main/java/Duke.java:60-69 | the list becomes `Edit` of the old list at the index |
| `Chatbot.Duke.ExecuteSingleCommand` | src/main/java/Duke.java:76-82 | `list` shows the current contents and `bye` the farewell; nothing changes |
| `Chatbot.Duke.RunCommand` | src/main/java/Duke.java:90-155 | the outcome and the new list are those of `Dispatch` on the old list; storage is written inside only by `bye` |
| `Chatbot.Duke.ProcessLine` | src/main/java/Duke.java:170-178 | outcome, new list and write flag are those of `LineStep`; when written, storage holds the new list, otherwise it is unchanged |

## Left out

- Console input and output: the `Scanner`, the greeting, every `Ui` message
  and the `while (true)` loop are left out. One pass of the loop body is
  modelled (`ProcessLine`, `LineStep`); `SessionScenario` chains six passes.
- Storage: loading at startup, the file format, and I/O failures during a
  write are left out. A write is recorded as the list contents written;
  `Storage` is not part of this model.
- Parser: keyword recognition (`Parser.parseInput`) is not part of this
  model. The command kind is an input.
- `ToDo`, `Deadline` and `TaskList` are not part of this model. Their
  behaviour is assumed as stated above; `toString` of `ToDo` and `Deadline`
  is not modelled.
- Deadline date parsing: the due text is kept as given, and accepting it is
  the parameter `validDate`.
- `JavaText.ParseInt`: it accepts only ASCII digits, while Java's
  `Character.digit` also accepts other Unicode decimal digits.
- Exception message texts: only the outcome tag and the list size carried
  by an invalid index are modelled.
- `Task.toString` is overridden in Java. Here `ToString` (the task
  rendering) and `EventString` (the event rendering) are separate functions,
  and no dispatch picks between them.
