/** The ordered task list the chatbot keeps, addressed from 1.
    `TaskList` is not part of this model's source; its operations are stated
    here as the dispatcher relies on them: `isValidIndex(i)` holds exactly for
    1 <= i <= size, `deleteTask(i)` removes the i-th task and closes the gap,
    `markTask(i)` / `unmarkTask(i)` mark the i-th task in place. */
module TaskLists {
  import opened Tasks

  /** The states of a sequence of task objects, position by position. */
  function Values(ts: seq<Task>): (vs: seq<TaskValue>)
    reads ts
    decreases |ts|
    ensures |vs| == |ts|
    ensures forall i :: 0 <= i < |ts| ==> vs[i] == ts[i].Value()
  {
    if ts == [] then [] else Values(ts[..|ts| - 1]) + [ts[|ts| - 1].Value()]
  }

  class TaskList {
    var items: seq<Task>

    /** No task object sits at two positions, so marking one position marks only that one. */
    ghost predicate Valid()
      reads this
    {
      forall i, j :: 0 <= i < j < |items| ==> items[i] != items[j]
    }

    constructor ()
      ensures Valid() && items == []
    {
      items := [];
    }

    /** The list's contents as values. */
    function View(): seq<TaskValue>
      reads this, items
    {
      Values(items)
    }

    /** `getSize()`: the number of tasks. */
    function Size(): (n: nat)
      reads this, items
      ensures n == |View()|
    {
      |items|
    }

    /** `isValidIndex(i)`: `i` addresses a task, counting from 1. */
    predicate IsValidIndex(i: int): (valid: bool)
      reads this, items
      ensures valid <==> 0 <= i - 1 < |View()|
    {
      1 <= i <= |items|
    }

    method AddTask(t: Task)
      requires Valid() && t !in items
      modifies this
      ensures Valid()
      ensures items == old(items) + [t]
      ensures View() == old(View()) + [t.Value()]
    {
      items := items + [t];
      assert View() == old(View()) + [t.Value()] by {
        assert forall i :: 0 <= i < |items| - 1 ==> items[i] == old(items)[i];
      }
    }

    method DeleteTask(i: int)
      requires Valid() && IsValidIndex(i)
      modifies this
      ensures Valid()
      ensures items == old(items[..i - 1] + items[i..])
      ensures View() == old(View()[..i - 1] + View()[i..])
    {
      ghost var before := View();
      items := items[..i - 1] + items[i..];
      assert View() == before[..i - 1] + before[i..] by {
        assert forall j :: 0 <= j < i - 1 ==> items[j] == old(items)[j];
        assert forall j :: i - 1 <= j < |items| ==> items[j] == old(items)[j + 1];
      }
    }

    method MarkTask(i: int)
      requires Valid() && IsValidIndex(i)
      modifies items[i - 1]
      ensures View() == old(View()[i - 1 := MarkedDone(View()[i - 1])])
    {
      items[i - 1].MarkAsDone();
      assert forall j :: 0 <= j < |items| && j != i - 1 ==> items[j] != items[i - 1];
    }

    method UnmarkTask(i: int)
      requires Valid() && IsValidIndex(i)
      modifies items[i - 1]
      ensures View() == old(View()[i - 1 := MarkedNotDone(View()[i - 1])])
    {
      items[i - 1].MarkAsNotDone();
      assert forall j :: 0 <= j < |items| && j != i - 1 ==> items[j] != items[i - 1];
    }
  }
}
