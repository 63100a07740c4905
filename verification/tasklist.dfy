/**
 * The in-memory task list (`duke.task.TaskList`). Every change is written
 * through to the record file; the model keeps the list of every snapshot
 * written, oldest first, in place of the file.
 */
module TaskLists {
  import opened Text
  import opened DateTimeUtil
  import opened Tasks

  datatype TaskList = TaskList(tasks: seq<Task>, saves: seq<seq<Task>>)

  /** The record file holds the current list, once anything has been saved. */
  predicate Synced(l: TaskList) {
    l.saves != [] ==> l.saves[|l.saves| - 1] == l.tasks
  }

  /** The constructor: a copy of the loaded tasks (none when absent); nothing is saved yet. */
  function FromInitial(initial: Option<seq<Task>>): (r: TaskList)
    ensures r.saves == [] && Synced(r)
    ensures initial.None? ==> r.tasks == []
    ensures initial.Some? ==> r.tasks == initial.value
  {
    TaskList(initial.GetOr([]), [])
  }

  function Size(l: TaskList): nat {
    |l.tasks|
  }

  /** `get`: the task at a zero-based index; an index outside the list throws. */
  function Get(l: TaskList, idx: int): (r: Option<Task>)
    ensures r.Some? <==> 0 <= idx < |l.tasks|
    ensures r.Some? ==> r.value == l.tasks[idx]
  {
    if 0 <= idx < |l.tasks| then Some(l.tasks[idx]) else None
  }

  /** Records a write-through save of the list as it now stands. */
  function Saved(tasks: seq<Task>, l: TaskList): (r: TaskList)
    ensures r.tasks == tasks && Synced(r) && |r.saves| == |l.saves| + 1 && r.saves[..|l.saves|] == l.saves
  {
    TaskList(tasks, l.saves + [tasks])
  }

  /** `add`: appends at the end and saves. */
  function Add(l: TaskList, t: Task): (r: TaskList)
    ensures |r.tasks| == |l.tasks| + 1
    ensures r.tasks[..|l.tasks|] == l.tasks && r.tasks[|l.tasks|] == t
    ensures Synced(r) && r.saves == l.saves + [r.tasks]
  {
    Saved(l.tasks + [t], l)
  }

  /** `remove`: takes out the task at a zero-based index, shifting the later ones down, and saves. */
  function Remove(l: TaskList, idx: int): (r: Option<(TaskList, Task)>)
    ensures r.None? <==> !(0 <= idx < |l.tasks|)
    ensures r.Some? ==>
      && r.value.1 == l.tasks[idx]
      && |r.value.0.tasks| == |l.tasks| - 1
      && r.value.0.tasks[..idx] == l.tasks[..idx]
      && r.value.0.tasks[idx..] == l.tasks[idx + 1..]
      && Synced(r.value.0) && r.value.0.saves == l.saves + [r.value.0.tasks]
  {
    if 0 <= idx < |l.tasks| then
      var rest := l.tasks[..idx] + l.tasks[idx + 1..];
      assert rest[..idx] == l.tasks[..idx] && rest[idx..] == l.tasks[idx + 1..];
      Some((Saved(rest, l), l.tasks[idx]))
    else None
  }

  /** Sets the flag of the task at a zero-based index, and saves: the common part of `mark` and `unmark`. */
  function SetDoneAt(l: TaskList, idx: int, done: bool): (r: Option<TaskList>)
    ensures r.None? <==> !(0 <= idx < |l.tasks|)
    ensures r.Some? ==>
      && |r.value.tasks| == |l.tasks|
      && r.value.tasks[idx].done == done && SameButDone(r.value.tasks[idx], l.tasks[idx])
      && (forall k :: 0 <= k < |l.tasks| && k != idx ==> r.value.tasks[k] == l.tasks[k])
      && Synced(r.value) && r.value.saves == l.saves + [r.value.tasks]
  {
    if 0 <= idx < |l.tasks| then Some(Saved(l.tasks[idx := SetDone(l.tasks[idx], done)], l)) else None
  }

  /** `mark`: the task at a zero-based index becomes done, nothing else changes, and the list is saved. */
  function MarkAt(l: TaskList, idx: int): (r: Option<TaskList>)
    ensures r.None? <==> !(0 <= idx < |l.tasks|)
    ensures r.Some? ==>
      && |r.value.tasks| == |l.tasks|
      && r.value.tasks[idx].done && SameButDone(r.value.tasks[idx], l.tasks[idx])
      && (forall k :: 0 <= k < |l.tasks| && k != idx ==> r.value.tasks[k] == l.tasks[k])
      && Synced(r.value) && r.value.saves == l.saves + [r.value.tasks]
  {
    SetDoneAt(l, idx, true)
  }

  /** `unmark`: the task at a zero-based index becomes undone, nothing else changes, and the list is saved. */
  function UnmarkAt(l: TaskList, idx: int): (r: Option<TaskList>)
    ensures r.None? <==> !(0 <= idx < |l.tasks|)
    ensures r.Some? ==>
      && |r.value.tasks| == |l.tasks|
      && !r.value.tasks[idx].done && SameButDone(r.value.tasks[idx], l.tasks[idx])
      && (forall k :: 0 <= k < |l.tasks| && k != idx ==> r.value.tasks[k] == l.tasks[k])
      && Synced(r.value) && r.value.saves == l.saves + [r.value.tasks]
  {
    SetDoneAt(l, idx, false)
  }

  /**
   * `add(int, Task)`, which the session calls but the list class does not
   * declare: assumed to be `List.add(int, E)` (any index from 0 to the size,
   * later tasks shifted up) followed by a save like every other change.
   */
  function InsertAt(l: TaskList, idx: int, t: Task): (r: Option<TaskList>)
    ensures r.None? <==> !(0 <= idx <= |l.tasks|)
    ensures r.Some? ==>
      && |r.value.tasks| == |l.tasks| + 1
      && r.value.tasks[..idx] == l.tasks[..idx]
      && r.value.tasks[idx] == t
      && r.value.tasks[idx + 1..] == l.tasks[idx..]
      && Synced(r.value) && r.value.saves == l.saves + [r.value.tasks]
  {
    if 0 <= idx <= |l.tasks| then
      var ts := l.tasks[..idx] + [t] + l.tasks[idx..];
      assert ts[..idx] == l.tasks[..idx] && ts[idx + 1..] == l.tasks[idx..];
      Some(Saved(ts, l))
    else None
  }

  /** `clear`: empties the list and saves the empty list. */
  function Clear(l: TaskList): (r: TaskList)
    ensures r.tasks == [] && Synced(r) && r.saves == l.saves + [[]]
  {
    Saved([], l)
  }

  /** Appending and then removing the last task gives back the list and the task. */
  lemma AddThenRemoveLast(l: TaskList, t: Task)
    ensures Remove(Add(l, t), |l.tasks|).Some?
    ensures Remove(Add(l, t), |l.tasks|).value.1 == t
    ensures Remove(Add(l, t), |l.tasks|).value.0.tasks == l.tasks
  {
    var a := Add(l, t);
    assert a.tasks[..|l.tasks|] == l.tasks;
  }

  /**
   * Removing the task at an index and inserting another at the same index
   * (what the session does to replace a task) changes that position only,
   * saving twice.
   */
  lemma RemoveThenInsertReplaces(l: TaskList, idx: int, t: Task)
    requires 0 <= idx < |l.tasks|
    ensures Remove(l, idx).Some?
    ensures InsertAt(Remove(l, idx).value.0, idx, t).Some?
    ensures InsertAt(Remove(l, idx).value.0, idx, t).value.tasks == l.tasks[idx := t]
    ensures |InsertAt(Remove(l, idx).value.0, idx, t).value.saves| == |l.saves| + 2
  {
    var removed := Remove(l, idx).value.0;
    var r := InsertAt(removed, idx, t).value;
    assert |r.tasks| == |l.tasks|;
    forall k | 0 <= k < |l.tasks|
      ensures r.tasks[k] == l.tasks[idx := t][k]
    {
      if k < idx {
        assert r.tasks[k] == r.tasks[..idx][k] == removed.tasks[..idx][k] == l.tasks[..idx][k];
      } else if k > idx {
        assert r.tasks[k] == r.tasks[idx + 1..][k - idx - 1] == removed.tasks[idx..][k - idx - 1];
        assert removed.tasks[idx..][k - idx - 1] == l.tasks[idx + 1..][k - idx - 1];
      }
    }
  }

  // ---------------------------------------------------------------------
  // The agenda query
  // ---------------------------------------------------------------------

  /** A deadline falls on the day it is due; an event on every day from its start date to its end date. */
  predicate OccursOn(t: Task, d: LocalDate) {
    match t
    case Todo(_, _) => false
    case Deadline(_, _, due) => DateOf(due.at) == d
    case Event(_, _, start, end) => !(IsBefore(d, DateOf(start.at)) || IsBefore(DateOf(end.at), d))
  }

  /** `tasksOn`: the tasks that fall on the date, in list order. */
  function TasksOn(tasks: seq<Task>, d: LocalDate): (r: seq<Task>)
    ensures |r| <= |tasks|
  {
    if tasks == [] then []
    else
      var rest := TasksOn(tasks[1..], d);
      if OccursOn(tasks[0], d) then [tasks[0]] + rest else rest
  }

  /** Exactly the tasks of the list that fall on the date are shown. */
  lemma {:induction false} TasksOnMembers(tasks: seq<Task>, d: LocalDate)
    ensures forall t :: t in TasksOn(tasks, d) <==> t in tasks && OccursOn(t, d)
    decreases |tasks|
  {
    if tasks != [] {
      TasksOnMembers(tasks[1..], d);
      assert tasks == [tasks[0]] + tasks[1..];
    }
  }

  /** The query keeps list order: it distributes over concatenation. */
  lemma {:induction false} TasksOnAppend(a: seq<Task>, b: seq<Task>, d: LocalDate)
    ensures TasksOn(a + b, d) == TasksOn(a, d) + TasksOn(b, d)
    decreases |a|
  {
    if a == [] {
      assert a + b == b;
    } else {
      var ab := a + b;
      assert ab != [] && ab[0] == a[0] && ab[1..] == a[1..] + b;
      var head := if OccursOn(a[0], d) then [a[0]] else [];
      assert TasksOn(ab, d) == head + TasksOn(a[1..] + b, d);
      assert TasksOn(a, d) == head + TasksOn(a[1..], d);
      TasksOnAppend(a[1..], b, d);
      assert head + (TasksOn(a[1..], d) + TasksOn(b, d)) == (head + TasksOn(a[1..], d)) + TasksOn(b, d);
    }
  }

  /** Todos never appear in the agenda, and an event whose end precedes its start never does either. */
  lemma TasksOnExcludes(tasks: seq<Task>, d: LocalDate)
    ensures forall t :: t in TasksOn(tasks, d) ==> !t.Todo?
    ensures forall t :: t in TasksOn(tasks, d) && t.Event? ==> !IsBefore(DateOf(t.end.at), DateOf(t.start.at))
  {
    TasksOnMembers(tasks, d);
    forall t | t in TasksOn(tasks, d) && t.Event?
      ensures !IsBefore(DateOf(t.end.at), DateOf(t.start.at))
    {
      assert OccursOn(t, d);
    }
  }
}
