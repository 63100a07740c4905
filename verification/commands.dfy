/**
 * The commands (`duke.command`): what each one does to the task list and
 * what it tells the user. The current year, which the date reader needs
 * for dates written without one, is a parameter.
 */
module Commands {
  import opened Text
  import opened DateTimeUtil
  import opened Tasks
  import opened TaskLists
  import opened Ui
  import opened Storage

  datatype Command =
    | EmptyCmd
    | ExitCmd
    | ListCmd
    | TodoCmd(description: string)
    | DeadlineCmd(description: string, dueText: string)
    | EventCmd(description: string, fromText: string, toText: string)
    /** `index` is one-based; -1 stands for a number that could not be read. */
    | MarkCmd(index: int, mark: bool)
    | DeleteCmd(index: int)
    | AgendaCmd(dateText: string)
    | ClearCmd
    | FindCmd(keyword: string)
    | UnknownCmd(input: string)
    | UpdateCmd(index: int)

  /** `isExit`: only the exit command ends the input loop. */
  predicate IsExit(c: Command) {
    c.ExitCmd?
  }

  /** The commands that can change the task list. */
  predicate Mutates(c: Command) {
    c.TodoCmd? || c.DeadlineCmd? || c.EventCmd? || c.MarkCmd? || c.DeleteCmd?
  }

  /** The list after a command and the message it printed. */
  datatype Executed = Executed(list: TaskList, message: Message)

  predicate AllWellFormed(tasks: seq<Task>) {
    forall t :: t in tasks ==> WellFormedTask(t)
  }

  /** `TodoCommand.execute`: a blank description only prints the usage line. */
  function ExecuteTodo(l: TaskList, description: string): (r: Executed)
    ensures IsTrimEmpty(description) ==> r == Executed(l, FormatHelp("todo"))
    ensures !IsTrimEmpty(description) ==>
      && r.list.tasks == l.tasks + [Todo(Trim(description), false)]
      && r.list.saves == l.saves + [r.list.tasks]
      && r.message == Added(Todo(Trim(description), false), |l.tasks| + 1)
  {
    if IsTrimEmpty(description) then Executed(l, FormatHelp("todo"))
    else
      var t := Todo(Trim(description), false);
      var l' := Add(l, t);
      assert l'.tasks == l.tasks + [t];
      Executed(l', Added(t, |l'.tasks|))
  }

  /** `DeadlineCommand.execute`: the due text is read when the command runs; an unreadable one changes nothing. */
  function ExecuteDeadline(l: TaskList, description: string, dueText: string, currentYear: int): (r: Executed)
    ensures IsTrimEmpty(description) ==> r == Executed(l, FormatHelp("deadline"))
    ensures !IsTrimEmpty(description) && ParseLenient(Trim(dueText), currentYear).None? ==>
      r == Executed(l, UnreadableDate)
    ensures !IsTrimEmpty(description) && ParseLenient(Trim(dueText), currentYear).Some? ==>
      var t := Deadline(Trim(description), false, ParseLenient(Trim(dueText), currentYear).value);
      && r.list.tasks == l.tasks + [t]
      && r.list.saves == l.saves + [r.list.tasks]
      && r.message == Added(t, |l.tasks| + 1)
  {
    if IsTrimEmpty(description) then Executed(l, FormatHelp("deadline"))
    else
      match DeadlineFromText(Trim(description), Trim(dueText), currentYear)
      case None => Executed(l, UnreadableDate)
      case Some(t) =>
        var l' := Add(l, t);
        assert l'.tasks == l.tasks + [t];
        Executed(l', Added(t, |l'.tasks|))
  }

  /** `EventCommand.execute`: both texts must be readable; the end may precede the start. */
  function ExecuteEvent(l: TaskList, description: string, fromText: string, toText: string, currentYear: int): (r: Executed)
    ensures IsTrimEmpty(description) ==> r == Executed(l, FormatHelp("event"))
    ensures !IsTrimEmpty(description) &&
            (ParseLenient(Trim(fromText), currentYear).None? || ParseLenient(Trim(toText), currentYear).None?) ==>
      r == Executed(l, UnreadableDate)
    ensures !IsTrimEmpty(description) &&
            ParseLenient(Trim(fromText), currentYear).Some? && ParseLenient(Trim(toText), currentYear).Some? ==>
      var t := Event(Trim(description), false,
                     ParseLenient(Trim(fromText), currentYear).value, ParseLenient(Trim(toText), currentYear).value);
      && r.list.tasks == l.tasks + [t]
      && r.list.saves == l.saves + [r.list.tasks]
      && r.message == Added(t, |l.tasks| + 1)
  {
    if IsTrimEmpty(description) then Executed(l, FormatHelp("event"))
    else
      match EventFromText(Trim(description), Trim(fromText), Trim(toText), currentYear)
      case None => Executed(l, UnreadableDate)
      case Some(t) =>
        var l' := Add(l, t);
        assert l'.tasks == l.tasks + [t];
        Executed(l', Added(t, |l'.tasks|))
  }

  /** `MarkCommand.execute`: a one-based index outside the list only prints the valid range. */
  function ExecuteMark(l: TaskList, index: int, mark: bool): (r: Executed)
    ensures !(1 <= index <= |l.tasks|) ==> r == Executed(l, NumberOutOfRange(|l.tasks|))
    ensures 1 <= index <= |l.tasks| ==>
      && r.list.tasks == l.tasks[index - 1 := SetDone(l.tasks[index - 1], mark)]
      && r.list.saves == l.saves + [r.list.tasks]
      && r.message == Marked(r.list.tasks[index - 1], mark)
  {
    if !(1 <= index <= |l.tasks|) then Executed(l, NumberOutOfRange(|l.tasks|))
    else
      var l' := SetDoneAt(l, index - 1, mark).value;
      Executed(l', Marked(l'.tasks[index - 1], mark))
  }

  /** `DeleteCommand.execute`. */
  function ExecuteDelete(l: TaskList, index: int): (r: Executed)
    ensures !(1 <= index <= |l.tasks|) ==> r == Executed(l, NumberOutOfRange(|l.tasks|))
    ensures 1 <= index <= |l.tasks| ==>
      && r.list.tasks == l.tasks[..index - 1] + l.tasks[index..]
      && r.list.saves == l.saves + [r.list.tasks]
      && r.message == Deleted(l.tasks[index - 1], |l.tasks| - 1)
  {
    if !(1 <= index <= |l.tasks|) then Executed(l, NumberOutOfRange(|l.tasks|))
    else
      var (l', removed) := Remove(l, index - 1).value;
      assert l'.tasks == l'.tasks[..index - 1] + l'.tasks[index - 1..];
      Executed(l', Deleted(removed, |l'.tasks|))
  }

  /** `AgendaCommand.execute`: the tasks that fall on the date the text names; the list is left alone. */
  function ExecuteAgenda(l: TaskList, dateText: string, currentYear: int): (r: Executed)
    ensures r.list == l
    ensures IsTrimEmpty(dateText) ==> r.message == FormatHelp("on")
    ensures !IsTrimEmpty(dateText) && ParseLenient(Trim(dateText), currentYear).None? ==> r.message == UnreadableDate
    ensures !IsTrimEmpty(dateText) && ParseLenient(Trim(dateText), currentYear).Some? ==>
      r.message.AgendaShown? && r.message.date == DateOf(ParseLenient(Trim(dateText), currentYear).value.at)
      && r.message.matches == TasksOn(l.tasks, r.message.date)
      && (forall t :: t in r.message.matches <==> t in l.tasks && OccursOn(t, r.message.date))
  {
    if IsTrimEmpty(dateText) then Executed(l, FormatHelp("on"))
    else
      match ParseLenient(Trim(dateText), currentYear)
      case None => Executed(l, UnreadableDate)
      case Some(st) =>
        var d := DateOf(st.at);
        TasksOnMembers(l.tasks, d);
        Executed(l, AgendaShown(d, TasksOn(l.tasks, d)))
  }

  /** `ClearCommand.execute`: only asks for confirmation; an empty list has nothing to clear. */
  function ExecuteClear(l: TaskList): (r: Executed)
    ensures r.list == l
    ensures r.message == (if l.tasks == [] then NoTasksToClear else ClearPrompt)
  {
    if Size(l) == 0 then Executed(l, NoTasksToClear) else Executed(l, ClearPrompt)
  }

  /** `FindCommand.execute`: the search itself is not part of this model. */
  function ExecuteFind(l: TaskList, keyword: string): (r: Executed)
    ensures r.list == l
    ensures IsTrimEmpty(keyword) <==> r.message == FormatHelp("find")
    ensures !IsTrimEmpty(keyword) ==> r.message == FindResults(Trim(keyword))
  {
    if IsTrimEmpty(keyword) then Executed(l, FormatHelp("find")) else Executed(l, FindResults(Trim(keyword)))
  }

  /** `UpdateCommand.execute`: only shows the task to update; the dialogue itself belongs to the session. */
  function ExecuteUpdate(l: TaskList, index: int): (r: Executed)
    ensures r.list == l
    ensures l.tasks == [] ==> r.message == NoTasksInList
    ensures l.tasks != [] && !(1 <= index <= |l.tasks|) ==> r.message == InvalidTaskNumber(|l.tasks|)
    ensures r.message.UpdatePrompt? <==> 1 <= index <= |l.tasks|
    ensures 1 <= index <= |l.tasks| ==> r.message == UpdatePrompt(l.tasks[index - 1], index)
  {
    if Size(l) == 0 then Executed(l, NoTasksInList)
    else if index < 1 || index > Size(l) then Executed(l, InvalidTaskNumber(Size(l)))
    else Executed(l, UpdatePrompt(l.tasks[index - 1], index))
  }

  /** `Command.execute`, for every command. */
  function Execute(c: Command, l: TaskList, currentYear: int): (r: Executed)
    ensures !Mutates(c) ==> r.list == l
    ensures c == ExitCmd ==> r.message == Goodbye
  {
    match c
    case EmptyCmd => Executed(l, UnknownEmpty)
    case ExitCmd => Executed(l, Goodbye)
    case ListCmd => Executed(l, ListShown(l.tasks))
    case TodoCmd(d) => ExecuteTodo(l, d)
    case DeadlineCmd(d, due) => ExecuteDeadline(l, d, due, currentYear)
    case EventCmd(d, from, to) => ExecuteEvent(l, d, from, to, currentYear)
    case MarkCmd(i, mark) => ExecuteMark(l, i, mark)
    case DeleteCmd(i) => ExecuteDelete(l, i)
    case AgendaCmd(text) => ExecuteAgenda(l, text, currentYear)
    case ClearCmd => ExecuteClear(l)
    case FindCmd(k) => ExecuteFind(l, k)
    case UnknownCmd(input) => Executed(l, UnknownInput(input))
    case UpdateCmd(i) => ExecuteUpdate(l, i)
  }

  /**
   * What every command keeps: a list whose stamps are well formed stays so,
   * the record file keeps up with the list, and a change adds, removes or
   * replaces a single task and writes exactly one snapshot.
   */
  predicate Keeps(before: TaskList, after: TaskList) {
    && (AllWellFormed(before.tasks) ==> AllWellFormed(after.tasks))
    && (Synced(before) ==> Synced(after))
    && (after == before || after.saves == before.saves + [after.tasks])
    && |before.tasks| - 1 <= |after.tasks| <= |before.tasks| + 1
  }

  lemma AppendKeeps(l: TaskList, after: TaskList, t: Task)
    requires WellFormedTask(t)
    requires after.tasks == l.tasks + [t] && after.saves == l.saves + [after.tasks]
    ensures Keeps(l, after)
  {
  }

  lemma MarkKeeps(l: TaskList, i: int, mark: bool)
    ensures Keeps(l, ExecuteMark(l, i, mark).list)
  {
    var r := ExecuteMark(l, i, mark);
    if 1 <= i <= |l.tasks| && AllWellFormed(l.tasks) {
      forall t | t in r.list.tasks ensures WellFormedTask(t) {
        var k :| 0 <= k < |r.list.tasks| && r.list.tasks[k] == t;
        if k != i - 1 {
          assert t in l.tasks;
        } else {
          assert l.tasks[k] in l.tasks;
        }
      }
    }
  }

  lemma DeleteKeeps(l: TaskList, i: int)
    ensures Keeps(l, ExecuteDelete(l, i).list)
  {
    var r := ExecuteDelete(l, i);
    if 1 <= i <= |l.tasks| && AllWellFormed(l.tasks) {
      forall t | t in r.list.tasks ensures WellFormedTask(t) {
        var k :| 0 <= k < |r.list.tasks| && r.list.tasks[k] == t;
        if k < i - 1 {
          assert t == l.tasks[..i - 1][k];
        } else {
          assert t == l.tasks[i..][k - (i - 1)];
        }
      }
    }
  }

  lemma ExecuteKeepsInvariants(c: Command, l: TaskList, currentYear: int)
    ensures Keeps(l, Execute(c, l, currentYear).list)
  {
    var r := Execute(c, l, currentYear);
    match c
    case TodoCmd(d) =>
      if !IsTrimEmpty(d) {
        AppendKeeps(l, r.list, Todo(Trim(d), false));
      }
    case DeadlineCmd(d, due) =>
      var st := ParseLenient(Trim(due), currentYear);
      if !IsTrimEmpty(d) && st.Some? {
        AppendKeeps(l, r.list, Deadline(Trim(d), false, st.value));
      }
    case EventCmd(d, from, to) =>
      var start := ParseLenient(Trim(from), currentYear);
      var end := ParseLenient(Trim(to), currentYear);
      if !IsTrimEmpty(d) && start.Some? && end.Some? {
        AppendKeeps(l, r.list, Event(Trim(d), false, start.value, end.value));
      }
    case MarkCmd(i, mark) => MarkKeeps(l, i, mark);
    case DeleteCmd(i) => DeleteKeeps(l, i);
    case _ =>
  }

  /** A todo added from a line without tabs or line breaks survives saving and loading. */
  lemma AddedTodoIsStorable(l: TaskList, description: string)
    requires !IsTrimEmpty(description)
    requires '\t' !in description && '\n' !in description && '\r' !in description
    ensures Storable(ExecuteTodo(l, description).list.tasks[|l.tasks|])
  {
    TrimIsInfix(description);
  }
}
