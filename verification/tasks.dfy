/**
 * The task entities (`duke.task`): one tagged union in place of the
 * abstract `Task` class and its three subclasses.
 */
module Tasks {
  import opened Text
  import opened DateTimeUtil

  /** `TaskType`: the kind of a task, with its one-letter storage code. */
  datatype TaskType = TODO | DEADLINE | EVENT

  function StorageCode(t: TaskType): (r: string)
    ensures |r| == 1
  {
    match t
    case TODO => "T"
    case DEADLINE => "D"
    case EVENT => "E"
  }

  function DisplayName(t: TaskType): string {
    match t
    case TODO => "Todo"
    case DEADLINE => "Deadline"
    case EVENT => "Event"
  }

  /** `TaskType.fromStorageCode`: the kind whose code is exactly `code`; an unknown code is an error. */
  function FromStorageCode(code: string): (r: Option<TaskType>)
    ensures r.Some? ==> StorageCode(r.value) == code
    ensures r.None? <==> (code != "T" && code != "D" && code != "E")
  {
    if code == StorageCode(TODO) then Some(TODO)
    else if code == StorageCode(DEADLINE) then Some(DEADLINE)
    else if code == StorageCode(EVENT) then Some(EVENT)
    else None
  }

  /** Every kind is recovered from its code, so no two kinds share one. */
  lemma StorageCodeRoundTrip(t: TaskType)
    ensures FromStorageCode(StorageCode(t)) == Some(t)
  {
    match t
    case TODO =>
    case DEADLINE =>
    case EVENT =>
  }

  /**
   * A task: a description and a completion flag, plus a due stamp for a
   * deadline or a start and an end stamp for an event. An event's end is
   * not required to follow its start.
   */
  datatype Task =
    | Todo(description: string, done: bool)
    | Deadline(description: string, done: bool, due: Stamp)
    | Event(description: string, done: bool, start: Stamp, end: Stamp)

  /** `getTaskType`. */
  function TypeOf(t: Task): TaskType {
    match t
    case Todo(_, _) => TODO
    case Deadline(_, _, _) => DEADLINE
    case Event(_, _, _, _) => EVENT
  }

  /** The stamps of a task are what the date reader can produce. */
  predicate WellFormedTask(t: Task) {
    match t
    case Todo(_, _) => true
    case Deadline(_, _, due) => WellFormedStamp(due)
    case Event(_, _, start, end) => WellFormedStamp(start) && WellFormedStamp(end)
  }

  /** Two tasks that differ at most in their completion flag. */
  predicate SameButDone(a: Task, b: Task) {
    match (a, b)
    case (Todo(d1, _), Todo(d2, _)) => d1 == d2
    case (Deadline(d1, _, b1), Deadline(d2, _, b2)) => d1 == d2 && b1 == b2
    case (Event(d1, _, f1, t1), Event(d2, _, f2, t2)) => d1 == d2 && f1 == f2 && t1 == t2
    case _ => false
  }

  /** `mark` / `unmark`: set the completion flag, leaving everything else as it was. */
  function SetDone(t: Task, done: bool): (r: Task)
    ensures r.done == done && SameButDone(r, t)
  {
    match t
    case Todo(d, _) => Todo(d, done)
    case Deadline(d, _, due) => Deadline(d, done, due)
    case Event(d, _, start, end) => Event(d, done, start, end)
  }

  function Mark(t: Task): (r: Task)
    ensures r.done && SameButDone(r, t)
  {
    SetDone(t, true)
  }

  function Unmark(t: Task): (r: Task)
    ensures !r.done && SameButDone(r, t)
  {
    SetDone(t, false)
  }

  /** Tasks that agree on everything but the flag are equal once the flags agree. */
  lemma SameButDoneEq(a: Task, b: Task)
    requires SameButDone(a, b) && a.done == b.done
    ensures a == b
  {
  }

  /** Marking is idempotent, and unmarking undoes it. */
  lemma MarkUnmarkLaws(t: Task)
    ensures Mark(Mark(t)) == Mark(t)
    ensures Unmark(Mark(t)) == Unmark(t)
    ensures Mark(Unmark(t)) == Mark(t)
    ensures !t.done ==> Unmark(Mark(t)) == t
    ensures TypeOf(Mark(t)) == TypeOf(t) && TypeOf(Unmark(t)) == TypeOf(t)
  {
    SameButDoneEq(Mark(Mark(t)), Mark(t));
    SameButDoneEq(Unmark(Mark(t)), Unmark(t));
    SameButDoneEq(Mark(Unmark(t)), Mark(t));
    if !t.done {
      SameButDoneEq(Unmark(Mark(t)), t);
    }
  }

  /** `getStatusIcon`: `X` when done, otherwise two spaces. */
  function StatusIcon(t: Task): (r: string)
    ensures (r == "X") <==> t.done
    ensures !t.done ==> |r| == 2 && r[0] == ' ' && r[1] == ' '
  {
    if t.done then "X" else "  "
  }

  /** The text before the status icon: the kind's code in brackets and the opening bracket of the icon. */
  function Front(t: Task): (r: string)
    ensures |r| == 5
  {
    "[" + StorageCode(TypeOf(t)) + "] ["
  }

  /** `[T] [X] read book`: the kind's code, the status icon and the description. */
  function Heading(t: Task): (r: string)
    ensures |r| == 7 + |StatusIcon(t)| + |t.description|
  {
    Front(t) + StatusIcon(t) + "] " + t.description
  }

  /** What `toString` adds after the heading: the due stamp, or the two event stamps, in display form. */
  function Details(t: Task): (r: string)
    ensures r == [] <==> t.Todo?
    ensures r != [] ==> r[|r| - 1] == ')'
  {
    match t
    case Todo(_, _) => ""
    case Deadline(_, _, due) => " (by: " + PrettyString(due) + ")"
    case Event(_, _, start, end) => " (from: " + PrettyString(start) + ", to: " + PrettyString(end) + ")"
  }

  /** `toString`: the heading, then the due stamp or the two event stamps in their display form. */
  function ToString(t: Task): (r: string)
    ensures |Heading(t)| <= |r| && r[..|Heading(t)|] == Heading(t)
    ensures |r| == |Heading(t)| <==> t.Todo?
    ensures !t.Todo? ==> r[|r| - 1] == ')'
  {
    Heading(t) + Details(t)
  }

  /** The three pieces of a concatenation, recovered by slicing. */
  lemma SlicesOfThree(a: string, b: string, c: string)
    ensures var r := a + b + c;
      && r[..|a|] == a && r[|a|..|a| + |b|] == b && r[|a| + |b|..] == c
  {
  }

  /**
   * What a reader sees in a rendered task: the kind's code in the first
   * brackets, an `X` in the second exactly when the task is done and two
   * spaces there when it is not, and the description right after.
   */
  lemma ToStringShows(t: Task)
    ensures var r := ToString(t);
      var p := 7 + |StatusIcon(t)|;
      && p + |t.description| <= |r|
      && r[1..2] == StorageCode(TypeOf(t))
      && (r[5] == 'X' <==> t.done)
      && (!t.done ==> r[5..7] == "  ")
      && r[p..p + |t.description|] == t.description
  {
    var h := Heading(t);
    var r := ToString(t);
    var p := 7 + |StatusIcon(t)|;
    HeadingShows(t);
    assert r[1..2] == h[1..2] && r[5] == h[5] && r[5..7] == h[5..7];
    assert r[p..p + |t.description|] == h[p..];
  }

  lemma HeadingShows(t: Task)
    ensures var h := Heading(t);
      var p := 7 + |StatusIcon(t)|;
      && p + |t.description| == |h|
      && h[1..2] == StorageCode(TypeOf(t))
      && (h[5] == 'X' <==> t.done)
      && (!t.done ==> h[5..7] == "  ")
      && h[p..] == t.description
  {
    var h := Heading(t);
    var icon := StatusIcon(t);
    var front := "[" + StorageCode(TypeOf(t)) + "] [";
    assert |front| == 5;
    assert h == front + icon + ("] " + t.description);
    assert h[5] == icon[0];
    assert icon == "X" || icon == "  ";
    if !t.done {
      assert h[5..5 + |icon|] == icon;
    }
  }

  /** A deadline's text follows its heading with ` (by: `, the due stamp in display form, and `)`. */
  lemma DeadlineToStringTail(t: Task)
    requires t.Deadline?
    ensures var r := ToString(t);
      var n := |Heading(t)|;
      && n + 7 <= |r| && r[n..n + 6] == " (by: " && r[n + 6..|r| - 1] == PrettyString(t.due)
  {
    var h := Heading(t);
    var p := PrettyString(t.due);
    assert ToString(t) == h + (" (by: " + p + ")") by {
      assert Details(t) == " (by: " + p + ")";
    }
    DeadlineTail(h, p);
  }

  /** An event's text follows its heading with ` (from: <start>, to: <end>)`, both stamps in display form. */
  lemma EventToStringTail(t: Task)
    requires t.Event?
    ensures var r := ToString(t);
      var n := |Heading(t)|;
      var m := n + 8 + |PrettyString(t.start)|;
      && m + 7 <= |r|
      && r[n..n + 8] == " (from: " && r[n + 8..m] == PrettyString(t.start)
      && r[m..m + 6] == ", to: " && r[m + 6..|r| - 1] == PrettyString(t.end)
  {
    var h := Heading(t);
    var a := PrettyString(t.start);
    var b := PrettyString(t.end);
    assert ToString(t) == h + (" (from: " + a + ", to: " + b + ")") by {
      assert Details(t) == " (from: " + a + ", to: " + b + ")";
    }
    EventTail(h, a, b);
  }

  lemma DeadlineTail(h: string, p: string)
    ensures var r := h + (" (by: " + p + ")");
      var n := |h|;
      && n + 7 + |p| == |r| && r[n..n + 6] == " (by: " && r[n + 6..|r| - 1] == p
  {
    var r := h + (" (by: " + p + ")");
    assert r == h + " (by: " + (p + ")");
    SlicesOfThree(h, " (by: ", p + ")");
    assert r == (h + " (by: ") + p + ")";
    SlicesOfThree(h + " (by: ", p, ")");
  }

  lemma EventTail(h: string, a: string, b: string)
    ensures var r := h + (" (from: " + a + ", to: " + b + ")");
      var n := |h|;
      var m := n + 8 + |a|;
      && m + 7 + |b| == |r|
      && r[n..n + 8] == " (from: " && r[n + 8..m] == a
      && r[m..m + 6] == ", to: " && r[m + 6..|r| - 1] == b
  {
    var r := h + (" (from: " + a + ", to: " + b + ")");
    assert r == h + " (from: " + (a + ", to: " + b + ")");
    SlicesOfThree(h, " (from: ", a + ", to: " + b + ")");
    assert r == (h + " (from: ") + a + (", to: " + b + ")");
    SlicesOfThree(h + " (from: ", a, ", to: " + b + ")");
    assert r == (h + " (from: " + a) + ", to: " + (b + ")");
    SlicesOfThree(h + " (from: " + a, ", to: ", b + ")");
    assert r == (h + " (from: " + a + ", to: ") + b + ")";
    SlicesOfThree(h + " (from: " + a + ", to: ", b, ")");
  }

  /** The text after the status icon: the closing bracket, the description and the details. */
  function AfterIcon(t: Task): string {
    "] " + t.description + Details(t)
  }

  /** A task's text is the front, the status icon and what follows it. */
  lemma ToStringAroundIcon(t: Task)
    ensures ToString(t) == Front(t) + StatusIcon(t) + AfterIcon(t)
  {
    Regroup(Front(t), StatusIcon(t), "] ", t.description, Details(t));
  }

  lemma Regroup(a: string, b: string, c: string, e: string, d: string)
    ensures a + b + c + e + d == a + b + (c + e + d)
  {
  }

  lemma IconSplit(front: string, icon: string, rest: string)
    requires |front| == 5
    ensures var r := front + icon + rest;
      var k := 5 + |icon|;
      && k <= |r| && r[..5] == front && r[k..] == rest
  {
    SlicesOfThree(front, icon, rest);
  }

  /** Setting the flag leaves the details untouched. */
  lemma DetailsIgnoreDone(t: Task, done: bool)
    ensures Details(SetDone(t, done)) == Details(t)
  {
    match t
    case Todo(_, _) =>
    case Deadline(_, _, _) =>
    case Event(_, _, _, _) =>
  }

  /**
   * Marking or unmarking a task changes only the status icon in its text:
   * the text before the icon and the text after it stay as they were.
   */
  lemma MarkChangesOnlyIcon(t: Task)
    ensures var r := ToString(t);
      var k := 5 + |StatusIcon(t)|;
      && k <= |r|
      && ToString(Mark(t)) == r[..5] + "X" + r[k..]
      && ToString(Unmark(t)) == r[..5] + "  " + r[k..]
  {
    ToStringAroundIcon(t);
    IconSplit(Front(t), StatusIcon(t), AfterIcon(t));
    ToStringAroundIcon(Mark(t));
    ToStringAroundIcon(Unmark(t));
    DetailsIgnoreDone(t, true);
    DetailsIgnoreDone(t, false);
    assert Front(Mark(t)) == Front(t) && AfterIcon(Mark(t)) == AfterIcon(t);
    assert Front(Unmark(t)) == Front(t) && AfterIcon(Unmark(t)) == AfterIcon(t);
  }

  /** `Deadline.getBy`: the due stamp in storage form. */
  function GetBy(t: Task): (r: string)
    requires t.Deadline?
    ensures 'T' in r <==> t.due.hasTime
  {
    StorageString(t.due)
  }

  /** `Event.getFrom`. */
  function GetFrom(t: Task): (r: string)
    requires t.Event?
    ensures 'T' in r <==> t.start.hasTime
  {
    StorageString(t.start)
  }

  /** `Event.getTo`. */
  function GetTo(t: Task): (r: string)
    requires t.Event?
    ensures 'T' in r <==> t.end.hasTime
  {
    StorageString(t.end)
  }

  /** `new Deadline(description, byString)`: the due text goes through the lenient reader, which may reject it. */
  function DeadlineFromText(description: string, byText: string, currentYear: int): (r: Option<Task>)
    ensures r.Some? <==> ParseLenient(byText, currentYear).Some?
    ensures r.Some? ==> r.value.Deadline? && !r.value.done && r.value.description == description
                        && WellFormedTask(r.value) && r.value.due == ParseLenient(byText, currentYear).value
  {
    match ParseLenient(byText, currentYear)
    case None => None
    case Some(due) => Some(Deadline(description, false, due))
  }

  /** `new Event(description, fromString, toString)`: both texts must be readable; their order is not checked. */
  function EventFromText(description: string, fromText: string, toText: string, currentYear: int): (r: Option<Task>)
    ensures r.Some? <==> ParseLenient(fromText, currentYear).Some? && ParseLenient(toText, currentYear).Some?
    ensures r.Some? ==> r.value.Event? && !r.value.done && r.value.description == description
                        && WellFormedTask(r.value)
                        && r.value.start == ParseLenient(fromText, currentYear).value
                        && r.value.end == ParseLenient(toText, currentYear).value
  {
    match ParseLenient(fromText, currentYear)
    case None => None
    case Some(start) =>
      match ParseLenient(toText, currentYear)
      case None => None
      case Some(end) => Some(Event(description, false, start, end))
  }

  /** Re-creating a deadline from its own storage text gives it back, not yet done. */
  lemma DeadlineTextRoundTrip(t: Task, currentYear: int)
    requires t.Deadline? && WellFormedTask(t)
    ensures DeadlineFromText(t.description, GetBy(t), currentYear) == Some(Unmark(t))
  {
    StorageRoundTrip(t.due, currentYear);
  }

  /** Re-creating an event from its own storage texts gives it back, not yet done. */
  lemma EventTextRoundTrip(t: Task, currentYear: int)
    requires t.Event? && WellFormedTask(t)
    ensures EventFromText(t.description, GetFrom(t), GetTo(t), currentYear) == Some(Unmark(t))
  {
    StorageRoundTrip(t.start, currentYear);
    StorageRoundTrip(t.end, currentYear);
  }
}
