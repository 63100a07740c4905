/**
 * The console session (`duke.MrMoon`): the task list plus the two
 * dialogues a line can be answered in, the multi-step update and the clear
 * confirmation. One call of `HandleLine` is one turn of the input loop.
 */
module Session {
  import opened Text
  import opened DateTimeUtil
  import opened Tasks
  import opened TaskLists
  import opened Ui
  import opened Storage
  import opened Commands
  import opened Parser
  import opened UpdateState

  /**
   * The loop's state. `update` is the open update dialogue, if any;
   * `awaitingClear` says a clear command is waiting for yes or no.
   */
  datatype Session = Session(list: TaskList, update: Option<Update>, awaitingClear: bool)

  /** Whether the loop goes on, stops on an exit command, or is ended by an exception nothing catches. */
  datatype Outcome = Continue | Exit | Crash

  /** The state after one line, what was printed, and whether the loop goes on. */
  datatype Turn = Turn(session: Session, reply: Message, outcome: Outcome)

  /** The session right after start-up: the loaded tasks, no dialogue open. */
  function Start(loaded: seq<Task>): (r: Session)
    ensures r.list.tasks == loaded && r.list.saves == []
    ensures r.update.None? && !r.awaitingClear
  {
    Session(FromInitial(Some(loaded)), None, false)
  }

  // ---------------------------------------------------------------------
  // Rebuilding and replacing a task
  // ---------------------------------------------------------------------

  /** A deadline rebuilt with a new description and, when given, a new due text. */
  function RebuildDeadline(original: Task, description: string, newDate: Option<string>, currentYear: int): (r: Option<Task>)
    requires original.Deadline?
    ensures r.Some? ==> r.value.Deadline? && r.value.done == original.done && r.value.description == description
    ensures r.Some? ==> WellFormedTask(r.value)
    ensures newDate.Some? ==> (r.Some? <==> ParseLenient(newDate.value, currentYear).Some?)
    ensures newDate.Some? && r.Some? ==> r.value.due == ParseLenient(newDate.value, currentYear).value
    ensures newDate.None? && WellFormedStamp(original.due) ==> r.Some? && r.value.due == original.due
  {
    if newDate.Some? then
      var made := DeadlineFromText(description, newDate.value, currentYear);
      if made.None? then None else Some(SetDone(made.value, original.done))
    else
      StorageRoundTrip(original.due, currentYear);
      var made := DeadlineFromText(description, GetBy(original), currentYear);
      if made.None? then None else Some(SetDone(made.value, original.done))
  }

  /** The start or end of an event: the new text read when given, the stored one read back otherwise. */
  function RereadStamp(held: Stamp, newText: Option<string>, currentYear: int): (r: Option<Stamp>)
    ensures newText.Some? ==> r == ParseLenient(newText.value, currentYear)
    ensures newText.None? && WellFormedStamp(held) ==> r == Some(held)
    ensures r.Some? ==> WellFormedStamp(r.value)
  {
    if newText.Some? then ParseLenient(newText.value, currentYear)
    else
      StorageRoundTrip(held, currentYear);
      ParseLenient(StorageString(held), currentYear)
  }

  /** An event rebuilt with a new description and, when given, new start and end texts. */
  function RebuildEvent(original: Task, description: string, newDate1: Option<string>, newDate2: Option<string>,
                        currentYear: int): (r: Option<Task>)
    requires original.Event?
    ensures r.Some? ==> r.value.Event? && r.value.done == original.done && r.value.description == description
    ensures r.Some? ==> WellFormedTask(r.value)
    ensures r.Some? <==> RereadStamp(original.start, newDate1, currentYear).Some? && RereadStamp(original.end, newDate2, currentYear).Some?
    ensures r.Some? ==> r.value.start == RereadStamp(original.start, newDate1, currentYear).value
    ensures r.Some? ==> r.value.end == RereadStamp(original.end, newDate2, currentYear).value
  {
    var fromText := if newDate1.Some? then newDate1.value else GetFrom(original);
    var toText := if newDate2.Some? then newDate2.value else GetTo(original);
    var made := EventFromText(description, fromText, toText, currentYear);
    if made.None? then None else Some(SetDone(made.value, original.done))
  }

  /**
   * `createUpdatedTask`: a task of the same kind and completion, built from
   * the new values where given and from the original's own text otherwise
   * (a deadline's or event's dates go through their storage text and are
   * read again). `None` stands for the exception the constructor throws on
   * an unreadable date.
   */
  function CreateUpdatedTask(original: Task, newDesc: Option<string>, newDate1: Option<string>,
                             newDate2: Option<string>, currentYear: int): (r: Option<Task>)
    ensures r.Some? ==>
      && TypeOf(r.value) == TypeOf(original)
      && r.value.done == original.done
      && r.value.description == newDesc.GetOr(original.description)
      && WellFormedTask(r.value)
    ensures original.Todo? ==> r.Some?
    ensures original.Deadline? && newDate1.Some? ==>
      && (r.Some? <==> ParseLenient(newDate1.value, currentYear).Some?)
      && (r.Some? ==> r.value.due == ParseLenient(newDate1.value, currentYear).value)
    ensures original.Deadline? && newDate1.None? && WellFormedTask(original) ==> r.Some? && r.value.due == original.due
    ensures original.Event? ==>
      && (r.Some? <==> RereadStamp(original.start, newDate1, currentYear).Some?
                       && RereadStamp(original.end, newDate2, currentYear).Some?)
      && (r.Some? ==> r.value.start == RereadStamp(original.start, newDate1, currentYear).value
                      && r.value.end == RereadStamp(original.end, newDate2, currentYear).value)
  {
    var description := newDesc.GetOr(original.description);
    match original
    case Todo(_, done) => Some(Todo(description, done))
    case Deadline(_, _, _) => RebuildDeadline(original, description, newDate1, currentYear)
    case Event(_, _, _, _) => RebuildEvent(original, description, newDate1, newDate2, currentYear)
  }

  /** Rebuilding a well-formed task from nothing new gives the task back. */
  lemma RebuildUnchanged(original: Task, currentYear: int)
    requires WellFormedTask(original)
    ensures CreateUpdatedTask(original, None, None, None, currentYear) == Some(original)
  {
  }

  /** `replaceTask`: removes the task at the one-based position and inserts the new one there. */
  function ReplaceTask(l: TaskList, oneBasedIndex: int, t: Task): (r: Option<TaskList>)
    ensures r.None? <==> !(1 <= oneBasedIndex <= |l.tasks|)
    ensures r.Some? ==>
      && r.value.tasks == l.tasks[oneBasedIndex - 1 := t]
      && |r.value.saves| == |l.saves| + 2
      && Synced(r.value)
  {
    match Remove(l, oneBasedIndex - 1)
    case None => None
    case Some(removed) =>
      RemoveThenInsertReplaces(l, oneBasedIndex - 1, t);
      InsertAt(removed.0, oneBasedIndex - 1, t)
  }

  // ---------------------------------------------------------------------
  // The update dialogue, one handler per step
  // ---------------------------------------------------------------------

  /** The dialogue stays open at the given state. */
  function Stay(s: Session, u: Update, reply: Message): Turn {
    Turn(s.(update := Some(u)), reply, Continue)
  }

  /** The dialogue is over: the task was replaced. */
  function Finish(s: Session, l: TaskList, t: Task, part: string): Turn {
    Turn(s.(list := l, update := None), TaskUpdated(t, part), Continue)
  }

  /** `handleUpdateChoice`: `1`/`rename` asks for a description, `2`/`edit date` for the date or dates. */
  function HandleChoice(s: Session, u: Update, input: string): (r: Turn)
    ensures r.outcome == Continue && r.session.list == s.list && r.session.awaitingClear == s.awaitingClear
    ensures r.session.update.Some? && r.session.update.value.original == u.original
    ensures r.session.update.value.taskIndex == u.taskIndex
    ensures var choice := Trim(ToLower(input));
      && (choice == "1" || choice == "rename" ==>
            r.session.update.value.step == WaitingForDescription && r.reply == DescriptionPrompt(u.original))
      && (choice == "2" || choice == "edit date" ==>
            && (u.original.Deadline? ==> r.session.update.value.step == WaitingForDate && r.reply == DatePrompt)
            && (u.original.Event? ==> r.session.update.value.step == WaitingForStartDate && r.reply == StartDatePrompt)
            && (u.original.Todo? ==> r.session.update.value == u && r.reply == Silent))
      && (choice != "1" && choice != "rename" && choice != "2" && choice != "edit date" ==>
            r.session.update.value == u && r.reply == InvalidChoice)
  {
    var choice := Trim(ToLower(input));
    if choice == "1" || choice == "rename" then
      Stay(s, WithStep(u, WaitingForDescription), DescriptionPrompt(u.original))
    else if choice == "2" || choice == "edit date" then
      if u.original.Deadline? then Stay(s, WithStep(u, WaitingForDate), DatePrompt)
      else if u.original.Event? then Stay(s, WithStep(u, WaitingForStartDate), StartDatePrompt)
      else Stay(s, u, Silent)
    else Stay(s, u, InvalidChoice)
  }

  /**
   * `handleDescriptionUpdate`: a blank description is refused; otherwise
   * the task is rebuilt with it and put back. Nothing catches a failure
   * here, so a rebuild or replacement that fails ends the session.
   */
  function HandleDescription(s: Session, u: Update, input: string, currentYear: int): (r: Turn)
    ensures IsTrimEmpty(input) ==> r == Stay(s, u, EmptyDescription)
    ensures !IsTrimEmpty(input) && r.outcome == Continue ==>
      && CreateUpdatedTask(u.original, Some(input), None, None, currentYear).Some?
      && ReplaceTask(s.list, u.taskIndex, CreateUpdatedTask(u.original, Some(input), None, None, currentYear).value).Some?
      && r == Finish(s, ReplaceTask(s.list, u.taskIndex,
                            CreateUpdatedTask(u.original, Some(input), None, None, currentYear).value).value,
                     CreateUpdatedTask(u.original, Some(input), None, None, currentYear).value, "description")
    ensures r.outcome != Exit
  {
    if IsTrimEmpty(input) then Stay(s, u, EmptyDescription)
    else
      match CreateUpdatedTask(u.original, Some(input), None, None, currentYear)
      case None => Turn(s, Crashed, Crash)
      case Some(t) =>
        match ReplaceTask(s.list, u.taskIndex, t)
        case None => Turn(s, Crashed, Crash)
        case Some(l) => Finish(s, l, t, "description")
  }

  /**
   * Rebuilds the task with new date texts and puts it back; any failure is
   * caught and answered with a request to try again, the dialogue left as it was.
   */
  function ReplaceDates(s: Session, u: Update, newDate1: Option<string>, newDate2: Option<string>,
                        part: string, currentYear: int): (r: Turn)
    ensures r.outcome == Continue
    ensures r.session.update.None? || r == Stay(s, u, InvalidDateRetry)
    ensures r.session.update.None? ==>
      && CreateUpdatedTask(u.original, None, newDate1, newDate2, currentYear).Some?
      && var t := CreateUpdatedTask(u.original, None, newDate1, newDate2, currentYear).value;
         && ReplaceTask(s.list, u.taskIndex, t).Some?
         && r == Finish(s, ReplaceTask(s.list, u.taskIndex, t).value, t, part)
  {
    match CreateUpdatedTask(u.original, None, newDate1, newDate2, currentYear)
    case None => Stay(s, u, InvalidDateRetry)
    case Some(t) =>
      match ReplaceTask(s.list, u.taskIndex, t)
      case None => Stay(s, u, InvalidDateRetry)
      case Some(l) => Finish(s, l, t, part)
  }

  /** `handleDateUpdate`: a readable date replaces a deadline's due date. */
  function HandleDate(s: Session, u: Update, input: string, currentYear: int): (r: Turn)
    ensures ParseLenient(input, currentYear).None? ==> r == Stay(s, u, InvalidDateRetry)
    ensures ParseLenient(input, currentYear).Some? ==>
      r == ReplaceDates(s, u, Some(input), None, "date/time", currentYear)
  {
    if ParseLenient(input, currentYear).None? then Stay(s, u, InvalidDateRetry)
    else ReplaceDates(s, u, Some(input), None, "date/time", currentYear)
  }

  /** `handleStartDateUpdate`: a readable start text is kept and the end is asked for. */
  function HandleStartDate(s: Session, u: Update, input: string, currentYear: int): (r: Turn)
    ensures r.outcome == Continue && r.session.list == s.list
    ensures ParseLenient(input, currentYear).None? ==> r == Stay(s, u, InvalidDateRetry)
    ensures ParseLenient(input, currentYear).Some? ==>
      r == Stay(s, u.(step := WaitingForEndDate, newStartDate := Some(input)), EndDatePrompt)
  {
    if ParseLenient(input, currentYear).None? then Stay(s, u, InvalidDateRetry)
    else Stay(s, WithStep(WithNewStartDate(u, input), WaitingForEndDate), EndDatePrompt)
  }

  /** `handleEndDateUpdate`: a readable end text replaces both of an event's dates. */
  function HandleEndDate(s: Session, u: Update, input: string, currentYear: int): (r: Turn)
    ensures ParseLenient(input, currentYear).None? ==> r == Stay(s, u, InvalidDateRetry)
    ensures ParseLenient(input, currentYear).Some? ==>
      r == ReplaceDates(s, u, u.newStartDate, Some(input), "dates", currentYear)
  {
    if ParseLenient(input, currentYear).None? then Stay(s, u, InvalidDateRetry)
    else ReplaceDates(s, u, u.newStartDate, Some(input), "dates", currentYear)
  }

  /** `handleUpdateState`: the step decides which handler answers the (trimmed) line. */
  function HandleUpdate(s: Session, u: Update, input: string, currentYear: int): (r: Turn)
    ensures r.outcome != Exit
  {
    match u.step
    case WaitingForChoice => HandleChoice(s, u, input)
    case WaitingForDescription => HandleDescription(s, u, input, currentYear)
    case WaitingForDate => HandleDate(s, u, input, currentYear)
    case WaitingForStartDate => HandleStartDate(s, u, input, currentYear)
    case WaitingForEndDate => HandleEndDate(s, u, input, currentYear)
  }

  // ---------------------------------------------------------------------
  // The clear confirmation and ordinary commands
  // ---------------------------------------------------------------------

  /** `handleClearConfirmation`: `yes` empties the list, `no` leaves it; either closes the question. */
  function HandleClear(s: Session, response: string): (r: Turn)
    ensures r.outcome == Continue && r.session.update == s.update
    ensures response == "yes" ==> r.session.list == Clear(s.list) && !r.session.awaitingClear && r.reply == Cleared
    ensures response == "no" ==> r.session.list == s.list && !r.session.awaitingClear && r.reply == ClearCanceled
    ensures response != "yes" && response != "no" ==> r == Turn(s, PleaseTypeYesNo, Continue)
  {
    match response
    case "yes" => Turn(s.(list := Clear(s.list), awaitingClear := false), Cleared, Continue)
    case "no" => Turn(s.(awaitingClear := false), ClearCanceled, Continue)
    case _ => Turn(s, PleaseTypeYesNo, Continue)
  }

  /**
   * Runs a command outside any dialogue; afterwards an update command with
   * a position inside the list opens the update dialogue on that task, and
   * a clear command on a non-empty list opens the confirmation.
   */
  function Dispatch(s: Session, c: Command, currentYear: int): (r: Turn)
    requires s.update.None? && !s.awaitingClear
    ensures var e := Execute(c, s.list, currentYear);
      && r.session.list == e.list && r.reply == e.message
      && (r.outcome == Exit <==> IsExit(c))
      && r.outcome != Crash
      && (r.session.update.Some? <==> c.UpdateCmd? && 1 <= c.index <= |e.list.tasks|)
      && (r.session.update.Some? ==> r.session.update.value == Begin(c.index, e.list.tasks[c.index - 1]))
      && (r.session.awaitingClear <==> c.ClearCmd? && e.list.tasks != [])
  {
    var e := Execute(c, s.list, currentYear);
    var update :=
      if c.UpdateCmd? && 1 <= c.index <= |e.list.tasks| then Some(Begin(c.index, e.list.tasks[c.index - 1]))
      else None;
    var awaitingClear := c.ClearCmd? && |e.list.tasks| > 0;
    Turn(Session(e.list, update, awaitingClear), e.message, if IsExit(c) then Exit else Continue)
  }

  /**
   * One turn of `run`: an open update dialogue takes the trimmed line
   * first, then a pending clear confirmation takes it trimmed and lower
   * cased; only otherwise is the line read as a command.
   */
  function HandleLine(s: Session, line: string, currentYear: int): (r: Turn)
    requires !(s.update.Some? && s.awaitingClear)
    ensures r.outcome == Exit <==> s.update.None? && !s.awaitingClear && ParseCommand(line).ExitCmd?
    ensures s.update.None? && r.session.update.Some? ==> !s.awaitingClear && ParseCommand(line).UpdateCmd?
  {
    if s.update.Some? then HandleUpdate(s, s.update.value, Trim(line), currentYear)
    else if s.awaitingClear then HandleClear(s, ToLower(Trim(line)))
    else Dispatch(s, ParseCommand(line), currentYear)
  }

  // ---------------------------------------------------------------------
  // What the session keeps
  // ---------------------------------------------------------------------

  /** An open update dialogue points at the task it copied, at a step that fits it. */
  predicate UpdateFits(u: Update, l: TaskList, currentYear: int) {
    && 1 <= u.taskIndex <= |l.tasks|
    && l.tasks[u.taskIndex - 1] == u.original
    && StepFits(u)
    && (u.newStartDate.Some? ==> ParseLenient(u.newStartDate.value, currentYear).Some?)
  }

  /**
   * The session invariant: at most one dialogue is open, every task is well
   * formed, the record file holds the list once anything was written, an
   * open update matches the list, and a pending clear has something to clear.
   */
  predicate Inv(s: Session, currentYear: int) {
    && !(s.update.Some? && s.awaitingClear)
    && AllWellFormed(s.list.tasks)
    && Synced(s.list)
    && (s.update.Some? ==> UpdateFits(s.update.value, s.list, currentYear))
    && (s.awaitingClear ==> s.list.tasks != [])
  }

  /** Start-up from whatever the record file holds satisfies the invariant. */
  lemma StartInv(file: Option<seq<string>>, currentYear: int)
    ensures Inv(Start(Load(file).tasks), currentYear)
  {
  }

  /** Replacing a task of a well-formed list by a well-formed one keeps it well formed. */
  lemma ReplaceWellFormed(tasks: seq<Task>, k: int, t: Task)
    requires 0 <= k < |tasks| && AllWellFormed(tasks) && WellFormedTask(t)
    ensures AllWellFormed(tasks[k := t])
  {
    forall x | x in tasks[k := t] ensures WellFormedTask(x) {
      var j :| 0 <= j < |tasks[k := t]| && tasks[k := t][j] == x;
      if j != k {
        assert tasks[j] in tasks;
      }
    }
  }

  /** The task an open dialogue copied is well formed. */
  lemma OriginalWellFormed(s: Session, currentYear: int)
    requires Inv(s, currentYear) && s.update.Some?
    ensures WellFormedTask(s.update.value.original)
  {
    var u := s.update.value;
    assert s.list.tasks[u.taskIndex - 1] in s.list.tasks;
  }

  /** The choice step only moves the dialogue on, to a step that fits the task. */
  lemma ChoiceKeeps(s: Session, u: Update, input: string, currentYear: int)
    requires Inv(s, currentYear) && s.update == Some(u) && u.step == WaitingForChoice
    ensures Inv(HandleChoice(s, u, input).session, currentYear)
  {
  }

  /** A rename either waits for a non-blank description or replaces the task; it never fails. */
  lemma DescriptionKeeps(s: Session, u: Update, input: string, currentYear: int)
    requires Inv(s, currentYear) && s.update == Some(u)
    ensures var r := HandleDescription(s, u, input, currentYear);
      Inv(r.session, currentYear) && r.outcome == Continue
  {
    if !IsTrimEmpty(input) {
      OriginalWellFormed(s, currentYear);
      var t := CreateUpdatedTask(u.original, Some(input), None, None, currentYear);
      ReplaceWellFormed(s.list.tasks, u.taskIndex - 1, t.value);
    }
  }

  /** Replacing dates either finishes with a well-formed task in place or leaves the session as it was. */
  lemma ReplaceDatesKeeps(s: Session, u: Update, newDate1: Option<string>, newDate2: Option<string>,
                          part: string, currentYear: int)
    requires Inv(s, currentYear) && s.update == Some(u)
    ensures Inv(ReplaceDates(s, u, newDate1, newDate2, part, currentYear).session, currentYear)
  {
    var t := CreateUpdatedTask(u.original, None, newDate1, newDate2, currentYear);
    if t.Some? {
      ReplaceWellFormed(s.list.tasks, u.taskIndex - 1, t.value);
    }
  }

  /** A deadline's date step either finishes or waits again, keeping the invariant. */
  lemma DateKeeps(s: Session, u: Update, input: string, currentYear: int)
    requires Inv(s, currentYear) && s.update == Some(u)
    ensures Inv(HandleDate(s, u, input, currentYear).session, currentYear)
  {
    ReplaceDatesKeeps(s, u, Some(input), None, "date/time", currentYear);
  }

  /** An event's start step only records a readable start text and moves on to the end. */
  lemma StartDateKeeps(s: Session, u: Update, input: string, currentYear: int)
    requires Inv(s, currentYear) && s.update == Some(u) && u.step == WaitingForStartDate
    ensures Inv(HandleStartDate(s, u, input, currentYear).session, currentYear)
  {
    var r := HandleStartDate(s, u, input, currentYear);
    if ParseLenient(input, currentYear).None? {
      assert r.session == s;
    } else {
      StartRecordedKeeps(s, u, input, currentYear);
    }
  }

  lemma StartRecordedKeeps(s: Session, u: Update, input: string, currentYear: int)
    requires Inv(s, currentYear) && s.update == Some(u) && u.step == WaitingForStartDate
    requires ParseLenient(input, currentYear).Some?
    ensures Inv(s.(update := Some(u.(step := WaitingForEndDate, newStartDate := Some(input)))), currentYear)
  {
    var next := u.(step := WaitingForEndDate, newStartDate := Some(input));
    MoveOnKeeps(s, next, currentYear);
  }

  /** Moving an open dialogue to another state that fits the list keeps the invariant. */
  lemma MoveOnKeeps(s: Session, next: Update, currentYear: int)
    requires Inv(s, currentYear) && s.update.Some?
    requires next.taskIndex == s.update.value.taskIndex && next.original == s.update.value.original
    requires StepFits(next)
    requires next.newStartDate.Some? ==> ParseLenient(next.newStartDate.value, currentYear).Some?
    ensures Inv(s.(update := Some(next)), currentYear)
  {
  }

  /** An event's end step either finishes or waits again, keeping the invariant. */
  lemma EndDateKeeps(s: Session, u: Update, input: string, currentYear: int)
    requires Inv(s, currentYear) && s.update == Some(u)
    ensures Inv(HandleEndDate(s, u, input, currentYear).session, currentYear)
  {
    ReplaceDatesKeeps(s, u, u.newStartDate, Some(input), "dates", currentYear);
  }

  /** The confirmation either clears (leaving an empty, saved list), cancels, or asks again. */
  /**
   * While the clear question is open, a typed line is only its answer: trimmed
   * and lower-cased, `yes` clears and `no` keeps the list, and anything else,
   * a command word included, changes nothing and asks again.
   */
  lemma ClearAnswersLine(s: Session, line: string, currentYear: int)
    requires s.update.None? && s.awaitingClear
    ensures var r := HandleLine(s, line, currentYear);
      && r.outcome == Continue && r.session.update.None?
      && (ToLower(Trim(line)) == "yes" ==>
            && r.session.list.tasks == [] && r.session.list.saves == s.list.saves + [[]]
            && !r.session.awaitingClear && r.reply == Cleared)
      && (ToLower(Trim(line)) == "no" ==> r.session.list == s.list && !r.session.awaitingClear && r.reply == ClearCanceled)
      && (ToLower(Trim(line)) != "yes" && ToLower(Trim(line)) != "no" ==> r.session == s && r.reply == PleaseTypeYesNo)
  {
    assert HandleLine(s, line, currentYear) == HandleClear(s, ToLower(Trim(line)));
  }

  lemma ClearKeeps(s: Session, response: string, currentYear: int)
    requires Inv(s, currentYear) && s.update.None?
    ensures Inv(HandleClear(s, response).session, currentYear)
  {
  }

  /** A command keeps the invariant, and the dialogues it opens start in a state that fits. */
  lemma DispatchKeeps(s: Session, c: Command, currentYear: int)
    requires Inv(s, currentYear) && s.update.None? && !s.awaitingClear
    ensures Inv(Dispatch(s, c, currentYear).session, currentYear)
  {
    ExecuteKeepsInvariants(c, s.list, currentYear);
    var r := Dispatch(s, c, currentYear);
    if r.session.update.Some? {
      BeginFits(c.index, r.session.list.tasks[c.index - 1]);
    }
  }

  /**
   * Every line keeps the session invariant, and no line ends the session
   * with an uncaught exception: the rebuild a rename does always succeeds
   * on a task the dialogue copied.
   */
  lemma HandleLineKeepsInv(s: Session, line: string, currentYear: int)
    requires Inv(s, currentYear)
    ensures Inv(HandleLine(s, line, currentYear).session, currentYear)
    ensures HandleLine(s, line, currentYear).outcome != Crash
  {
    if s.update.Some? {
      var u := s.update.value;
      var input := Trim(line);
      match u.step
      case WaitingForChoice => ChoiceKeeps(s, u, input, currentYear);
      case WaitingForDescription => DescriptionKeeps(s, u, input, currentYear);
      case WaitingForDate => DateKeeps(s, u, input, currentYear);
      case WaitingForStartDate => StartDateKeeps(s, u, input, currentYear);
      case WaitingForEndDate => EndDateKeeps(s, u, input, currentYear);
    } else if s.awaitingClear {
      ClearKeeps(s, ToLower(Trim(line)), currentYear);
    } else {
      DispatchKeeps(s, ParseCommand(line), currentYear);
    }
  }

  // ---------------------------------------------------------------------
  // What the update dialogue does to the list
  // ---------------------------------------------------------------------

  /** Renaming a well-formed task changes its description and nothing else. */
  lemma RebuildRenames(original: Task, description: string, currentYear: int)
    requires WellFormedTask(original)
    ensures CreateUpdatedTask(original, Some(description), None, None, currentYear)
            == Some(original.(description := description))
  {
  }

  /** A readable due text changes a deadline's due stamp and nothing else. */
  lemma RebuildRedates(original: Task, dueText: string, currentYear: int)
    requires original.Deadline? && ParseLenient(dueText, currentYear).Some?
    ensures CreateUpdatedTask(original, None, Some(dueText), None, currentYear)
            == Some(original.(due := ParseLenient(dueText, currentYear).value))
  {
  }

  /** Readable start and end texts change an event's two stamps and nothing else. */
  lemma RebuildReschedules(original: Task, startText: string, endText: string, currentYear: int)
    requires original.Event? && ParseLenient(startText, currentYear).Some? && ParseLenient(endText, currentYear).Some?
    ensures CreateUpdatedTask(original, None, Some(startText), Some(endText), currentYear)
            == Some(original.(start := ParseLenient(startText, currentYear).value,
                              end := ParseLenient(endText, currentYear).value))
  {
  }

  /** When the rebuild succeeds, the dates step closes the dialogue with the rebuilt task in place. */
  lemma ReplaceDatesPuts(s: Session, u: Update, newDate1: Option<string>, newDate2: Option<string>,
                         part: string, t: Task, currentYear: int)
    requires 1 <= u.taskIndex <= |s.list.tasks|
    requires CreateUpdatedTask(u.original, None, newDate1, newDate2, currentYear) == Some(t)
    ensures var r := ReplaceDates(s, u, newDate1, newDate2, part, currentYear);
      r.session.update.None? && r.session.list.tasks == s.list.tasks[u.taskIndex - 1 := t]
  {
  }

  /** A rename puts the same task, with only its description changed, back at its place. */
  lemma RenameReplacesDescription(s: Session, line: string, currentYear: int)
    requires Inv(s, currentYear) && s.update.Some? && s.update.value.step == WaitingForDescription
    requires !IsTrimEmpty(line)
    ensures var u := s.update.value;
      var r := HandleLine(s, line, currentYear);
      && r.session.update.None? && r.outcome == Continue
      && r.session.list.tasks == s.list.tasks[u.taskIndex - 1 := u.original.(description := Trim(line))]
      && r.reply == TaskUpdated(u.original.(description := Trim(line)), "description")
  {
    var u := s.update.value;
    TrimIdempotent(line);
    OriginalWellFormed(s, currentYear);
    RebuildRenames(u.original, Trim(line), currentYear);
    assert HandleLine(s, line, currentYear) == HandleDescription(s, u, Trim(line), currentYear);
  }

  /** A readable date replaces a deadline's due stamp and nothing else. */
  lemma DateEditReplacesDue(s: Session, line: string, currentYear: int)
    requires Inv(s, currentYear) && s.update.Some? && s.update.value.step == WaitingForDate
    requires ParseLenient(Trim(line), currentYear).Some?
    ensures var u := s.update.value;
      var due := ParseLenient(Trim(line), currentYear).value;
      var r := HandleLine(s, line, currentYear);
      && r.session.update.None? && r.outcome == Continue
      && r.session.list.tasks == s.list.tasks[u.taskIndex - 1 := u.original.(due := due)]
  {
    var u := s.update.value;
    var input := Trim(line);
    RebuildRedates(u.original, input, currentYear);
    ReplaceDatesPuts(s, u, Some(input), None, "date/time",
                     u.original.(due := ParseLenient(input, currentYear).value), currentYear);
    assert HandleLine(s, line, currentYear) == HandleDate(s, u, input, currentYear);
  }

  /** A readable end date replaces both of an event's stamps with the two texts typed. */
  lemma EndDateEditReplacesDates(s: Session, line: string, currentYear: int)
    requires Inv(s, currentYear) && s.update.Some? && s.update.value.step == WaitingForEndDate
    requires ParseLenient(Trim(line), currentYear).Some?
    ensures var u := s.update.value;
      var start := ParseLenient(u.newStartDate.value, currentYear).value;
      var end := ParseLenient(Trim(line), currentYear).value;
      var r := HandleLine(s, line, currentYear);
      && r.session.update.None? && r.outcome == Continue
      && r.session.list.tasks == s.list.tasks[u.taskIndex - 1 := u.original.(start := start, end := end)]
  {
    var u := s.update.value;
    var input := Trim(line);
    var startText := u.newStartDate.value;
    RebuildReschedules(u.original, startText, input, currentYear);
    ReplaceDatesPuts(s, u, u.newStartDate, Some(input), "dates",
                     u.original.(start := ParseLenient(startText, currentYear).value,
                                 end := ParseLenient(input, currentYear).value), currentYear);
    assert HandleLine(s, line, currentYear) == HandleEndDate(s, u, input, currentYear);
  }

  /**
   * Opening the update dialogue on a todo skips the choice: the very next
   * non-blank line becomes the new description, even a line such as
   * `rename` that would have been a choice for a deadline or an event.
   */
  lemma TodoUpdateTakesNextLineAsName(s: Session, line: string, currentYear: int)
    requires Inv(s, currentYear) && s.update.None? && !s.awaitingClear
    requires s.list.tasks != [] && s.list.tasks[0].Todo?
    requires !IsTrimEmpty(line)
    ensures var dialogue := Dispatch(s, UpdateCmd(1), currentYear).session;
      var r := HandleLine(dialogue, line, currentYear);
      && dialogue.update.Some?
      && r.session.update.None?
      && r.session.list.tasks == s.list.tasks[0 := Todo(Trim(line), s.list.tasks[0].done)]
  {
    var dialogue := Dispatch(s, UpdateCmd(1), currentYear).session;
    DispatchKeeps(s, UpdateCmd(1), currentYear);
    RenameReplacesDescription(dialogue, line, currentYear);
  }

  /** An unreadable date leaves the session exactly as it was, waiting at the same step. */
  lemma UnreadableDateRetries(s: Session, line: string, currentYear: int)
    requires s.update.Some? && !s.awaitingClear
    requires s.update.value.step in {WaitingForDate, WaitingForStartDate, WaitingForEndDate}
    requires ParseLenient(Trim(line), currentYear).None?
    ensures HandleLine(s, line, currentYear) == Turn(s, InvalidDateRetry, Continue)
  {
    var u := s.update.value;
    assert HandleLine(s, line, currentYear) == HandleUpdate(s, u, Trim(line), currentYear);
  }
}
