/**
 * The state of an update dialogue (`duke.util.UpdateStateUtil`): which task
 * is being changed, the task as it was when the dialogue opened, the step
 * the dialogue is waiting at, and the start date typed so far for an event.
 */
module UpdateState {
  import opened Text
  import opened Tasks

  /** What the dialogue waits for next. */
  datatype Step =
    | WaitingForChoice
    | WaitingForDescription
    | WaitingForDate
    | WaitingForStartDate
    | WaitingForEndDate

  /**
   * `taskIndex` is the one-based position the session hands over (the
   * class documents it as zero-based, but every caller passes the number
   * the user typed); `newStartDate` is the raw text, absent until set.
   */
  datatype Update = Update(taskIndex: int, original: Task, step: Step, newStartDate: Option<string>)

  /** The constructor: a todo has only its description to change, so its dialogue skips the choice. */
  function Begin(taskIndex: int, original: Task): (r: Update)
    ensures r.taskIndex == taskIndex && r.original == original && r.newStartDate.None?
    ensures r.step == WaitingForDescription <==> original.Todo?
    ensures r.step == WaitingForChoice <==> !original.Todo?
  {
    Update(taskIndex, original, if TypeOf(original) == TODO then WaitingForDescription else WaitingForChoice, None)
  }

  /** `setStep`: changes the step and nothing else. */
  function WithStep(u: Update, step: Step): (r: Update)
    ensures r.step == step
    ensures r.taskIndex == u.taskIndex && r.original == u.original && r.newStartDate == u.newStartDate
  {
    u.(step := step)
  }

  /** `setNewStartDate`: records the start text and nothing else. */
  function WithNewStartDate(u: Update, startText: string): (r: Update)
    ensures r.newStartDate == Some(startText)
    ensures r.taskIndex == u.taskIndex && r.original == u.original && r.step == u.step
  {
    u.(newStartDate := Some(startText))
  }

  /**
   * The steps a dialogue can be at for the kind of task it changes: only a
   * deadline has a single date, only an event has a start and an end, and
   * the end is asked for once a start has been typed.
   */
  predicate StepFits(u: Update) {
    match u.step
    case WaitingForChoice => !u.original.Todo?
    case WaitingForDescription => true
    case WaitingForDate => u.original.Deadline?
    case WaitingForStartDate => u.original.Event?
    case WaitingForEndDate => u.original.Event? && u.newStartDate.Some?
  }

  /** A dialogue starts at a step that fits its task, with no start text. */
  lemma BeginFits(taskIndex: int, original: Task)
    ensures StepFits(Begin(taskIndex, original))
    ensures Begin(taskIndex, original).step != WaitingForEndDate
  {
  }

  /** Recording a start text and then moving on to the end step fits an event. */
  lemma StartThenEndFits(u: Update, startText: string)
    requires u.original.Event?
    ensures StepFits(WithStep(WithNewStartDate(u, startText), WaitingForEndDate))
  {
  }
}
