/**
 * What the user is told (`duke.ui.Ui`): one constructor per kind of
 * message, carrying the facts the message shows rather than its wording.
 */
module Ui {
  import opened DateTimeUtil
  import opened Tasks

  datatype Message =
    | UnknownEmpty
    | Goodbye
    | ListShown(tasks: seq<Task>)
    /** The usage line of a command, named by its command word. */
    | FormatHelp(command: string)
    /** "Please use a task number between 1 and n." */
    | NumberOutOfRange(size: nat)
    /** A date or date/time text no pattern accepts. */
    | UnreadableDate
    | Added(task: Task, count: nat)
    | Deleted(task: Task, count: nat)
    | Marked(task: Task, mark: bool)
    | AgendaShown(date: LocalDate, matches: seq<Task>)
    | NoTasksToClear
    | ClearPrompt
    | FindResults(keyword: string)
    | UnknownInput(input: string)
    | NoTasksInList
    | InvalidTaskNumber(size: nat)
    | UpdatePrompt(task: Task, index: int)
    | DescriptionPrompt(task: Task)
    | DatePrompt
    | StartDatePrompt
    | EndDatePrompt
    | InvalidChoice
    | EmptyDescription
    /** The replaced task and which part changed: "description", "date/time" or "dates". */
    | TaskUpdated(task: Task, part: string)
    | InvalidDateRetry
    | Cleared
    | ClearCanceled
    | PleaseTypeYesNo
    /** Nothing is printed. */
    | Silent
    /** An exception escaped the input loop and ended the program. */
    | Crashed
}
