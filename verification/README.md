# MrMoon task tracker: a Dafny model of its core

MrMoon (package `duke`) is a console task tracker with three kinds of task:
- a **todo** has a description only;
- a **deadline** adds a due date;
- an **event** adds a start and an end.

Each date may carry a time of day or not. The user types one command per line. Every change to the list is written to a record file at once. Two commands open a small dialogue that takes the following lines:
- `clear` asks for `yes`/`no`;
- `update` walks through choosing a field and typing its new value.

This project models that core as pure Dafny functions over immutable values and proves what it promises. Each module follows one part of the program:

| module | file | models |
|---|---|---|
| `Text` | text.dfy | the Java `String` operations the core relies on: `trim`, ASCII `toLowerCase`, `indexOf`/`lastIndexOf`, `split("\t")` with its dropping of trailing empty fields, digit runs and zero padding |
| `DateTimeUtil` | datetime.dfy | `parseLenientResult`. Each accepted format is a list of fields matched left to right, and formats are tried in the program's order: the six date-with-time formats first, then the six date-only ones. Also modelled: the current-year default for dates typed without a year, and the storage and display renderings |
| `Tasks` | tasks.dfy | `Task`, `Todo`, `Deadline`, `Event`, `TaskType`: marking, the status icon, `toString`'s heading, the storage texts of a task's dates, and the constructors that read date texts |
| `Storage` | storage.dfy | the tab-separated record format (`encode`/`parseLine`), `load` (blank lines skipped, one bad line discards the whole file), and `save` |
| `TaskLists` | tasklist.dfy | `TaskList`. A non-ghost log `saves` records the list each time it is written, so the rule "every mutation saves the whole list" is a checkable property. Also `tasksOn`, the agenda filter |
| `Commands` | commands.dfy | the `execute` method of every command class, as a function from a list to a new list plus the message shown |
| `Parser` | parser.dfy | `parseCommand`, `getCommandWord`, `getArguments`, `parseDeadlineArgs`, `parseEventArgs`, `parseOneBasedIndex` |
| `UpdateState` | update_state.dfy | `UpdateStateUtil`: the update dialogue's step, the task it copied and the start text typed so far |
| `Ui` | ui.dfy | one message constructor per thing the program prints, carrying the facts shown rather than the wording |
| `Session` | session.dfy | `MrMoon.run` and its handlers. One call of `HandleLine` is one turn of the input loop. An uncaught exception is an explicit `Crash` outcome |

The main results:
- **Storage.** Saving any list of storable tasks and loading the file back gives the same list (`Storage.LoadSaveRoundTrip`). Dates go through their storage text and back unchanged (`DateTimeUtil.StorageRoundTrip`). A date-only stamp also survives its display text, `d MMM yyyy`, which is one of the accepted input formats (`DateTimeUtil.PrettyDateRoundTrip`).
- **Parser.** Every command line is read as written, with the **last** `/by`, `/from` or `/to` marker deciding the split (`Parser.ParseDeadlineLine`, `Parser.ParseEventLine`).
- **Commands.** Every command keeps the list well formed and in step with the record file (`Commands.ExecuteKeepsInvariants`).
- **Session.** Every line keeps the session invariant and never ends the session with an exception (`Session.HandleLineKeepsInv`). Each update step replaces exactly the task it copied, changing only the chosen field (`Session.RenameReplacesDescription`, `Session.DateEditReplacesDue`, `Session.EndDateEditReplacesDates`).

Behaviour worth knowing, as the code has it:
- **No `update` command word.** The help listing offers `update <task_number>` (src/main/java/duke/util/CommandListingUtil.java:19). But `parseCommand` has no `update` case (src/main/java/duke/parser/Parser.java:23-51), so a typed `update 3` is an unknown command. The model keeps the update command and its dialogue. `Session.Dispatch` takes a parsed command, so the update path can be reached from a command value, but `Parser.ParseCommand` never produces one.
- **A todo's next line is its new name.** The dialogue on a todo starts at the description step (src/main/java/duke/util/UpdateStateUtil.java:54-55). So a line such as `rename`, typed after the dialogue opens, becomes the todo's new description; it is not read as a choice (`Session.TodoUpdateTakesNextLineAsName`).
- **Blank todo.** `todo` followed by nothing is parsed as a todo command (src/main/java/duke/parser/Parser.java:27). Its `execute` then prints the usage line (src/main/java/duke/command/TodoCommand.java:37-40).
- **Event order.** The `Event` constructors store the two dates as read (src/main/java/duke/task/Event.java:56-63). Nothing compares them, so an event that ends before it starts is accepted.
- **Status icon.** An undone task's status icon is two spaces (src/main/java/duke/task/Task.java:74). The unit test expects one space (src/test/java/duke/task/TaskTest.java:59-61); the model follows the code.
- **`Event` task type.** `Event` declares no `getTaskType` (src/main/java/duke/task/Event.java) but is handled everywhere as `EVENT`, and the model does the same.
- **`add(int, Task)`.** `replaceTask` calls `add(int, Task)` (src/main/java/duke/MrMoon.java:347), which `TaskList` does not declare. The model gives it the behaviour of `List.add(int, E)` followed by a save, like every other mutation.

## Model

| member | source | states |
|---|---|---|
| `Text.TrimIsInfix` | src/main/java/duke/parser/Parser.java:73-75 | `trim` removes only characters at or below a space, and only from the two ends: the result is a slice of the input with such characters all around it |
| `Text.TrimEmptyIff` | src/main/java/duke/command/TodoCommand.java:37-40 | a text trims to nothing exactly when every character in it is at or below a space |
| `Text.LastIndexOf` | src/main/java/duke/parser/Parser.java:87 | the position found is an occurrence and no later occurrence exists, and -1 means the marker occurs nowhere |
| `Text.SplitJoin` | src/main/java/duke/storage/Storage.java:88-103 | splitting on tabs undoes joining with tabs, for fields free of tabs whose last one is not empty |
| `Text.DigitsOfNat` | src/main/java/duke/parser/Parser.java:133-137 | the decimal numeral of a number reads back as that number |
| `DateTimeUtil.WithYear` | src/main/java/duke/util/DateTimeUtil.java:145-148 | moving a date to another year keeps its month and clamps the day to the month's length in that year, and fails only outside years 1 to 9999 |
| `DateTimeUtil.FirstMatch` | src/main/java/duke/util/DateTimeUtil.java:131-138 | the format chosen accepts the text and every format before it rejects it, and no result means every format rejects it |
| `DateTimeUtil.MonthNumber` | src/main/java/duke/util/DateTimeUtil.java:54-57 | a month name is read as the month whose English abbreviation it equals, case-insensitively where the format says so, and no result means no abbreviation matches |
| `DateTimeUtil.ParseDateOnly` | src/main/java/duke/util/DateTimeUtil.java:141-153 | a text that some date format accepts always gives a date-only stamp at midnight (for a current year in 1 to 9999). Its date is the first accepting format's date, moved into the current year when the text holds no run of four digits; without an accepting format nothing is read |
| `DateTimeUtil.ParseLenient` | src/main/java/duke/util/DateTimeUtil.java:124-157 | blank input is refused; any date-with-time format beats every date-only format, and its instant is kept with its time; when only a date format accepts the trimmed text, the result is that format's date at midnight, moved into the current year when no year was typed; nothing is read when no format accepts the trimmed text |
| `DateTimeUtil.Resolve` | src/main/java/duke/util/DateTimeUtil.java:39-89 | a date is resolved only from a month and a day, plus a year that was typed or that the format defaults to the current year. Outside hour 24, the result has the typed year (or the current year), the typed month, and the typed day clamped to the month's length by `SMART` (kept exactly by `STRICT`). It has the typed hour and minute, and a format without an hour gives midnight. The hour 24 is read only by a `SMART` format, again as a midnight |
| `DateTimeUtil.SmartReadsHour24` | src/main/java/duke/util/DateTimeUtil.java:63-84 | a `SMART` format reads 24:00 on a date as midnight at the start of the following day |
| `DateTimeUtil.NextDay` | src/main/java/duke/util/DateTimeUtil.java:63-84 | the day after a date is later than it, and exists for every date but 31 December 9999 |
| `DateTimeUtil.NextDayIsNext` | src/main/java/duke/util/DateTimeUtil.java:63-84 | no date lies strictly between a date and the day after it |
| `DateTimeUtil.EmptyReadsNothing` | src/main/java/duke/util/DateTimeUtil.java:39-89 | no date-with-time or date-only format accepts the empty text |
| `DateTimeUtil.MonthNumberOfAbbrev` | src/main/java/duke/util/DateTimeUtil.java:54-57 | a case-insensitive month-name field reads each English abbreviation back as its own month: no two abbreviations are equal ignoring case |
| `DateTimeUtil.PrettyDate` | src/main/java/duke/util/DateTimeUtil.java:28 | the display date holds no colon (it shows no time); `DateTimeUtil.PrettyDateLaidOut` gives its layout and `DateTimeUtil.PrettyDateRoundTrip` reads it back |
| `DateTimeUtil.PrettyDateLaidOut` | src/main/java/duke/util/DateTimeUtil.java:28 | the display date is the day in one or two digits, a space, the month abbreviation, a space and the four-digit year |
| `DateTimeUtil.PrettyDateSkipsDateTimeFormats` | src/main/java/duke/util/DateTimeUtil.java:63-89 | no date-with-time format accepts a display date |
| `DateTimeUtil.PrettyDateFirstDateFormat` | src/main/java/duke/util/DateTimeUtil.java:39-57 | the first date-only format to accept a display date is `d MMM uuuu`, and it reads back midnight of that date |
| `DateTimeUtil.PrettyDateRoundTrip` | src/main/java/duke/util/DateTimeUtil.java:124-168 | reading back the display text of a date-only stamp gives the same stamp, whatever the current year |
| `DateTimeUtil.StorageString` | src/main/java/duke/util/DateTimeUtil.java:177-179 | the storage text contains the letter T exactly when the instant carries a time, and it has no blank at either end |
| `DateTimeUtil.PrettyString` | src/main/java/duke/util/DateTimeUtil.java:166-168 | the display text starts with the display date and shows a clock, with its colon, exactly when the instant carries a time |
| `DateTimeUtil.StorageStringLayout` | src/main/java/duke/util/DateTimeUtil.java:22-23 | the storage text is `yyyy-MM-dd` or `yyyy-MM-dd'T'HH:mm`, each field zero padded to its width |
| `DateTimeUtil.StorageStringSkipsEarlyDateTimeFormats` | src/main/java/duke/util/DateTimeUtil.java:63-84 | none of the five date-with-time formats tried before the ISO one accepts a storage text |
| `DateTimeUtil.StorageStringReads` | src/main/java/duke/util/DateTimeUtil.java:85-88 | the ISO date-time format reads a storage text back as its instant and rejects a date-only one, and the ISO date format reads a date-only storage text back as midnight of its date |
| `DateTimeUtil.StorageRoundTrip` | src/main/java/duke/util/DateTimeUtil.java:124-179 | reading a storage text back gives the instant it was written from, with or without its time as before |
| `Tasks.FromStorageCode` | src/main/java/duke/task/TaskType.java:51-58 | `T`, `D` and `E` name the three kinds and any other code is refused |
| `Tasks.StorageCodeRoundTrip` | src/main/java/duke/task/TaskType.java:8-33 | every kind's storage code names that kind again |
| `Tasks.Mark` | src/main/java/duke/task/Task.java:57-59 | marking sets the done flag and changes nothing else |
| `Tasks.Unmark` | src/main/java/duke/task/Task.java:64-66 | unmarking clears the done flag and changes nothing else |
| `Tasks.MarkUnmarkLaws` | src/main/java/duke/task/Task.java:57-66 | marking is idempotent; unmarking after marking undoes it on an undone task; neither changes the kind |
| `Tasks.StatusIcon` | src/main/java/duke/task/Task.java:73-75 | the icon is `X` exactly when the task is done, and two spaces when it is not |
| `Tasks.ToStringShows` | src/main/java/duke/task/Todo.java:30-33 | the displayed line shows the kind's code, an `X` in the icon position exactly when done and two spaces there otherwise, and the description right after the icon |
| `Tasks.ToString` | src/main/java/duke/task/Todo.java:31-33 | the displayed line starts with the heading `[<code>] [<icon>] <description>`. It is the heading alone exactly for a todo, and otherwise ends in `)`. Its exact shape is given by `Tasks.ToStringShows`, `Tasks.DeadlineToStringTail`, `Tasks.EventToStringTail` and `Tasks.MarkChangesOnlyIcon` |
| `Tasks.Details` | src/main/java/duke/task/Deadline.java:81-89 | what follows the heading is empty exactly for a todo, and otherwise ends in `)` |
| `Tasks.DeadlineToStringTail` | src/main/java/duke/task/Deadline.java:81-89 | a deadline's line follows its heading with ` (by: `, then the due stamp in display form, then `)` |
| `Tasks.EventToStringTail` | src/main/java/duke/task/Event.java:108-121 | an event's line follows its heading with ` (from: `, the start in display form, `, to: `, the end in display form, then `)` |
| `Tasks.ToStringAroundIcon` | src/main/java/duke/task/Task.java:73-75 | every displayed line is five fixed characters (`[`, the kind's code, `] [`), then the status icon, then `] `, the description and the details |
| `Tasks.MarkChangesOnlyIcon` | src/main/java/duke/task/Task.java:57-75 | marking or unmarking changes the displayed line only at the icon: the first five characters and everything after the old icon stay, and the icon becomes `X`, or two spaces when unmarked |
| `Tasks.GetFrom` | src/main/java/duke/task/Event.java:89-91 | an event's stored start text holds a T exactly when the start has a time; `Tasks.EventTextRoundTrip` reads it back to the same start |
| `Tasks.GetTo` | src/main/java/duke/task/Event.java:98-100 | an event's stored end text holds a T exactly when the end has a time; `Tasks.EventTextRoundTrip` reads it back to the same end |
| `Tasks.GetBy` | src/main/java/duke/task/Deadline.java:65-67 | a deadline's stored due text holds a T exactly when the due date has a time |
| `Tasks.DeadlineFromText` | src/main/java/duke/task/Deadline.java:44-49 | the constructor succeeds exactly when the due text is readable, and then builds an undone deadline with that description, due at the instant read |
| `Tasks.EventFromText` | src/main/java/duke/task/Event.java:56-64 | the constructor succeeds exactly when both texts are readable, and then builds an undone event from the two instants read |
| `Tasks.DeadlineTextRoundTrip` | src/main/java/duke/task/Deadline.java:44-67 | rebuilding a deadline from its own description and stored due text gives the same deadline, undone |
| `Tasks.EventTextRoundTrip` | src/main/java/duke/task/Event.java:56-100 | rebuilding an event from its own description and stored start and end texts gives the same event, undone |
| `Storage.DecodeStamp` | src/main/java/duke/storage/Storage.java:118-127 | a stored date field decoded has a time exactly when its trimmed text contains a T |
| `Storage.DecodeStampRoundTrip` | src/main/java/duke/storage/Storage.java:118-127 | a date field decodes back to the instant it was written from |
| `Storage.ParseFields` | src/main/java/duke/storage/Storage.java:101-163 | fewer than three fields is a malformed line, and an unknown kind code is refused with that code; a `T` line is always a todo; a `D` line with three fields lacks its date and an `E` line with three or four lacks its dates; an unreadable stamp is refused; a task read back has the kind of its code, is done exactly when the flag trims to 1, keeps the description field as is, and carries the stamps its date fields decode to |
| `Storage.Encode` | src/main/java/duke/storage/Storage.java:88-99 | a task's record is never empty and starts with its kind's code; `Storage.SplitEncode` and `Storage.ParseEncode` state that it is the tab-joined fields and reads back to the task |
| `Storage.ParseLine` | src/main/java/duke/storage/Storage.java:101-104 | a line without a tab has fewer than three fields and is malformed; a task read from a line is well formed and its description holds no tab; `Storage.ParseEncode` reads every storable task's record back to it |
| `Storage.SplitEncode` | src/main/java/duke/storage/Storage.java:88-102 | splitting a storable task's record on tabs gives back the fields it was written from |
| `Storage.ParseEncode` | src/main/java/duke/storage/Storage.java:88-163 | reading a storable task's record gives back the same task |
| `Storage.EmptyTodoIsLost` | src/main/java/duke/storage/Storage.java:88-105 | a todo with an empty description is written with a trailing tab, its last field is dropped on reading, and the whole file is then discarded |
| `Storage.ParseLinesSpec` | src/main/java/duke/storage/Storage.java:38-50 | the lines fail to load exactly when some non-blank line fails to parse, and every task loaded is well formed |
| `Storage.ParseLinesNonBlank` | src/main/java/duke/storage/Storage.java:40-45 | blank lines are skipped and every other line becomes one task: what is read is, in order, the parse of each non-blank line |
| `Storage.Load` | src/main/java/duke/storage/Storage.java:32-51 | a missing file gives no tasks; a file is set aside exactly when one of its non-blank lines is bad, and then no tasks are loaded; otherwise the tasks loaded are, one for one and in order, the parses of the non-blank lines |
| `Storage.SaveLines` | src/main/java/duke/storage/Storage.java:53-61 | one line is written per task; `Storage.SaveLinesEncode` pins line k to task k's record, and `Storage.LoadSaveRoundTrip` loads the lines back to the tasks |
| `Storage.SaveLinesEncode` | src/main/java/duke/storage/Storage.java:53-61 | line k of the saved file is the record of task k |
| `Storage.ParseSaved` | src/main/java/duke/storage/Storage.java:41-61 | the saved lines of storable tasks parse back to the same list |
| `Storage.LoadSaveRoundTrip` | src/main/java/duke/storage/Storage.java:32-61 | loading a file that was saved from storable tasks gives the same tasks and sets nothing aside |
| `TaskLists.FromInitial` | src/main/java/duke/task/TaskList.java:13-16 | a new list holds the initial tasks, or none when there are none, and has not been saved yet |
| `TaskLists.Get` | src/main/java/duke/task/TaskList.java:22-24 | a position inside the list gives the task there, and any other position fails |
| `TaskLists.Add` | src/main/java/duke/task/TaskList.java:30-33 | the task is appended after the existing ones and the new list is saved |
| `TaskLists.Remove` | src/main/java/duke/task/TaskList.java:35-39 | the task at the position is returned and taken out, the others keep their order, and the new list is saved; a position outside the list fails |
| `TaskLists.SetDoneAt` | src/main/java/duke/task/TaskList.java:41-49 | only the task at the position changes, only in its done flag, and the new list is saved |
| `TaskLists.MarkAt` | src/main/java/duke/task/TaskList.java:41-44 | the task at the position becomes done and changes in nothing else, every other task is kept, and the new list is saved; a position outside the list fails |
| `TaskLists.UnmarkAt` | src/main/java/duke/task/TaskList.java:46-49 | the task at the position becomes undone and changes in nothing else, every other task is kept, and the new list is saved; a position outside the list fails |
| `TaskLists.InsertAt` | src/main/java/duke/MrMoon.java:347 | the task is inserted at the position with the others shifted behind it, and the new list is saved |
| `TaskLists.Clear` | src/main/java/duke/task/TaskList.java:76-79 | the list becomes empty and the empty list is saved |
| `TaskLists.AddThenRemoveLast` | src/main/java/duke/task/TaskList.java:30-39 | removing the task just added gives it back and restores the previous tasks |
| `TaskLists.RemoveThenInsertReplaces` | src/main/java/duke/MrMoon.java:345-348 | removing at a position and inserting there replaces that one task, with two saves |
| `TaskLists.TasksOn` | src/main/java/duke/task/TaskList.java:58-74 | the agenda is never longer than the list; `TaskLists.TasksOnMembers`, `TaskLists.TasksOnAppend` and `TaskLists.TasksOnExcludes` give its members and order |
| `TaskLists.TasksOnMembers` | src/main/java/duke/task/TaskList.java:58-74 | the agenda of a date holds exactly the tasks of the list that fall on it: deadlines due that day and events whose start-to-end range contains it |
| `TaskLists.TasksOnAppend` | src/main/java/duke/task/TaskList.java:58-74 | the agenda keeps the list's order: the agenda of two lists joined is the two agendas joined |
| `TaskLists.TasksOnExcludes` | src/main/java/duke/task/TaskList.java:60-71 | no todo is ever on an agenda, and an event is only on one when its end is not before its start |
| `Commands.ExecuteTodo` | src/main/java/duke/command/TodoCommand.java:36-45 | a blank description shows the usage line and changes nothing; otherwise an undone todo with the trimmed description is appended, saved and reported with the new count |
| `Commands.ExecuteDeadline` | src/main/java/duke/command/DeadlineCommand.java:39-51 | a blank description shows the usage line, an unreadable due text reports the date and changes nothing, and otherwise the deadline is appended and saved |
| `Commands.ExecuteEvent` | src/main/java/duke/command/EventCommand.java:42-54 | a blank description shows the usage line, either text unreadable reports the dates and changes nothing, and otherwise the event is appended and saved |
| `Commands.ExecuteMark` | src/main/java/duke/command/MarkCommand.java:36-48 | a number outside 1 to size reports the range and changes nothing; otherwise only that task's done flag is set or cleared, and the list is saved |
| `Commands.ExecuteDelete` | src/main/java/duke/command/DeleteCommand.java:34-41 | a number outside 1 to size reports the range; otherwise that task is removed, the rest keep their order, the list is saved and the new size reported |
| `Commands.ExecuteAgenda` | src/main/java/duke/command/AgendaCommand.java:35-49 | never changes the list; a blank date shows the usage line, an unreadable one reports it, and a readable one shows the list's agenda for that date (`TasksOn`): exactly the tasks on that date, in list order |
| `Commands.ExecuteClear` | src/main/java/duke/command/ClearCommand.java:20-27 | never changes the list by itself; an empty list is reported as such and a non-empty one gets the confirmation question |
| `Commands.ExecuteFind` | src/main/java/duke/command/FindCommand.java:36-44 | never changes the list; the usage line is shown exactly when the keyword is blank |
| `Commands.ExecuteUpdate` | src/main/java/duke/command/UpdateCommand.java:23-37 | never changes the list; an empty list is reported, a number outside 1 to size reports the range, and the update prompt for the chosen task is shown exactly when the number is inside it |
| `Commands.Execute` | src/main/java/duke/command/ExitCommand.java:18-30 | only todo, deadline, event, mark, unmark and delete commands can change the list, and the exit command says goodbye |
| `Commands.ExecuteKeepsInvariants` | src/main/java/duke/task/TaskList.java:30-79 | every command keeps every task well formed and the record file in step with the list; it either changes nothing or saves the new list exactly once, and it changes the size by at most one |
| `Commands.AddedTodoIsStorable` | src/main/java/duke/command/TodoCommand.java:42-43 | a todo added from a non-blank description without tabs or line breaks survives a save and a load |
| `Parser.CommandWord` | src/main/java/duke/parser/Parser.java:60-64 | the command word is empty exactly when the line is blank and never contains a space; which word it is, for every line, is stated by `Parser.CommandLineSplit` |
| `Parser.Arguments` | src/main/java/duke/parser/Parser.java:72-76 | the arguments have no blank at either end and are empty for a blank line; which text they are, for every line, is stated by `Parser.CommandLineSplit` |
| `Parser.WordThenArguments` | src/main/java/duke/parser/Parser.java:60-76 | a lower-case word, a space and clean arguments split back into that word and those arguments |
| `Parser.CommandLineSplit` | src/main/java/duke/parser/Parser.java:60-76 | for any line whose trimmed text is a space-free word followed by nothing or by a text starting with a space, the command word is that word lower-cased and the arguments are the rest trimmed |
| `Parser.ParseInt` | src/main/java/duke/parser/Parser.java:134 | a text is read as a number exactly when it is an optionally signed numeral of ASCII digits whose value fits in 32 bits, and then as that value |
| `Parser.ParseIntRoundTrip` | src/main/java/duke/parser/Parser.java:133-137 | a numeral, with or without a sign, reads back as its number within the 32-bit range and is refused beyond it |
| `Parser.ParseOneBasedIndex` | src/main/java/duke/parser/Parser.java:128-138 | a blank or unreadable argument gives -1, and a readable one gives its value |
| `Parser.IndexRoundTrip` | src/main/java/duke/parser/Parser.java:128-138 | a typed number up to the 32-bit limit is read back as itself |
| `Parser.ParseDeadlineArgs` | src/main/java/duke/parser/Parser.java:86-95 | a result is read exactly when `/by` occurs and the texts before and after its last occurrence, trimmed, are both non-empty, and then it is those two texts |
| `Parser.DeadlineArgsRoundTrip` | src/main/java/duke/parser/Parser.java:86-95 | a description and a due text without `/by` in it, joined by ` /by `, split back into the two |
| `Parser.FromEndsBeforeTo` | src/main/java/duke/parser/Parser.java:109-112 | an occurrence of `/to` after one of `/from` starts after that `/from` ends, so the middle slice is always well defined |
| `Parser.ParseEventArgs` | src/main/java/duke/parser/Parser.java:105-119 | a result is read exactly when the last `/from` comes before the last `/to` and the three trimmed slices around them are all non-empty, and then it is those three slices |
| `Parser.EventArgsRoundTrip` | src/main/java/duke/parser/Parser.java:105-119 | a description, start and end free of the markers, joined by ` /from ` and ` /to `, split back into the three |
| `Parser.ParseCommand` | src/main/java/duke/parser/Parser.java:19-52 | each command word gives its own command, and only that word gives it. `list` and `clear` take no arguments. `todo`, `on` and `find` carry the trimmed arguments. `mark`, `unmark` and `delete` carry the index read from them. `deadline` and `event` give their command exactly when the arguments split into non-empty parts, and it carries those parts. A blank line is the empty command and `bye` is the exit command. Any other word, or a `deadline` or `event` whose arguments do not split, is an unknown command that keeps the line. The parser never produces an update command |
| `Parser.ParseTodoLine` | src/main/java/duke/parser/Parser.java:27 | `todo` followed by a clean description is a todo command with that description |
| `Parser.ParseDeadlineLine` | src/main/java/duke/parser/Parser.java:28-35 | a whole deadline line is read back into its description and due text |
| `Parser.ParseEventLine` | src/main/java/duke/parser/Parser.java:36-43 | a whole event line is read back into its description, start and end |
| `Parser.ParseMarkLine` | src/main/java/duke/parser/Parser.java:44 | `mark n` is the mark command for n |
| `Parser.ParseUnmarkLine` | src/main/java/duke/parser/Parser.java:45 | `unmark n` is the unmark command for n |
| `Parser.ParseDeleteLine` | src/main/java/duke/parser/Parser.java:46 | `delete n` is the delete command for n |
| `UpdateState.Begin` | src/main/java/duke/util/UpdateStateUtil.java:50-59 | a new dialogue keeps the position and the task, has no start text, and starts at the description step exactly for a todo and at the choice step otherwise |
| `UpdateState.WithStep` | src/main/java/duke/util/UpdateStateUtil.java:103-105 | setting the step changes nothing else |
| `UpdateState.WithNewStartDate` | src/main/java/duke/util/UpdateStateUtil.java:113-115 | recording the start text changes nothing else |
| `UpdateState.BeginFits` | src/main/java/duke/util/UpdateStateUtil.java:50-59 | a new dialogue starts at a step that fits its task and never at the end-date step |
| `UpdateState.StartThenEndFits` | src/main/java/duke/MrMoon.java:267-268 | recording a start text and moving to the end step fits an event |
| `Session.Start` | src/main/java/duke/MrMoon.java:49-57 | the session starts with the loaded tasks, nothing saved yet and no dialogue open |
| `Session.RebuildDeadline` | src/main/java/duke/MrMoon.java:317-321 | a rebuilt deadline keeps its done flag and takes the new description; it succeeds exactly when a new due text is readable, and then is due at it; with no new text it keeps its due date |
| `Session.RereadStamp` | src/main/java/duke/MrMoon.java:325-326 | a new text is read as typed, and without one the stored date is read back as it was |
| `Session.RebuildEvent` | src/main/java/duke/MrMoon.java:323-328 | a rebuilt event keeps its done flag and succeeds exactly when both its start and end can be read, the new texts where given and the stored ones otherwise |
| `Session.CreateUpdatedTask` | src/main/java/duke/MrMoon.java:307-340 | the rebuilt task has the same kind and done flag, the new description or the old one, and is well formed; a todo always rebuilds; new date texts must be readable and are used as read; absent ones keep the old dates |
| `Session.RebuildUnchanged` | src/main/java/duke/MrMoon.java:307-340 | rebuilding a well-formed task with nothing new gives the same task |
| `Session.RebuildRenames` | src/main/java/duke/MrMoon.java:309-314 | rebuilding with only a new description changes the description and nothing else |
| `Session.RebuildRedates` | src/main/java/duke/MrMoon.java:317-321 | rebuilding a deadline with a readable due text changes its due date and nothing else |
| `Session.RebuildReschedules` | src/main/java/duke/MrMoon.java:323-328 | rebuilding an event with readable start and end texts changes its two dates and nothing else |
| `Session.ReplaceTask` | src/main/java/duke/MrMoon.java:345-348 | the task at the one-based position is replaced and the rest is kept, with two saves, the last of the new list; a position outside the list fails |
| `Session.HandleChoice` | src/main/java/duke/MrMoon.java:201-226 | `1`/`rename` goes to the description step; `2`/`edit date` goes to the date step of a deadline or the start step of an event, and does nothing for a todo; anything else re-prompts with the dialogue unchanged |
| `Session.HandleDescription` | src/main/java/duke/MrMoon.java:228-240 | a blank description re-prompts with the dialogue unchanged; otherwise the task is rebuilt with it, put back and the dialogue closes |
| `Session.ReplaceDates` | src/main/java/duke/MrMoon.java:286-301 | either the rebuilt task is put back and the dialogue closes, or the session is left exactly as it was with a request to try again |
| `Session.HandleDate` | src/main/java/duke/MrMoon.java:242-260 | an unreadable date re-prompts with the dialogue unchanged, and a readable one rebuilds and replaces the deadline |
| `Session.HandleStartDate` | src/main/java/duke/MrMoon.java:262-278 | never touches the list; a readable start text is recorded and the end is asked for, and an unreadable one re-prompts |
| `Session.HandleEndDate` | src/main/java/duke/MrMoon.java:280-302 | an unreadable end re-prompts; a readable one rebuilds the event from the recorded start and this end and replaces it |
| `Session.HandleUpdate` | src/main/java/duke/MrMoon.java:184-199 | no line typed inside the update dialogue exits the session; that none raises an exception holds under the session invariant and is stated by `Session.HandleLineKeepsInv` |
| `Session.HandleClear` | src/main/java/duke/MrMoon.java:350-363 | `yes` empties the list and `no` keeps it, both closing the question; anything else asks again with nothing changed |
| `Session.Dispatch` | src/main/java/duke/MrMoon.java:107-133 | the command's effect and message; the loop ends exactly on the exit command and never by an exception; the update dialogue opens exactly for an update with a position in the list; the clear question opens exactly for a clear of a non-empty list |
| `Session.HandleLine` | src/main/java/duke/MrMoon.java:88-134 | an open dialogue takes the line first, so `bye` ends the session only when no dialogue is open; a typed line opens the update dialogue only when no dialogue is open and it parses as an update command, which the parser never produces; what a line does at the clear question is stated by `Session.ClearAnswersLine` |
| `Session.StartInv` | src/main/java/duke/MrMoon.java:49-57 | the session started from whatever the record file holds satisfies the invariant |
| `Session.ChoiceKeeps` | src/main/java/duke/MrMoon.java:201-226 | the choice step keeps the session invariant |
| `Session.DescriptionKeeps` | src/main/java/duke/MrMoon.java:228-240 | the description step keeps the invariant and never fails, though nothing in it catches an exception |
| `Session.ReplaceDatesKeeps` | src/main/java/duke/MrMoon.java:248-258 | putting back a rebuilt task, or leaving things as they were, keeps the invariant |
| `Session.DateKeeps` | src/main/java/duke/MrMoon.java:242-260 | the deadline date step keeps the invariant |
| `Session.StartDateKeeps` | src/main/java/duke/MrMoon.java:262-278 | the event start step keeps the invariant, so the start text kept is readable |
| `Session.EndDateKeeps` | src/main/java/duke/MrMoon.java:280-302 | the event end step keeps the invariant |
| `Session.ClearAnswersLine` | src/main/java/duke/MrMoon.java:99-105 | while the clear question is open, a line is answered as yes or no after trimming and lower-casing, and is never run as a command: ` YES ` empties the list with one save and closes the question, `no` keeps the list and closes it, and any other line, `bye` or `todo x` included, leaves the session unchanged and asks again; the session never ends there |
| `Session.ClearKeeps` | src/main/java/duke/MrMoon.java:350-363 | the clear question keeps the invariant |
| `Session.DispatchKeeps` | src/main/java/duke/MrMoon.java:115-129 | a command keeps the invariant, and a dialogue it opens points at the task it copied |
| `Session.HandleLineKeepsInv` | src/main/java/duke/MrMoon.java:83-136 | every line keeps the invariant: at most one dialogue open, all tasks well formed, the record file in step, an open update on the task it copied at a step that fits it, a clear question only over a non-empty list. No line ends the session with an exception |
| `Session.ReplaceDatesPuts` | src/main/java/duke/MrMoon.java:286-294 | when the rebuild succeeds the dialogue closes with the rebuilt task at the dialogue's position |
| `Session.RenameReplacesDescription` | src/main/java/duke/MrMoon.java:228-240 | a non-blank line at the description step puts the same task, with only its description changed to the trimmed line, back at its position and closes the dialogue |
| `Session.DateEditReplacesDue` | src/main/java/duke/MrMoon.java:242-252 | a readable line at the date step changes only the deadline's due date and closes the dialogue |
| `Session.EndDateEditReplacesDates` | src/main/java/duke/MrMoon.java:280-294 | a readable line at the end step changes only the event's start and end, to the recorded start and this line, and closes the dialogue |
| `Session.TodoUpdateTakesNextLineAsName` | src/main/java/duke/MrMoon.java:117-125 | after an update of a todo, the next non-blank line, whatever it says, becomes the todo's description |
| `Session.UnreadableDateRetries` | src/main/java/duke/MrMoon.java:253-258 | an unreadable line at any date step leaves the session exactly as it was and asks again |

## Left out

- File input and output: the temporary file, the atomic and fallback moves, the directory creation, the corrupt-file backup name and the warnings. The record file is a value (`Option<seq<string>>`), and each save is an entry in the list's save log. A failed save is not modelled.
- The console: the `Scanner` loop, `printWelcome`, end of input, and the message wording. `Ui` carries the facts each message shows.
- The GUI entry points `getResponse` and its handlers (src/main/java/duke/MrMoon.java:138-174 and 368-480). They repeat the console handlers for a different front end.
- `FindCommand`'s search. `TaskList` declares no `findByKeyword`, so only the blank-keyword check is modelled.
- `java.time` itself. Years are limited to 1 through 9999 with four-digit year fields. Formatting is modelled only to the extent the storage text and the display text need it.
- DateTimeUtil.ParseLenient: years are modelled as 1 to 9999, written with exactly four digits. The model therefore refuses (gives nothing for) two kinds of year that Java reads. The first is a year written with a sign, in any format, as in `1/1/-2025` or `+10000-01-01`. The second is year 0000 in the `uuuu` formats and in the ISO date format, as in `1/1/0000` or `0000-01-01`. An unsigned year of more than four digits is refused by both, since the ISO year field then demands a sign (src/main/java/duke/util/DateTimeUtil.java:39-89). Where the model reads a date, it is the one Java reads.
- Parser.ParseInt: ASCII digits only. `Integer.parseInt` also accepts the other Unicode decimal digits (through `Character.digit`), so `mark １` with a fullwidth one marks task 1 in Java. The model refuses such a numeral.
- Text.ToLower: case folding covers ASCII letters only, and `Locale.ENGLISH` month names only. Other scripts' case rules are not modelled.
- DateTimeUtil.Resolve: 24:00 on 31 December 9999 reads as nothing, because the day after it lies outside the modelled years.
- DateTimeUtil.PrettyDate: the display date is written with English month abbreviations. `PRETTY_DATE` uses the default locale (src/main/java/duke/util/DateTimeUtil.java:28), so under another locale neither its text nor `DateTimeUtil.PrettyDateRoundTrip` applies.
- The current year is a parameter. It is assumed not to change during a session.
- The `assert` in the `Task` constructor (disabled in a normal Java run). The model's commands never build a task with a blank description, except through the record file.
- The unreachable `catch` around `parseCommand` in `run`. Parsing never throws.
- Tabs or line breaks in a description: such a description does not survive a save and a load. `Storage.LoadSaveRoundTrip` is stated for tasks without them; such tasks are called "storable".
- Session.HandleUpdate: its contract states only that the dialogue never exits the session. A step can fail with an exception outside the session invariant, for example a description step over a task the list no longer holds. `Session.HandleLineKeepsInv` rules that out under the invariant, and what each step does is stated on the per-step handlers and lemmas.
