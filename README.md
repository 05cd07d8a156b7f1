# Locky task tracker — a Dafny model of its command engine

Locky is a small Java task tracker. Each line the user types goes through these steps:
1. The line is split into a command word and an argument string.
2. The word becomes one of eight commands: `list`, `todo`, `deadline`, `event`, `mark`, `unmark`, `delete` and `find`.
3. The command validates its argument and acts on an in-memory task list.
4. Every change is written to a text file of pipe-separated records, which is read back at start-up.

This project models that engine, the `locky.*` package, in Dafny and proves what it promises.

| module | file | models |
|---|---|---|
| `Errors` | errors.dfy | `Option`, `Result` and the three exceptions the core throws: `LockyException`, `IllegalArgumentException` and `IOException`. |
| `Text` | text.dfy | The Java string operations the core relies on: `trim`, `isBlank`, regex `\s`, `contains`, ASCII `toLowerCase`, `Integer.parseInt`, `String.valueOf`, and splitting and joining on the pipe character. |
| `Dates` | dates.dfy | `LocalDateTime`, with its seconds and nanoseconds, ordered by `isAfter`. The four formatters are kept abstract, as the fields of a `Formats` value. |
| `Tasks` | tasks.dfy | `Task`, `Todo`, `Deadline` and `Event` as one datatype: their constructors, `setDone`, `setUndone`, `toString`, and the Event invariant that the end is after the start. |
| `ArgPatterns` | argpatterns.dfy | The two regular expressions of `Parser` (Parser.java:30-31), written as explicit split functions. Each follows the choices Java's backtracking matcher makes. Each is proved to find a split exactly when one exists, and the one the matcher prefers. |
| `Commands` | commands.dfy | The eight command objects, as a datatype. |
| `Parser` | parser.dfy | `parseCommandLine`, `parseDeadlineArgs`, `parseEventArgs` and `parse`. |
| `Storage` | storage.dfy | `serialize`, `parseLine`, `parseDateFlexible`, and `load` / `save` over the file's lines. |
| `TaskLists` | tasklist.dfy | `TaskList` as a class, with `tasks: seq<Task>` and the saved file as fields. Its methods state exactly what changes. |
| `Execute` | execute.dfy | The `execute` method of every command class, over a `TaskList`. |

## External behaviour and how it is modelled

- **The backing file** is the field `TaskList.file`. It holds the lines last written, or `None` while there is no file.
- **A failing write** is the parameter `writeOk`. When it is false:
  - the in-memory change stays;
  - the file keeps its old lines;
  - the result is `Err(Io)`.
- **java.time formatters**: `DateTimeFormat.INPUT`, ISO, and DISPLAY (both its parse and its format) are fields of `Formats`. Everything the round-trip proofs assume of them is stated by `Dates.Lawful`.

## What the model shows

- **Storage round-trip.** Reading back what `save` wrote gives back the same tasks, provided every description is free of `|` and of line breaks, every Todo description is non-empty, and every date is on the minute. Line breaks are outside the model, since the file is already a sequence of lines. Seconds are lost because DISPLAY writes none. The first two proved conditions are needed:
  - `Storage.PipeInDescriptionIsLost` shows that a Todo described `a|b` is reloaded as the Todo `a`;
  - `Storage.TrailingEmptyFieldIsDropped` shows that a Todo with an empty description is not reloaded at all.

  The commands only ever create a Todo with a non-blank description, but they do not keep `|` out of any description.
- **Parsing.** The argument patterns are not matched by a regex engine. They are computed by explicit search functions, proved equivalent to the pattern. For instance, `event d /from  /to x` is accepted by the pattern and then rejected because the start time is empty, not because the format is bad (`Parser.SpacesOnlyStartIsEmpty`).
- **The design notes and the code disagree in two places; the model follows the code.**
  - Clash detection: `TaskList.addEvent` appends without any overlap check (TaskList.java:98-101).
  - `bye`: `parse` rejects it as an unknown command (Parser.java:177-178).

## Model

| member | source | states |
|---|---|---|
| Text.Trim | src/main/java/locky/utils/Parser.java:42 | The result is a substring of the input. Only characters at or below U+0020 lie before and after it, and it neither starts nor ends with one. It is empty exactly when the input is all such characters. |
| Text.Contains | src/main/java/locky/tasks/TaskList.java:160 | `contains` is true exactly when the key occurs at some position of the string. |
| Text.SpaceEnd | src/main/java/locky/utils/Parser.java:47 | The end of the run of regex `\s` characters starting at i. |
| Text.NextSpace | src/main/java/locky/utils/Parser.java:47 | The first regex `\s` character at or after i, or the end of the string. |
| Text.ParseInt | src/main/java/locky/commands/MarkCommand.java:24 | The empty string is rejected. After a leading `-` or `+`, or with no sign, the rest is accepted exactly when it is a non-empty run of decimal digits whose value fits in 32 bits for that sign. The result is that value, negated after `-`. |
| Text.ParseIntAcceptsNonCanonical | src/main/java/locky/commands/MarkCommand.java:24 | `+2`, `007` and `-0` are accepted, as 2, 7 and 0. A lone `-` and `1a` are rejected. |
| Text.ParseIntOfIntToString | src/main/java/locky/tasks/TaskList.java:62 | Every 32-bit number printed in the list reads back as that number. |
| Text.SplitOn | src/main/java/locky/utils/Storage.java:140 | Splitting on the pipe character always yields at least one field. |
| Text.SplitOfJoin | src/main/java/locky/utils/Storage.java:110-113 | Splitting a `String.join` of pipe-free fields gives back the fields. |
| Text.JoinOfSplit | src/main/java/locky/utils/Storage.java:140 | Joining the fields of a split gives back the line. |
| Text.DropTrailingEmpty | src/main/java/locky/utils/Storage.java:140 | `split` drops exactly the trailing empty fields and keeps the rest in order. |
| Text.JavaSplitOfJoin | src/main/java/locky/utils/Storage.java:140 | Java's `split` of a join of two or more pipe-free fields, the last non-empty, gives back the fields. |
| Dates.BeforeIsStrictTotalOrder | src/main/java/locky/tasks/Event.java:31 | `isAfter`, down to the nanosecond, is irreflexive, asymmetric, transitive and total. |
| Tasks.NewTodo | src/main/java/locky/tasks/Todo.java:7-9 | The Todo keeps the given description and done flag, and carries no date. |
| Tasks.NewDeadline | src/main/java/locky/tasks/Deadline.java:22-25 | The Deadline keeps the given description, done flag and due date-time. |
| Tasks.NewEvent | src/main/java/locky/tasks/Event.java:27-34 | Construction succeeds exactly when the end is after the start, and keeps all four values. Otherwise it throws IllegalArgumentException with the source's message. |
| Tasks.SetDone | src/main/java/locky/tasks/Task.java:29-31 | The flag becomes true whatever it was. Kind, description and well-formedness are untouched. |
| Tasks.SetUndone | src/main/java/locky/tasks/Task.java:33-35 | The flag becomes false whatever it was. Kind, description and well-formedness are untouched. |
| Tasks.Render | src/main/java/locky/tasks/Task.java:25-27 | `toString` consists of the kind tag, then `[X] ` or `[ ] ` by the flag, then the description. A Todo adds nothing, a Deadline adds ` by: ` and its date, and an Event adds ` from: ` and ` to: ` with its dates (Todo.java:12-14, Deadline.java:28-30, Event.java:37-39). |
| Tasks.RenderShowsKindAndState | src/main/java/locky/tasks/Task.java:25-27 | Two tasks that render the same have the same kind tag and done state. |
| Tasks.SetDoneIdempotent | src/main/java/locky/tasks/Task.java:29-35 | Setting done twice is setting it once, and likewise for undone. |
| ArgPatterns.TailAt | src/main/java/locky/utils/Parser.java:30 | Any position it returns is where the greedy `\s+(.+)$` after a marker starts. |
| ArgPatterns.TailAtComplete | src/main/java/locky/utils/Parser.java:30 | Whenever the marker tail matches, TailAt finds it, at the latest start. |
| ArgPatterns.MarkerAfterSpaces | src/main/java/locky/utils/Parser.java:30 | A greedy `\s*` before a marker ends exactly at the marker. |
| ArgPatterns.DeadlineFrom | src/main/java/locky/utils/Parser.java:30 | A split it returns is a match of `^(.+?)\s*/by\s+(.+)$` with group 1 ending at or after i. |
| ArgPatterns.DeadlineMatch | src/main/java/locky/utils/Parser.java:30 | A split it returns is a match of the deadline pattern. |
| ArgPatterns.DeadlineFromComplete | src/main/java/locky/utils/Parser.java:30 | Every match whose group 1 ends at or after i is found, and none is preferred over the one returned. |
| ArgPatterns.DeadlineMatchSpec | src/main/java/locky/utils/Parser.java:30 | The pattern matches exactly when DeadlineMatch succeeds. The split returned has the shortest group 1 and, for that group, the longest `\s+`, as the backtracking matcher picks. |
| ArgPatterns.LazyStart | src/main/java/locky/utils/Parser.java:31 | Any split it returns ends the lazy start group where `\s*/to\s+(.+)$` matches. |
| ArgPatterns.GreedyFrom | src/main/java/locky/utils/Parser.java:31 | Any split it returns is a match of `\s+(.+?)\s*/to\s+(.+)$` after `/from`, with the `\s+` taken as long as possible. |
| ArgPatterns.FromAt | src/main/java/locky/utils/Parser.java:31 | A split it returns is a match of everything from `/from` on. |
| ArgPatterns.EventFrom | src/main/java/locky/utils/Parser.java:31 | A split it returns is a match of the event pattern with group 1 ending at or after i. |
| ArgPatterns.EventMatch | src/main/java/locky/utils/Parser.java:31 | A split it returns is a match of `^(.+?)\s*/from\s+(.+?)\s*/to\s+(.+)$`. |
| ArgPatterns.LazyStartComplete | src/main/java/locky/utils/Parser.java:31 | Every end of the start group at or after p is found, and the least one is returned. |
| ArgPatterns.GreedyFromComplete | src/main/java/locky/utils/Parser.java:31 | Every match after `/from` is found, and the one returned is the matcher's preferred one. |
| ArgPatterns.FromAtComplete | src/main/java/locky/utils/Parser.java:31 | Every match from a `/from` at j on is found, and the preferred one is returned. |
| ArgPatterns.EventFromComplete | src/main/java/locky/utils/Parser.java:31 | Every match whose group 1 ends at or after i is found, and the preferred one is returned. |
| ArgPatterns.EventMatchSpec | src/main/java/locky/utils/Parser.java:31 | The event pattern matches exactly when EventMatch succeeds. The split returned has the shortest group 1, then the longest `\s+` after `/from`, then the shortest group 2, then the longest `\s+` after `/to`. |
| Parser.ParseCommandLine | src/main/java/locky/utils/Parser.java:41-51 | A line made only of trim-whitespace fails with "Say something?…". The command is the first `\s`-delimited token of the trimmed line, lower-cased. The args are the trimmed rest after the separating run, or "". |
| Parser.BlankLineAsksForInput | src/test/java/locky/utils/ParserTest.java:13-20 | `"   "` fails with the "Say something?" message. |
| Parser.InnerSpacingIsKept | src/test/java/locky/utils/ParserTest.java:22-28 | `"todo    buy   milk  "` gives the command `todo` and the args `buy   milk`. |
| Parser.ParseDeadlineArgs | src/main/java/locky/utils/Parser.java:63-93 | The checks run in this order: empty args fail first. A mismatch gives "Missing /by" or "Bad deadline format". With a match, an empty trimmed description fails before an empty time, and then a time INPUT rejects gives "Invalid date format". On success, the description is non-empty and trimmed, and the due time is INPUT's reading of group 2. |
| Parser.MissingByIffNoMarker | src/main/java/locky/utils/Parser.java:69-75 | "Missing /by" is reported exactly when the args are non-empty and contain no `/by`. |
| Parser.TrimmedDeadlineArgsHaveParts | src/main/java/locky/utils/Parser.java:78-85 | Trimmed args, as `parse` passes them, never produce the empty-description or empty-time error. |
| Parser.ParseEventArgs | src/main/java/locky/utils/Parser.java:107-145 | The checks run in this order: empty args fail first. A mismatch gives "Missing /from", "Missing /to" or "Bad event format". With a match, empty parts are reported in the order description, start, end. Next, a date INPUT rejects gives "Invalid date format". Otherwise the result is a success exactly when the end is after the start. |
| Parser.MissingFromBeforeMissingTo | src/main/java/locky/utils/Parser.java:112-120 | "Missing /from" is reported exactly when `/from` is absent, even if `/to` is absent too. "Missing /to" is reported exactly when `/from` is present and `/to` is absent. |
| Parser.EventOrderIsChecked | src/main/java/locky/utils/Parser.java:135-141 | Parts that read as dates with the end not after the start give "end must be after start". |
| Parser.SpacesOnlyStartIsEmpty | src/main/java/locky/utils/Parser.java:122-130 | `d /from  /to x` matches the pattern, with a single space as the start, and fails as an empty start time. |
| Parser.CommandFor | src/main/java/locky/utils/Parser.java:160-179 | Exactly the eight command words give a command, which names that word and holds the args unchanged. |
| Parser.Parse | src/main/java/locky/utils/Parser.java:155-179 | Errors of parseCommandLine propagate. A known word gives its command with the args, without looking at them. Any other word fails with "Unknown command…". |
| Parser.ByeIsUnknown | src/main/java/locky/utils/Parser.java:177-178 | `bye` is an unknown command. |
| Storage.Serialize | src/main/java/locky/utils/Storage.java:108-129 | A record starts with its type letter T, D or E, then a pipe, then `1` exactly when the task is done, then a pipe. |
| Storage.SaveLines | src/main/java/locky/utils/Storage.java:78-86 | There is one line per task, in list order, each the task's record. |
| Storage.Save | src/main/java/locky/utils/Storage.java:78-86 | The loop writes exactly SaveLines. |
| Storage.FirstParse | src/main/java/locky/utils/Storage.java:181-191 | The result is the reading of the first formatter that accepts the text, or none if all reject it. |
| Storage.FirstParseAt | src/main/java/locky/utils/Storage.java:182-188 | A formatter that accepts the text after all earlier ones rejected it decides the value. |
| Storage.FirstParseOfAccepted | src/main/java/locky/utils/Storage.java:29-33 | The order tried is INPUT, then ISO, then DISPLAY. |
| Storage.FlexibleDate | src/main/java/locky/utils/Storage.java:181-191 | INPUT wins if it accepts, then ISO, then DISPLAY. If all three reject, IllegalArgumentException is thrown with the "Unrecognized datetime" message. |
| Storage.ParseDateFlexible | src/main/java/locky/utils/Storage.java:181-191 | The loop with its early return computes FlexibleDate. |
| Storage.FlexibleDateOfDisplay | src/main/java/locky/utils/Storage.java:181-191 | Under the formatter assumptions, DISPLAY output for a date-time on the minute is read back as the same date-time. |
| Storage.ParseLine | src/main/java/locky/utils/Storage.java:139-167 | Fewer than three fields after `split` gives null. An unknown tag gives null. A T record always gives a task. A D record gives null exactly when it has fewer than four fields. Otherwise it throws exactly when its date is unreadable, with that date's error, and its task is due at that date. An E record gives null exactly when it has fewer than five fields. Otherwise it throws exactly when a date is unreadable or the end is not after the start. The dates are read start first, so the error is that of the first unreadable one. An end that is not after the start gives the Event constructor's message. Its task runs between those dates. A task it returns is well formed, has field 2 as its description, is done exactly when field 1 is "1", and has the kind the tag names. |
| Storage.Loaded | src/main/java/locky/utils/Storage.java:55-67 | Loading keeps at most one task per line, and every task kept is well formed. |
| Storage.LoadedSnoc | src/main/java/locky/utils/Storage.java:62-65 | One more line either adds its task, adds nothing (null), or makes the load fail. |
| Storage.LoadedKeepsFirstError | src/main/java/locky/utils/Storage.java:62-65 | The first line that throws decides the load's error, whatever follows it. |
| Storage.Load | src/main/java/locky/utils/Storage.java:55-67 | A missing file loads as the empty list. Otherwise the loop computes Loaded. |
| Storage.ParseLineOfSerialize | src/main/java/locky/utils/Storage.java:108-166 | parseLine(serialize(t)) is t for a well-formed task whose dates are on the minute. Its description must have no pipe and, for a Todo, must be non-empty. |
| Storage.LoadOfSave | src/main/java/locky/utils/Storage.java:55-86 | Loading what save wrote gives back the same task list. This holds when every task is storable: no pipe in a description, no empty Todo description, and every date on the minute. |
| Storage.SaveLoadSave | src/main/java/locky/utils/Storage.java:55-86 | Saving what was loaded rewrites the same lines. |
| Storage.PipeInDescriptionIsLost | src/main/java/locky/utils/Storage.java:110-113 | A Todo whose description is a, pipe, b is written with four fields and read back as the Todo `a`. |
| Storage.ShortTodoRecordIsSkipped | src/test/java/locky/utils/StorageTest.java:77 | The record T, pipe, 1 gives null. |
| Storage.UnknownTagIsSkipped | src/test/java/locky/utils/StorageTest.java:80-84 | The record X, pipe, 1, pipe, whatever gives null. |
| Storage.SkippedRecord | src/main/java/locky/utils/Storage.java:141-165 | A record is skipped when it has too few fields for its type or has an unknown tag. |
| Storage.TrailingEmptyFieldIsDropped | src/main/java/locky/utils/Storage.java:140-141 | The record T, pipe, 1, pipe loses its empty last field and gives null. |
| TaskLists.MarkedAt | src/main/java/locky/tasks/TaskList.java:111-116 | Only task k changes: it becomes done, with the same kind and description. |
| TaskLists.UnmarkedAt | src/main/java/locky/tasks/TaskList.java:126-131 | Only task k changes: it becomes not done, with the same kind and description. |
| TaskLists.RemovedAt | src/main/java/locky/tasks/TaskList.java:141-146 | One task fewer. The tasks before k stay where they are and the tasks after k shift down by one. The multiset loses exactly task k. |
| TaskLists.MarkIdempotent | src/main/java/locky/tasks/TaskList.java:111-131 | Marking twice is marking once, and likewise for unmarking. |
| TaskLists.UnmarkUndoesMark | src/main/java/locky/tasks/TaskList.java:111-131 | Unmarking undoes marking a task that was not done, and marking undoes unmarking a task that was done. |
| TaskLists.RemoveLastUndoesAppend | src/main/java/locky/tasks/TaskList.java:73-76 | Deleting the task just appended restores the list. |
| TaskLists.UpdatesKeepWellFormed | src/main/java/locky/tasks/TaskList.java:111-146 | Mark, unmark and delete keep every Event's end after its start. |
| TaskLists.Listing | src/main/java/locky/tasks/TaskList.java:59-65 | The listing is empty exactly when the list is. |
| TaskLists.ListingPrefix | src/main/java/locky/tasks/TaskList.java:61-63 | The listing of the first i tasks is a prefix of the whole listing. |
| TaskLists.ListingShowsTask | src/main/java/locky/tasks/TaskList.java:59-65 | Task i (0-based) appears as the line `i+1. <task>`, right after the listing of the tasks before it. |
| TaskLists.Matching | src/main/java/locky/tasks/TaskList.java:155-165 | Every result is a task of the list that matches the key, and there are no more results than tasks. |
| TaskLists.MatchingComplete | src/main/java/locky/tasks/TaskList.java:158-162 | Every task that matches is among the results. |
| TaskLists.MatchingAppend | src/main/java/locky/tasks/TaskList.java:158-162 | Searching a concatenation concatenates the searches, so results keep list order. |
| TaskLists.MatchingIdempotent | src/main/java/locky/tasks/TaskList.java:155-165 | Searching the results again changes nothing. |
| TaskLists.BlankKeyMatchesAll | src/main/java/locky/tasks/TaskList.java:157 | A keyword that trims to nothing matches every task. |
| TaskLists.TaskList.constructor | src/main/java/locky/tasks/TaskList.java:28-38 | The list holds the loaded tasks. |
| TaskLists.TaskList.Open | src/main/java/locky/tasks/TaskList.java:28-38 | A missing file gives an empty list. A file that loads gives the loaded tasks. An exception from load escapes. |
| TaskLists.TaskList.GetSize | src/main/java/locky/tasks/TaskList.java:40-42 | The size of the list. |
| TaskLists.TaskList.GetTask | src/main/java/locky/tasks/TaskList.java:44-50 | Succeeds exactly for 1 ≤ i ≤ size, with task i-1. Otherwise it fails with "No such task: i". |
| TaskLists.TaskList.IsTaskDone | src/main/java/locky/commands/MarkCommand.java:28 | The done flag of getTask(i). It fails exactly where getTask fails. |
| TaskLists.TaskList.IsEmpty | src/main/java/locky/commands/ListCommand.java:14 | True exactly when the size is 0. |
| TaskLists.TaskList.PrintList | src/main/java/locky/tasks/TaskList.java:59-65 | The loop builds Listing of the tasks. |
| TaskLists.TaskList.NumberedList | src/main/java/locky/tasks/TaskList.java:59-65 | The numbering loop builds Listing of any sequence of tasks. |
| TaskLists.TaskList.Find | src/main/java/locky/tasks/TaskList.java:155-165 | The loop returns Matching for the trimmed, lower-cased keyword. |
| TaskLists.TaskList.FormatFindResults | src/main/java/locky/app/Locky.java:182-190 | "No matching tasks found." when there are no matches. Otherwise "Matching tasks:" followed by the numbered matches. |
| TaskLists.TaskList.Persist | src/main/java/locky/tasks/TaskList.java:172-174 | A successful save writes SaveLines of the list. A failed one leaves the file alone and reports the I/O error. |
| TaskLists.TaskList.AddTodo | src/main/java/locky/tasks/TaskList.java:73-76 | Exactly one not-done Todo is appended, before the save. The new task stays even when the save fails. |
| TaskLists.TaskList.AddDeadline | src/main/java/locky/tasks/TaskList.java:85-88 | Exactly one not-done Deadline is appended, before the save. |
| TaskLists.TaskList.AddEvent | src/main/java/locky/tasks/TaskList.java:98-101 | Exactly one not-done Event is appended, with no overlap check. If the end is not after the start, the constructor throws and nothing changes. |
| TaskLists.TaskList.Mark | src/main/java/locky/tasks/TaskList.java:111-116 | Out of range: "No such task" and nothing changes. Otherwise only task i becomes done and it is returned, then the list is saved. |
| TaskLists.TaskList.Unmark | src/main/java/locky/tasks/TaskList.java:126-131 | Out of range: "No such task" and nothing changes. Otherwise only task i becomes not done and it is returned, then the list is saved. |
| TaskLists.TaskList.Delete | src/main/java/locky/tasks/TaskList.java:141-146 | Out of range: "No such task" and nothing changes. Otherwise task i is removed (RemovedAt) and returned, then the list is saved. |
| Execute.IndexArgument | src/main/java/locky/commands/MarkCommand.java:19-27 | A blank argument gives "Which task number…", then one parseInt rejects gives "Not a number…". Otherwise the index is the value parseInt gives, which fits in 32 bits. |
| Execute.IndexArgumentAcceptsSignAndZeros | src/main/java/locky/commands/MarkCommand.java:19-27 | `+2` and `007` are accepted as indexes 2 and 7. |
| Execute.IndexArgumentOfNumeral | src/main/java/locky/commands/MarkCommand.java:19-27 | The number a task is listed under is accepted as its index. |
| Execute.MarkResponseTellsPriorState | src/main/java/locky/commands/MarkCommand.java:28-33 | The response opens with "You locked in…" exactly when the task was already done, and with "Locked In!…" exactly when it was not. |
| Execute.UnmarkResponseTellsPriorState | src/main/java/locky/commands/UnmarkCommand.java:30-35 | The response opens with "Oh.... it's still not done." exactly when the task was not done, and with "Ok, undone…" exactly when it was. |
| Execute.ExecuteList | src/main/java/locky/commands/ListCommand.java:12-20 | Gives the empty-list header or the non-empty one, followed by the numbered list. The list is unchanged. |
| Execute.ExecuteFind | src/main/java/locky/commands/FindCommand.java:19-24 | A blank keyword fails with "Find needs a description…". Otherwise the formatted matches are returned and the list is unchanged. |
| Execute.ExecuteTodo | src/main/java/locky/commands/TodoCommand.java:20-26 | A blank description fails and nothing changes. Otherwise one not-done Todo with the description verbatim is appended, and the response is "Added: " and its rendering. |
| Execute.ExecuteDeadline | src/main/java/locky/commands/DeadlineCommand.java:22-34 | A parser error propagates and nothing changes. Otherwise the parsed Deadline is appended and reported. |
| Execute.ExecuteEvent | src/main/java/locky/commands/EventCommand.java:22-34 | A parser error, including an end not after the start, propagates and nothing changes. Otherwise the parsed Event is appended and reported. |
| Execute.ExecuteMark | src/main/java/locky/commands/MarkCommand.java:18-34 | The argument errors come first, then "No such task" with nothing changed. Otherwise task idx is done and the response depends on its prior flag. |
| Execute.ExecuteUnmark | src/main/java/locky/commands/UnmarkCommand.java:20-36 | The argument errors come first, then "No such task" with nothing changed. Otherwise task idx is not done and the response depends on its prior flag. |
| Execute.ExecuteDelete | src/main/java/locky/commands/DeleteCommand.java:19-30 | The argument errors come first, then "No such task" with nothing changed. Otherwise task idx is removed and shown. |
| Execute.Run | src/main/java/locky/commands/Command.java:20 | Lists and searches change nothing. The file either keeps its lines or holds the current list. A change reported as a success has been saved. |
| Execute.RunAdding | src/main/java/locky/commands/Command.java:20 | For todo, deadline and event, the file keeps its lines or holds the current list. A change reported as a success has been saved, and a failed save reports no success. |
| Execute.RunIndexed | src/main/java/locky/commands/Command.java:20 | The same for mark, unmark and delete. |

## Left out

- The JavaFX GUI (`locky/app/Main.java`, `MainWindow.java`, `DialogBox.java`) and the console loop (`locky/app/Locky.java`) are user interface only. The loop is where `bye` ends a session.
- The default-package files (`src/main/java/*.java`) are an earlier version of the same program.
- `locky.utils.DateTimeFormat` is not part of this model. Its formatters are the abstract fields of `Dates.Formats`, and its calendar validation and the locale-dependent DISPLAY pattern belong to java.time.
- Filesystem effects are left out: `File`, `BufferedReader`/`BufferedWriter` and `ensureParentDir`. The file is the sequence of its lines.
  - The model does not capture a description holding a line break, which `readLine` would split in two.
  - It does not capture a file left half-written by a failed save.
- `TaskLists.TaskList.Open` leaves out the fallback to an empty list on an `IOException` from `load`. Reading lines is not modelled, so that exception cannot arise.
- `Storage.LoadOfSave` and `Storage.SaveLoadSave` are stated for dates on the minute only.
  - Only the ISO fallback of `parseDateFlexible` reads seconds and nanoseconds, e.g. `E|0|x|2024-01-01T10:00:30|2024-01-01T10:00:45`.
  - DISPLAY writes neither, so saving such a task drops them.
  - The model does not follow what that loss does to the order of an ISO-loaded event's start and end.
- The range of the `DateTime` fields (month 1-12 and so on) is java.time's calendar validation and is not modelled.
- `Text.ToLower` lower-cases ASCII letters only. Java's locale-dependent Unicode case mapping is not modelled.
- `Text.ParseInt` accepts ASCII digits only. Java's `Integer.parseInt` also accepts other Unicode decimal digits.
- Nulls are not modelled: a `null` argument string, and `Objects.requireNonNull` on dates. No model value can be null.
- Task objects are values, so object identity and aliasing are not modelled. The task that `mark` returns is the updated element of the list, which the list holds exactly once.
- `TaskLists.TaskList.IsTaskDone`, `TaskLists.TaskList.IsEmpty`, `TaskLists.TaskList.PrintList` and `TaskLists.TaskList.FormatFindResults` are called by the commands but are missing from TaskList.java. Each is modelled with its evident meaning:
  - IsTaskDone is getTask's flag, and fails like getTask;
  - IsEmpty is size 0;
  - PrintList stands for getListString, which is printList;
  - FormatFindResults follows the console's find output.
- `Execute.ExecuteDeadline` and `Execute.ExecuteEvent` leave out the conversion of a DateTimeParseException to "Invalid date format". The parser catches that exception itself, so the conversion is never reached.
- Event clash detection is not modelled, because the code has none.
- `Command` (an interface) and `LockyException` have no behaviour of their own. They are the `Commands.Command` and `Errors.Error` datatypes.
