# Overflow task tracker — a Dafny model of its core

Overflow is a chat-style task tracker. A user types a command line. The
parser classifies the line by its first word and cuts the description, the
date-times, the task number or the search keywords out of it. The task list
adds, deletes, marks and unmarks tasks, and remembers the last of those
changes so that it can be undone once. Keyword search groups the tasks by
keyword. Storage writes the list as one `" | "`-separated line per task and
reads such a file back, skipping every line it cannot make a task of.

This project models that core in Dafny and proves properties of the model:

- `results.dfy` (`Results`): `Option`, and a `Result` whose error is either an
  `OverflowException` message (`Failure`) or a Java `substring` past the end
  of the line (`IndexOutOfBounds`).
- `jstring.dfy` (`JavaString`): the parts of `java.lang.String` the core
  relies on:
  - `trim`;
  - `indexOf` and `contains`;
  - `split` on a literal separator, which drops trailing empty pieces;
  - `split("\\s+")`;
  - `toLowerCase` on ASCII letters, as a locale with no special rule for
    'I' lowers them.
- `decimal.dfy` (`Decimal`): decimal digits, zero padding,
  `Integer.parseInt` (32-bit range) and `Integer.toString`.
- `time.dfy` (`Time`): `LocalDateTime` down to the minute, with:
  - the pattern `yyyy-MM-dd HHmm`, used on disk and as the only accepted
    input form. Its formatter resolves fields in the SMART style, so
    `2023-02-30 1800` reads as 28 February and `2024-12-25 2400` as
    midnight starting 26 December;
  - `LocalDate.parse` (ISO 8601 calendar dates, with a '-' before a
    negative year);
  - the display pattern `MMM dd yyyy, h:mma`.
- `task.dfy` (`Tasks`): the three task kinds (todo, deadline, event), marking
  and unmarking, and the display and storage renderings.
- `tasklist.dfy` (`TaskLists`): the task list with its one-step undo slot, the
  index check, and keyword search.
- `storage.dfy` (`Storage`): the line codec. The file is a sequence of
  lines, or `None` when it does not exist.
- `parser.dfy` (`Parser`): the command parser, with the exact error message
  of every malformed line.

Every mutation returns a `Step`: the new list, plus either the result or the
error. So "an error changes nothing" is a contract rather than a comment.

The undo slot is a datatype, `Added`, `Deleted`, `Marked` or `Unmarked`,
instead of the source's three loosely coupled fields. `Valid` states the
invariant the source relies on without checking it: an added task is still
last, and a remembered position still fits the list. Every operation keeps
that invariant.

`TaskList` has `undo`, but `parseCommand` has no case for it, so
`ParseCommand` classifies `undo` as `Unknown`.

Behaviours of the code that the proofs make explicit:

- **An 'X' in the name is stored as done.** A deadline or an event takes its
  stored status digit from its display text. Any `X` in its name therefore
  stores it as done, and it comes back done (`Storage.XReloadsMarked`).
- **Names that break the round trip.** A name ending in `" |"` moves the
  separator one position early. A deadline with such a name is lost on
  reload (`Storage.BarEndedNameIsLost`). The round trip is proved for the
  names `Storage.Storable` admits. A todo's name is the last field, so it
  must also be non-empty, as `split` drops a trailing empty field. A name
  must also hold no character at which `Scanner.nextLine` ends a line
  (`\n`, `\r`, U+0085, U+2028, U+2029). Otherwise the saved line reads
  back as two lines.
- **The event parser does not recheck `/from`.** It reads only the text
  between the first `" /from "` and the next one. Within that text it reads
  only the first two `" /to "` pieces.
- **The deadline parser does not recheck `/by`.** It reads the instant only
  from between the first `" /by "` and the next one.

## Model

| member | source | states |
|---|---|---|
| `Parser.ParseCommand` | src/main/java/overflow/parser/Parser.java:21-45 | a recognised command is exactly the one whose word equals the line's first space-delimited word; every other first word, including an empty one, is Unknown |
| `Parser.ParseCommandIff` | src/main/java/overflow/parser/Parser.java:21-45 | a line is parsed as command c exactly when it is c's word alone or c's word followed by a space |
| `Parser.CommandWord` | src/main/java/overflow/parser/Parser.java:22-23 | the first element of `split(" ", 2)` holds no space, is a prefix of the line, and is followed by a space whenever it is shorter than the line |
| `Parser.TrimmedRest` | src/main/java/overflow/parser/Parser.java:55 | `substring(n).trim()` fails exactly when n lies outside 0..length, and otherwise is the trimmed tail |
| `Parser.ParseTodo` | src/main/java/overflow/parser/Parser.java:54-60 | index error exactly when the line is shorter than 4; the empty-description error exactly when everything after position 4 is blank; otherwise the trimmed rest, with printing characters at both ends |
| `Parser.ParseTodoTyped` | src/main/java/overflow/parser/Parser.java:54-60 | "todo", any blanks, a description with printing ends and any blanks parse back to that description |
| `Parser.ParseDeadline` | src/main/java/overflow/parser/Parser.java:69-74 | index error exactly when the line is shorter than 8; the empty-description error exactly when the trimmed rest is empty |
| `Parser.ParseDeadlineNoBy` | src/main/java/overflow/parser/Parser.java:76-80 | with a description present, the "/by" error is raised exactly when there is no " /by " or only blanks between the first " /by " and the next one (or the end) |
| `Parser.ParseDeadlineOk` | src/main/java/overflow/parser/Parser.java:76-85 | a parsed deadline's description is the non-empty text before the first " /by ", and its instant is what the piece after it parses to |
| `Parser.ParseDeadlineIff` | src/main/java/overflow/parser/Parser.java:76-85 | with a description, a " /by " and a non-blank piece after it, the result is decided by that piece alone: its instant with the text before the first " /by " as description, or its parse error |
| `Parser.ParseDeadlineBadInstant` | src/main/java/overflow/parser/Parser.java:182-189 | "deadline x /by tomorrow" gives the "yyyy-MM-dd HHmm" hint that `parseDateTime` raises for the piece after " /by " |
| `Parser.ParseDeadlineTyped` | src/main/java/overflow/parser/Parser.java:69-86 | "deadline", a description with no " /by " in it, " /by " and the canonical spelling of an instant parse back to that description and instant |
| `Parser.ParseEvent` | src/main/java/overflow/parser/Parser.java:95-100 | index error exactly when the line is shorter than 5; the empty-description error exactly when the trimmed rest is empty |
| `Parser.ParseEventNoFrom` | src/main/java/overflow/parser/Parser.java:102-105 | with a description present, the "/from" error is raised exactly when the text holds no " /from " |
| `Parser.ParseEventNoTo` | src/main/java/overflow/parser/Parser.java:107-112 | with a description and a " /from " present, the "/to" error is raised exactly when the text after the first " /from " (up to the next) has no " /to " or only blanks in its second " /to " piece |
| `Parser.ParseEventOk` | src/main/java/overflow/parser/Parser.java:102-115 | a parsed event's description is the non-empty text before the first " /from "; its start and end are what the first two " /to " pieces of the text after it parse to, the second not blank |
| `Parser.ParseEventIff` | src/main/java/overflow/parser/Parser.java:102-117 | with a description, a " /from " and a non-blank second " /to " piece after it, the result is decided by the two " /to " pieces alone: both instants with the text before the first " /from " as description, or the start's parse error, else the end's |
| `Parser.ParseEventTyped` | src/main/java/overflow/parser/Parser.java:95-118 | "event", a description with no " /from " in it, " /from ", a canonical start, " /to " and a canonical end parse back to those three |
| `Parser.ParseIndex` | src/main/java/overflow/parser/Parser.java:128-140 | index error exactly when the command length is out of range; the missing-number error exactly when the rest is blank; the invalid-number error exactly when `parseInt` rejects it; otherwise the Java int it denotes |
| `Parser.ParseIndexTyped` | src/main/java/overflow/parser/Parser.java:128-140 | a command word, a space and `Integer.toString(n)` parse back to n for every Java int n |
| `Parser.ParseKeyword` | src/main/java/overflow/parser/Parser.java:150-158 | index error and no-keywords error exactly on an out-of-range length and a blank rest; otherwise at least one keyword, none empty or holding `\s`, spelling the rest without its whitespace (where the cuts fall: `Parser.ParseKeywordTyped`) |
| `Parser.ParseKeywordTyped` | src/main/java/overflow/parser/Parser.java:150-158 | keywords typed after the command word with any whitespace runs between them and blanks around parse back to exactly those keywords |
| `Parser.ParseDateTime` | src/main/java/overflow/parser/Parser.java:182-189 | every failure carries the "yyyy-MM-dd HHmm" hint |
| `Parser.ParseDateTimeIff` | src/main/java/overflow/parser/Parser.java:182-189 | an instant's canonical spelling, with blanks around, parses to it; a text that parses to t is t's canonical spelling exactly when its own fields name a real instant |
| `Parser.ParseDateTimeSmart` | src/main/java/overflow/parser/Parser.java:184-185 | "2023-02-30 1800" parses to 28 February 2023 at 18:00, and "2024-12-25 2400" to midnight starting 26 December 2024 |
| `Parser.ParseDate` | src/main/java/overflow/parser/Parser.java:167-173 | every failure carries the "yyyy-MM-dd" hint |
| `Parser.ParseDateIff` | src/main/java/overflow/parser/Parser.java:167-173 | a text parses to date d exactly when, trimmed, it is d's ISO 8601 spelling, with a '-' before a negative year |
| `JavaString.Trim` | src/main/java/overflow/parser/Parser.java:55 | `trim()` keeps the slice after the leading run of characters up to U+0020, drops only such characters at the end, and never leaves one at either end |
| `JavaString.TrimEmptyIffBlank` | src/main/java/overflow/parser/Parser.java:55-56 | trimming yields the empty text exactly when every character is at most U+0020 |
| `JavaString.TrimPadded` | src/main/java/overflow/parser/Parser.java:55 | blanks around a text with printing ends are removed by trimming, and nothing else |
| `JavaString.IndexOf` | src/main/java/overflow/parser/Parser.java:76 | the result is the first position where the separator occurs, or -1 when it occurs nowhere |
| `JavaString.SplitJoin` | src/main/java/overflow/storage/Storage.java:55 | splitting fields joined with a separator gives the fields back when no separator can be found early and the last field is non-empty |
| `JavaString.JoinPieces` | src/main/java/overflow/storage/Storage.java:55 | the pieces between separators, joined again, give the text back |
| `JavaString.SplitFirstFields` | src/main/java/overflow/parser/Parser.java:76-82 | when split gives two fields, they are the text before the first separator and the text between it and the next |
| `JavaString.SplitHasTwoFields` | src/main/java/overflow/parser/Parser.java:102-103 | for a text not ending in the separator's last character, split gives two fields exactly when the separator occurs |
| `JavaString.SplitWhitespaceTokens` | src/main/java/overflow/parser/Parser.java:157 | `split("\\s+")` of a trimmed text gives non-empty, whitespace-free pieces that spell the text without its whitespace |
| `JavaString.SplitWhitespaceSpaced` | src/main/java/overflow/parser/Parser.java:157 | `split("\\s+")` gives back the tokens of a text made of tokens with whitespace runs between them, so the cuts fall exactly at the runs |
| `JavaString.ToLower` | src/main/java/overflow/tasklist/TaskList.java:161 | lower-casing keeps the length and maps each character on its own |
| `JavaString.ToLowerIdempotent` | src/main/java/overflow/tasklist/TaskList.java:161 | lower-casing leaves no 'A'..'Z', changes no other character, and lower-casing twice is lower-casing once |
| `Decimal.ParseInt` | src/main/java/overflow/parser/Parser.java:136 | `parseInt` returns only values in the Java int range, with a '-' in front of every negative value |
| `Decimal.ParseIntIff` | src/main/java/overflow/parser/Parser.java:136 | `parseInt` reads s as v exactly when v is a Java int and s is a non-empty digit run denoting v, or '+' and such a run, or '-' and a run denoting -v |
| `Decimal.ParseIntToString` | src/main/java/overflow/parser/Parser.java:136 | `parseInt` reads back what `Integer.toString` writes, for every Java int |
| `Time.CanonicalParseIff` | src/main/java/overflow/parser/Parser.java:184-185 | the canonical spelling of t parses to t; a text that parses to t is its canonical spelling exactly when the text's own fields are a real instant, so every other accepted text is one SMART resolution moves |
| `Time.ParseFormat` | src/main/java/overflow/storage/Storage.java:85-86 | an instant written with "yyyy-MM-dd HHmm" parses back to itself |
| `Time.FormatParse` | src/main/java/overflow/storage/Storage.java:75-77 | a text whose fields already name a real instant parses to the instant it spells |
| `Time.Resolve` | src/main/java/overflow/parser/Parser.java:184-185 | fields that already name a real instant resolve to themselves; anything resolved had its month, day (up to 31) and minute in range and an hour up to 23, or 24:00 |
| `Time.ResolveRejects` | src/main/java/overflow/storage/Storage.java:75-77 | resolution fails exactly when a field is out of its range, or on 24:00 at the end of 31 December 9999 |
| `Time.ResolveDayPastEnd` | src/main/java/overflow/parser/Parser.java:184-185 | a day past the end of its month, up to 31, becomes the month's last day, the rest unchanged |
| `Time.ResolveEndOfDay` | src/main/java/overflow/parser/Parser.java:184-185 | 24:00 on a day becomes midnight at the start of the next day |
| `Time.ParseDayPastEnd` | src/main/java/overflow/parser/Parser.java:184-185 | a text whose day is past the end of its month parses to the month's last day |
| `Time.ParseEndOfDay` | src/main/java/overflow/parser/Parser.java:184-185 | a text with time 2400 parses to midnight at the start of the next day |
| `Time.SmartExamples` | src/main/java/overflow/parser/Parser.java:184-185 | "2023-02-30 1800" reads as 28 February 2023 18:00 and "2024-12-25 2400" as 26 December 2024 00:00 |
| `Time.Format` | src/main/java/overflow/task/Deadline.java:42 | the canonical form is 15 characters, each a digit, a dash or a space, starting and ending with a digit |
| `Time.FormatLayout` | src/main/java/overflow/task/Deadline.java:42 | the canonical form has dashes exactly at positions 4 and 7, its one space exactly at 10, and digits everywhere else |
| `Time.FormatAvoids` | src/main/java/overflow/task/Event.java:47-49 | the canonical form holds no bar, no slash and none of the letters f, o and t, so no storage or command separator can be found inside it |
| `Time.FormatExample` | src/main/java/overflow/task/Deadline.java:42 | 6 pm on 25 December 2024 is written "2024-12-25 1800" |
| `Time.IsoDateParseIff` | src/main/java/overflow/parser/Parser.java:169 | `LocalDate.parse` accepts exactly the ISO spellings of real dates with years -9999 to 9999, a '-' before a negative year, each naming the date it spells |
| `Time.ClockHour` | src/main/java/overflow/task/Deadline.java:35 | the "h" pattern letter gives 1 to 12, agreeing with the hour modulo 12 |
| `Tasks.NewTodo` | src/main/java/overflow/task/Todo.java:13-15 | a new todo is not done and carries the given name |
| `Tasks.NewDeadline` | src/main/java/overflow/task/Deadline.java:18-21 | a new deadline is not done and carries the given name and instant |
| `Tasks.NewEvent` | src/main/java/overflow/task/Event.java:20-24 | a new event is not done and carries the given name and both instants, unordered |
| `Tasks.Mark` | src/main/java/overflow/task/Task.java:22-24 | marking makes the task done and changes nothing else |
| `Tasks.Unmark` | src/main/java/overflow/task/Task.java:29-31 | unmarking makes the task not done and changes nothing else |
| `Tasks.MarkUnmarkLaws` | src/main/java/overflow/task/Task.java:22-31 | marking and unmarking are idempotent, and the later of the two wins |
| `Tasks.DisplayedStatusRule` | src/main/java/overflow/task/Deadline.java:40 | the status digit read off the display is "1" exactly when the task is done or its name holds an 'X' |
| `Tasks.FileFormatParts` | src/main/java/overflow/task/Event.java:44-50 | every storage line is the kind letter, the separator, the stored status digit and a tail that does not depend on the completion flag |
| `Tasks.MarkChangesOnlyStatus` | src/main/java/overflow/task/Task.java:46-49 | marking rewrites only the status digit of the storage line, to '1' |
| `Tasks.UnmarkChangesOnlyStatus` | src/main/java/overflow/task/Deadline.java:38-43 | unmarking rewrites only the status digit, which stays '1' for a deadline or event whose name holds an 'X' |
| `Tasks.TodoLineExample` | src/main/java/overflow/task/Todo.java:17-20 | a todo named "read book" is stored as the fields T, 0 and "read book" joined by the separator, with 1 in place of 0 once marked |
| `Tasks.DisplayStartsWithTag` | src/main/java/overflow/task/Todo.java:22-25 | every display starts with the kind tag and "[X] name" or "[ ] name" |
| `Tasks.DeadlineDisplayShowsDate` | src/main/java/overflow/task/Deadline.java:32-36 | a deadline's display shows its due date as "MMM dd yyyy" |
| `Tasks.EventDisplayShowsStart` | src/main/java/overflow/task/Event.java:52-59 | an event's display shows its start date as "MMM dd yyyy" |
| `Tasks.EventDisplayShowsEnd` | src/main/java/overflow/task/Event.java:52-59 | an event's display shows its end date as "MMM dd yyyy" |
| `TaskLists.FromTasks` | src/main/java/overflow/tasklist/TaskList.java:31-33 | a list built from loaded tasks holds them in order and has nothing to undo |
| `TaskLists.ValidateIndex` | src/main/java/overflow/tasklist/TaskList.java:144-148 | accepts exactly the positions 0 to size-1, and rejects every other one with the out-of-range message |
| `TaskLists.Add` | src/main/java/overflow/tasklist/TaskList.java:68-72 | adding never fails, appends the task, grows the size by one and keeps the undo invariant |
| `TaskLists.Delete` | src/main/java/overflow/tasklist/TaskList.java:80-87 | succeeds exactly on a position in range; it returns the task there, shifts later tasks down, and keeps the undo invariant; on an error the list is unchanged |
| `TaskLists.Get` | src/main/java/overflow/tasklist/TaskList.java:95-100 | succeeds exactly on a position in range and returns the task there |
| `TaskLists.Mark` | src/main/java/overflow/tasklist/TaskList.java:107-112 | succeeds exactly on a position in range; only that task changes and it becomes done; on an error the list is unchanged |
| `TaskLists.Unmark` | src/main/java/overflow/tasklist/TaskList.java:119-124 | succeeds exactly on a position in range; only that task changes and it becomes not done; on an error the list is unchanged |
| `TaskLists.Undo` | src/main/java/overflow/tasklist/TaskList.java:40-61 | succeeds exactly when a change is remembered; it then empties the slot; with nothing remembered it is the "Nothing to undo!" error and changes nothing |
| `TaskLists.AddThenUndo` | src/main/java/overflow/tasklist/TaskList.java:46-48 | undoing an addition gives back the tasks from before it |
| `TaskLists.DeleteThenUndo` | src/main/java/overflow/tasklist/TaskList.java:49-51 | undoing a deletion puts the task back at its old position |
| `TaskLists.MarkThenUndo` | src/main/java/overflow/tasklist/TaskList.java:52-54 | undoing a mark leaves the task not done, which restores the old list exactly when the task was not done before |
| `TaskLists.UnmarkThenUndo` | src/main/java/overflow/tasklist/TaskList.java:55-57 | undoing an unmark leaves the task done, which restores the old list exactly when the task was done before |
| `TaskLists.UndoTwice` | src/main/java/overflow/tasklist/TaskList.java:41-43 | only one change can be undone: a second undo is the "Nothing to undo!" error |
| `TaskLists.Matching` | src/main/java/overflow/tasklist/TaskList.java:160-162 | a task is kept exactly when it is in the list and its lower-cased name contains the lower-cased keyword |
| `TaskLists.MatchingAppend` | src/main/java/overflow/tasklist/TaskList.java:160-162 | the filter works task by task, so filtering a concatenation filters each part |
| `TaskLists.MatchingIgnoresKeywordCase` | src/main/java/overflow/tasklist/TaskList.java:161 | the search gives the same tasks for a keyword and its lower-cased form |
| `TaskLists.Find` | src/main/java/overflow/tasklist/TaskList.java:156-170 | a keyword is a key exactly when it matches some task, and it maps to all matching tasks in list order |
| `Storage.FileFormatJoinsFields` | src/main/java/overflow/storage/Storage.java:136 | a storage line is its fields joined with the separator (space, bar, space) |
| `Storage.DecodeFields` | src/main/java/overflow/storage/Storage.java:58-99 | fewer than three fields give no task; a decoded task has the kind of field 0 and the name of field 2, and is done exactly when field 1 is "1"; a T line always decodes; a D line decodes exactly when it has four fields and field 3 parses, to that instant; an E line exactly when it has five and fields 3 and 4 parse, to those instants |
| `Storage.DecodeLines` | src/main/java/overflow/storage/Storage.java:50-108 | never more tasks than lines, and each task comes from a line that decodes to it |
| `Storage.DecodeOneLine` | src/main/java/overflow/storage/Storage.java:50-108 | a single line gives its task when it decodes and nothing otherwise; with `DecodeLinesAppend` the result is the decodable lines' tasks in file order |
| `Storage.DecodeLinesAppend` | src/main/java/overflow/storage/Storage.java:50-108 | lines decode independently, so a bad line never affects the others |
| `Storage.Load` | src/main/java/overflow/storage/Storage.java:38-45 | a missing file gives no tasks; otherwise the tasks of its decodable lines |
| `Storage.Save` | src/main/java/overflow/storage/Storage.java:134-137 | one line per task, in order, each the task's storage line |
| `Storage.Reloaded` | src/main/java/overflow/storage/Storage.java:95-97 | a task comes back with the same kind, name and instants |
| `Storage.DecodeTaskFields` | src/main/java/overflow/storage/Storage.java:63-99 | decoding a task's fields gives it back, done exactly when it was stored as done |
| `Storage.SplitFileFormat` | src/main/java/overflow/storage/Storage.java:55 | cutting a storable task's line at the separators gives exactly its fields |
| `Storage.DecodeFileFormat` | src/main/java/overflow/storage/Storage.java:55-99 | a storable task's line decodes to the task, done exactly when it was stored as done |
| `Storage.LoadSave` | src/main/java/overflow/storage/Storage.java:38-140 | saving storable tasks and loading the file gives the same tasks in order, each done exactly when stored as done |
| `Storage.SavedLineIsOneLine` | src/main/java/overflow/storage/Storage.java:47-52 | a storable task's line holds no character at which `Scanner.nextLine` ends a line, so it reads back as one line |
| `Storage.ReloadedFileFormat` | src/main/java/overflow/task/Deadline.java:38-43 | a reloaded task has the same storage line as the original |
| `Storage.SaveLoadSave` | src/main/java/overflow/storage/Storage.java:120-140 | saving, loading and saving again writes the same lines |
| `Storage.XReloadsMarked` | src/main/java/overflow/task/Deadline.java:40 | a storable deadline or event whose name holds an 'X' always loads back as done |
| `Storage.BarEndedNameIsLost` | src/main/java/overflow/storage/Storage.java:55-88 | a deadline whose name is "x" followed by a space and a bar is written as a line that loads back as no task |
| `Storage.DeadlineFieldsExample` | src/main/java/overflow/task/Deadline.java:38-43 | the deadline "return book", due at 6 pm on 25 December 2024, is stored as the fields "D", "0", "return book" and "2024-12-25 1800" |

## Left out

- File I/O, including opening, creating and writing the file and creating
  its directory. The file is a sequence of lines, or `None` when it does not
  exist.
- Character encoding of the file. `Scanner(File)` (Storage.java:47) and
  `FileWriter` (Storage.java:134) use the platform's default charset. The
  model's file holds the characters themselves, so `Storage.LoadSave` and
  `Storage.SaveLoadSave` assume a charset that can encode every name (UTF-8,
  the default since Java 18). Under a narrower charset, unencodable
  characters are replaced on writing and names come back changed.
- `Scanner` line splitting. The model starts from the file's lines already
  split. `Storage.SavedLineIsOneLine` proves that a saved line holds no line
  terminator, which is what lets the lines of a saved file be read back one
  per task. `hasNext()` stops at trailing blank lines, which would only
  produce warnings.
- The warnings printed to standard error when a line is skipped. They
  change no task.
- The user interface, the GUI, and the `Overflow` command loop that wires
  parser, list and storage together. The model has the operations, not
  their orchestration.
- Rendering of error messages by the user interface. The model keeps the
  exact message strings of the core.
- Object identity. `undo` after an add removes the first element equal to
  the remembered task by reference. The model removes the last element,
  which the `Valid` invariant guarantees is that task. Aliasing of the same
  `Task` object in two places is not modelled.
- `TaskLists.Size`: no contract of its own. It is the list length and is
  used in the contracts of `Add`, `Delete`, `Mark` and `Unmark`.
- The getters `getName`, `getDeadline`, `getStartTime` and `getEndTime`.
  They are datatype fields in the model.
- Time.Resolve: "9999-12-31 2400" is rejected. Java resolves it to
  midnight starting the year 10000, but the model's instants stop at the
  year 9999. `Parser.ParseDateTime` and `Storage.DecodeFields` inherit this.
- Time.ParseCanonical: a year of five or more digits is rejected. The
  pattern letters `yyyy` also read such a year when a '+' precedes it. The
  model reads exactly four digits.
- Time.ParseIsoDate: a year of five to ten digits is rejected. The model
  reads four digits, with an optional '-'. `LocalDate.parse` also reads
  '+' or '-' followed by five to ten digits.
- Month abbreviations and AM/PM texts of locales other than English: the
  display pattern `MMM dd yyyy, h:mma` takes both from the default locale.
  `Time.MonthAbbrev` spells the English "Jan".."Dec", and
  `Tasks.DeadlineDisplayShowsDate`, `Tasks.EventDisplayShowsStart` and
  `Tasks.EventDisplayShowsEnd` rely on it.
- JavaString.ToLower: lower-casing is modelled for a default locale with no
  special rule for 'I', such as ROOT or English. `toLowerCase()`
  (TaskList.java:161) uses the default locale. Under Turkish or Azerbaijani
  'I' lowers to the dotless 'ı' (U+0131), and Lithuanian has its own rules
  too, so those locales differ even on ASCII text. There, `find ITEM` finds no
  task named "item", while `TaskLists.Matching`, `TaskLists.Find` and
  `TaskLists.MatchingIgnoresKeywordCase` keep it.
- Unicode beyond ASCII:
  - `toLowerCase` is modelled on 'A'..'Z';
  - `parseInt` and the date parsers accept only ASCII digits;
  - a Java string is a sequence of UTF-16 code units, but a Dafny `char`
    is a Unicode scalar value. A lone surrogate cannot be represented, and
    a character beyond U+FFFF takes one position here but two in Java. On
    text holding such characters, the `substring` offsets of
    `Parser.TrimmedRest` and the 4, 5 and 8 length limits count
    differently from Java. Every offset the parser uses falls just after an
    ASCII command word, so the results agree on every line that starts
    with its command word.
- `Tasks.Display` and `Time.Display`: no exact-string contract. The proved
  properties are that the display starts with the kind tag and the status
  box, and that it shows each instant's date.
