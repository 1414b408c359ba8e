# Task store of a console time-management program

This project models the task store at the core of a console time-management
program written in C (`main.c`). The store is a fixed array of 100 task
records plus a counter of how many are in use. Each record has:

- a number;
- a description;
- a time of day;
- a "completed" flag;
- a "carried over from yesterday" flag.

The store is mirrored in the file `tasks.txt`, six lines per task. The model
covers:

- The data: `TaskList.Task`, `TaskList.MAX_TASKS`, and the class
  `Store.TaskStore`. The class has the array `tasks`, the counter `taskCount`
  and the file contents `file` as fields.
- Each store operation, in two forms:
  - a pure function on the list of tasks in `TaskList` (`Added`, `Edited`,
    `Deleted`, `MarkedDone`, `CarriedOver`, `Selected`);
  - an imperative method of `TaskStore` that works in place on the array.
    Each method is proved to agree with its function. The add, edit,
    delete, mark-done, carry-over, view, reminder and save methods use the
    loops of the C code. `LoadTasks` does not: it first reads every six-line
    block of the file (`Parsed(Blocks(Lines(..)))`), and its loop only copies
    the blocks that read as tasks into the array. The C loop reads field by
    field inside the loop.
- The reminder rule of `checkReminders` (`Reminders`): alert 15 minutes
  before a pending task, borrowing an hour when the minute goes negative.
- The file format:
  - what `saveTasks` prints (`TaskFile.Format`);
  - how `loadTasks` reads it back (`TaskFile.Parse`). Fields are read as
    fscanf reads them: a space in the format skips any white space, `%d`
    accepts a sign, and `%[^\n]` needs at least one character.
  - printf `%d` and `%02d`, and scanf `%d`, are in `Decimal`. `TextLines`
    splits and joins lines.

The user's typed input and the current time are parameters of the methods.

Proved properties include:

- Capacity: the list holds at most 100 tasks, and an add on a full list is
  refused.
- An added task starts pending and not carried over, and gets number N+1.
- Add and edit store only times in range. Each operation keeps a
  well-formed list well formed: at most 100 tasks, numbered 1..N, times in
  range. A loaded file is not checked, so after `LoadTasks` the times are
  whatever integers the file holds.
- Edit and mark-done change only the first task with the given number.
- Delete keeps the numbers dense (1..N) and the order.
- Mark-done and carry-over are idempotent, and carry-over sets exactly the
  pending tasks' flag.
- For times in range, the reminder fires exactly when the current time is
  15 minutes before a pending task's time. A task before 00:15 never fires.
- The file's status and carried lines encode the flags in both directions.
- Saving and then loading gives back the same list, for at most 100 tasks
  whose descriptions are storable: not empty, on one line, and not starting
  with white space. For the empty list this holds only for the corrected
  reader; the C loop reads an empty file back as one stray task (see
  Findings).

## Model

| member | source | states |
|---|---|---|
| Decimal.FormatAreNumerals | main.c:64 | `%d` and `%02d` print only digits and a minus sign, never empty, so never a newline or a colon |
| Decimal.FormatInt | main.c:64 | printf `%d` writes at least one character, and starts with a minus sign exactly for a negative value |
| Decimal.FormatInt02 | main.c:64-68 | printf `%02d` writes exactly two digits for 0..99, with a leading zero exactly for 0..9; at least two characters otherwise, starting with a digit for a non-negative value and with a minus sign for a negative one |
| Decimal.ParseInt | main.c:44-46 | scanf `%d` on a field reads a value only from a non-empty field; a negative value only after a minus sign, and a field without a sign only when it is all digits |
| Decimal.ValueOfNatDigits | main.c:64 | the decimal digits printed for n are all digits and denote n |
| Decimal.ParseFormatInt | main.c:44 | scanf `%d` reads back exactly the integer printf `%d` wrote, negative ones included |
| Decimal.ParseFormatInt02 | main.c:46 | scanf `%d` reads back exactly the integer `%02d` wrote, zero-padded or negative |
| TextLines.UnlinesAppend | main.c:62-71 | writing lines in two runs gives the same text as writing them in one, which is how the save loop builds the file |
| TextLines.Unlines | main.c:64-70 | the text written for some lines has at least one character per line and, when there are lines, ends in a newline |
| TextLines.Lines | main.c:44-49 | splitting text at its newlines gives lines that hold no newline, and no lines exactly for the empty text |
| TextLines.LinesUnlines | main.c:44-49 | splitting written text at its newlines gives back the written lines when none of them holds a newline |
| TaskList.Find | main.c:116-117 | the scan by number: no index exactly when no task has the number, otherwise the index of the first task with it |
| TaskList.FindByNumbers | main.c:116-117 | the scan looks at the numbers only: lists with the same numbers give the same index |
| TaskList.Added | main.c:76-107 | addTask is refused exactly when the list is full (TooManyTasks, checked first) or the time is out of range (InvalidTime); otherwise the list grows by one and stays within 100 |
| TaskList.AddAppends | main.c:81-106 | a successful add keeps every earlier task and appends number N+1 with the given description and time, pending and not carried |
| TaskList.AddAllWellFormed | main.c:76-107 | any run of adds from a well-formed list gives a well-formed list: at most 100 tasks, numbered 1..N, times in range |
| TaskList.Edited | main.c:112-144 | editTask fails exactly when no task has the number (NotFound) or the new time is out of range (InvalidTime) |
| TaskList.EditChangesOnlyTarget | main.c:116-138 | a successful edit gives the first task with the number the new description and time, keeps its number and flags, and leaves every other task unchanged |
| TaskList.RemoveAndRenumber | main.c:154-158 | removing entry i keeps the entries before i and moves each later one down with the number of its new position |
| TaskList.Deleted | main.c:148-164 | deleteTask fails with NotFound exactly when no task has the number; otherwise the list is one shorter |
| TaskList.DeleteDense | main.c:152-158 | on a list numbered 1..N, deleting n succeeds exactly for 1 <= n <= N, keeps the first n-1 tasks, shifts the rest and leaves the list numbered 1..N-1 |
| TaskList.MarkedDone | main.c:183-199 | markTaskDone fails with NotFound exactly when no task has the number |
| TaskList.MarkDoneOnlyTarget | main.c:187-189 | mark-done sets the completed flag of the first task with the number and changes nothing else |
| TaskList.MarkDoneIdempotent | main.c:187-189 | marking the same number done a second time succeeds and changes nothing |
| TaskList.CarryOverFlags | main.c:203-208 | carry-over sets the carried flag exactly on the pending tasks (keeping it where already set) and changes no other field |
| TaskList.CarriedOver | main.c:203-208 | carry-over keeps the number of tasks; what it does to each is stated by CarryOverFlags |
| TaskList.CarryOverIdempotent | main.c:203-208 | carrying over twice gives the same list as carrying over once |
| TaskList.WellFormedPreserved | main.c:76-210 | add, edit, delete, mark-done and carry-over each keep a list well formed: at most 100 tasks, numbered 1..N, times in range |
| TaskList.SelectedMembers | main.c:168-179 | viewTasks shows a task exactly when it is in the list and its completed flag equals the argument |
| TaskList.Selected | main.c:168-179 | viewTasks never shows more tasks than the list holds |
| TaskList.SelectedPartition | main.c:168-179 | the pending view and the completed view together show as many tasks as the list has |
| TaskList.SelectedAppend | main.c:170-171 | the view of a list is the view of its first part followed by the view of the rest, so tasks are shown in list order |
| TaskList.SelectedSingle | main.c:171 | a single task is shown exactly when its completed flag equals the argument |
| Reminders.AlertTime | main.c:221-226 | the alert time is exactly 15 minutes before the task's time; for a valid minute it has a minute in 0..59 and the same or the previous hour |
| Reminders.FiresExactly | main.c:219-227 | for valid times a reminder is printed exactly for a pending task whose time is 15 minutes after the current time on the same day |
| Reminders.Fires | main.c:220-227 | a reminder is printed only for a pending task whose time is 15 minutes after the current time |
| Reminders.EarlyTaskNeverFires | main.c:221-227 | a task due before 00:15 gets alert hour -1, so its reminder is never printed |
| Reminders.DueMembers | main.c:219-229 | a task is announced exactly when it is in the list and its reminder rule fires |
| Reminders.Due | main.c:219-229 | checkReminders never announces more tasks than the list holds |
| Reminders.DueArePending | main.c:220 | no more tasks are announced than the pending view shows |
| Reminders.DueAppend | main.c:219-228 | the reminders for a list are those for its first part followed by those for the rest, so tasks are announced in list order |
| Reminders.DueSingle | main.c:220-227 | a single task is announced exactly when its reminder rule fires |
| Reminders.WriteReportExample | main.c:221-228 | a task added at 14:30 to an empty list is announced at 14:15 and not at 14:16 |
| TaskFile.Record | main.c:63-70 | one task is printed as six lines |
| TaskFile.SaveLayout | main.c:62-71 | the file has six lines per task, and the record of task k is lines 6k..6k+5 |
| TaskFile.SaveLines | main.c:62-71 | the file has exactly six lines per task |
| TaskFile.Format | main.c:60-73 | the saved text is empty exactly when there are no tasks |
| TaskFile.RecordFlags | main.c:69-70 | a record's status line is "Status: Done" exactly for a completed task and its carried line "Carried: Yes" exactly for a carried one |
| TaskFile.FlagEncoding | main.c:62-71 | line 6k+3 of the file says Done exactly when task k is completed, and line 6k+4 says Yes exactly when it is carried |
| TaskFile.SaveLinesAppend | main.c:62-71 | saving one more task appends exactly its six-line record |
| TaskFile.After | main.c:44-48 | a tag match gives the rest of the line, and the line is the tag followed by it |
| TaskFile.FormatAppend | main.c:62-71 | saving one more task appends exactly the text of its record |
| TaskFile.SkipSpaceSuffix | main.c:44-48 | a white-space directive leaves a suffix of the text |
| TaskFile.SkipSpaceRemovesSpace | main.c:44-48 | everything a white-space directive removes is white space |
| TaskFile.SkipSpace | main.c:44-48 | a white-space directive of scanf never lengthens the text, leaves text that does not start with white space unchanged, and always leaves text that is empty or starts with a character that is not white space |
| TaskFile.Field | main.c:44-48 | a field is read exactly when the line starts with its tag, and the value read never starts with white space |
| TaskFile.FieldOfWritten | main.c:44-48 | a field printed as tag, space and a value that does not start with white space is read back as that value |
| TaskFile.FieldWord | main.c:47-52 | a field equal to a word is read from the line printed with that word, and only from lines ending in the word |
| TextLines.NextIndex | main.c:46 | the split of "%d:%d" is at the first colon of the field (no colon before it), as a line ends at its first newline |
| TaskFile.FlagsFromFields | main.c:51-52 | a loaded task is completed exactly when its status field is "Done" and carried exactly when its carried field is "Yes" |
| TaskFile.ParseTime | main.c:46 | `%d:%d` reads a time only from a field that holds a colon |
| TaskFile.ParseRecord | main.c:42-52 | one block reads as a task only when it has six lines ending in "---", and the task's description is the non-empty field after "Description:" |
| TaskFile.FlagDecoding | main.c:47-52 | the lines "Status: Done"/"Status: Pending" and "Carried: Yes"/"Carried: No" load as the flags they name, and a set flag means its line ends in "Done" or "Yes" |
| TaskFile.FlagFields | main.c:47-52 | the line "Status: Done" gives the status field "Done" and "Status: Pending" does not, likewise "Yes" and "No" for the carried line, and only a line ending in the word gives it |
| TaskFile.TakeTasks | main.c:41 | the load loop reads no more tasks than there is room for and no more than there are blocks |
| TaskFile.Blocks | main.c:41-49 | the lines of the file are cut into blocks of exactly six lines, as many as there are whole records |
| TaskFile.Parsed | main.c:42-52 | each block of the file is read on its own, one result per block |
| TaskFile.TakeTasksAt | main.c:41-55 | loaded task i comes from block i, and loading stops exactly at the first block that is not a task |
| TaskFile.TakeTasksAll | main.c:41-55 | when every block reads as a task and they fit, loading gives exactly those tasks in file order |
| TaskFile.Parse | main.c:37-57 | loading never gives more than 100 tasks |
| TaskFile.ParseTimeFormat | main.c:46 | the time printed as `%02d:%02d` reads back as the same hour and minute |
| TaskFile.RecordFields | main.c:44-48 | each line of a record holds, after its tag, exactly the value printed into it |
| TaskFile.ParseRecordOfRecord | main.c:44-52 | every printed record reads back as the task it was printed from, when its description can be stored |
| TaskFile.BlocksConcat | main.c:41-49 | cutting the saved lines into six-line blocks gives back the records one by one |
| TaskFile.ParseOfRecords | main.c:41-55 | loading the records of at most 100 storable tasks gives back the tasks |
| TaskFile.RecordOneLineEach | main.c:64 | a record of a storable task has no newline inside any of its lines |
| TaskFile.SaveLinesOneLineEach | main.c:62-71 | no saved line of a storable list holds a newline |
| TaskFile.RoundTrip | main.c:37-73 | saving a list of at most 100 storable tasks and loading the file gives back the same list |
| TaskFile.DeleteThenReload | main.c:148-160 | after a delete and a save of a well-formed list of storable tasks, the corrected reader gives the list one task shorter and still numbered 1..N-1 |
| TaskFile.EmptyFileAsWritten | main.c:41 | an empty list saves as an empty file, which the C loop reads back as one stray task; the corrected reader gives the empty list |
| TaskFile.LoopAsWritten | main.c:41-54 | the loop as written, with the end-of-file flag tested before any read: it never stores more tasks than there is room for; LoopAsWrittenAgrees and AsWrittenDiffers state what it stores |
| TaskFile.LoopAsWrittenAgrees | main.c:41-54 | while at least one block is left to read, the loop as written stores exactly the tasks the corrected loop stores |
| TaskFile.ParseAsWritten | main.c:37-57 | loadTasks as written never loads more than 100 tasks |
| TaskFile.AsWrittenDiffers | main.c:41 | loadTasks as written and the corrected reader differ exactly on a file without a whole record: there the C loop loads the one stray record and the corrected reader none |
| TaskFile.RoundTripAsWritten | main.c:37-73 | saving a non-empty list of at most 100 storable tasks and loading it with the loop as written gives back the same list |
| Store.TaskStore.constructor | main.c:21-22 | the store starts with the 100-entry array and no tasks |
| Store.TaskStore.LoadTasks | main.c:37-57 | a missing file leaves the store as it is; otherwise the store holds exactly what `Parse` reads from the file |
| Store.TaskStore.StoreRecords | main.c:40-55 | the load loop stores the tasks from the first array entry on and ends with exactly the tasks `TakeTasks` reads |
| Store.TaskStore.SaveTasks | main.c:60-73 | the file is replaced by the text of the current list |
| Store.TaskStore.IndexOf | main.c:116-117 | the scan returns the index of the first task with the number, or -1 when no task has it |
| Store.TaskStore.AddTask | main.c:76-109 | refuses as `Added` does, leaving tasks and file unchanged; otherwise the tasks become those of `Added` and the file is saved |
| Store.TaskStore.EditTask | main.c:112-145 | refuses as `Edited` does, leaving tasks and file unchanged; otherwise the tasks become those of `Edited` and the file is saved |
| Store.TaskStore.DeleteTask | main.c:148-165 | refuses as `Deleted` does, leaving tasks and file unchanged; otherwise the tasks become those of `Deleted` and the file is saved |
| Store.TaskStore.ShiftDown | main.c:154-157 | the shift loop leaves the array holding the list with entry i removed and the later ones renumbered |
| Store.TaskStore.MarkTaskDone | main.c:183-200 | refuses as `MarkedDone` does, leaving tasks and file unchanged; otherwise the tasks become those of `MarkedDone` and the file is saved |
| Store.TaskStore.CarryOverTasks | main.c:203-210 | every pending task becomes carried, as `CarriedOver` says, and the file is saved |
| Store.TaskStore.ViewTasks | main.c:168-180 | returns, in order, the tasks viewTasks prints: those of `Selected` |
| Store.TaskStore.CheckReminders | main.c:213-232 | returns, in order, the tasks checkReminders announces: those of `Due` |

## Left out

- File I/O is left out. The file is a field holding its text, or None when it does not exist. A failed `fopen` for writing (where the C code would pass a null stream to fprintf) is not modelled.
- The interactive prompts (printf, fgets, scanf of the number and of the time) are left out. What the user types becomes a method parameter.
- The re-prompt loop for an invalid time is left out. The time is validated once, and a time out of range gives `InvalidTime`.
- Store.TaskStore.EditTask: the C code writes the new description before it asks for the time. It then loops until a valid time is typed, so a typed edit always completes. The model applies description and time together, or neither.
- Descriptions are not truncated to 255 characters (MAX_DESC), and fgets's handling of the newline is not modelled. A description is any string.
- `sscanf("%2d:%2d")` on the typed time is not modelled: its two-digit width and its partial matches. Hour and minute arrive as integers.
- The line markTaskDone appends to `log.txt` is not modelled.
- showRandomQuote is not modelled. It reads quotes.txt and uses rand and the clock.
- The menu loop of `main` is not modelled.
- Store.TaskStore.CheckReminders: the current time is a parameter instead of `localtime`. The method returns the announced tasks instead of printing them.
- Store.TaskStore.ViewTasks returns the shown tasks. The printed layout (header, "(Carried)" marker) is not modelled.
- C `int` overflow is not modelled. Integers are unbounded, so `taskCount + 1` and `minute - 15` never wrap. Within the ranges the program accepts, they cannot wrap anyway.
- The `completed` and `carried` ints are booleans, because the program only ever stores 0 or 1 in them.
- TaskFile.Parse reads a file line by line, one six-line block at a time, and stops at the first block that is not a task. The C loop reads a character stream, so on a malformed file it behaves differently:
  - it stores the partly read (uninitialised) record;
  - it goes on reading out of step with the lines.
  Only files of the shape saveTasks writes are modelled faithfully. The model also requires the sixth line to be exactly "---", where the C format match failure has no effect on the stored record.
- TaskFile.RoundTrip holds only for storable descriptions: not empty, no newline, no leading white space. The C reader skips leading white space after "Description:" and cannot read an empty description. An empty description, which addTask accepts, throws the C reader out of step with the rest of the file; the model only reports that block as unreadable.
- TaskFile.DeleteThenReload holds only for lists whose descriptions are storable (see TaskFile.RoundTrip), and only for the corrected reader: when the deleted task was the only one, the saved file is empty and the C loop reloads one stray task (see Findings).
- TaskFile.LoopAsWritten assumes that the read of the last block meets the end of the text, which holds for files in the shape saveTasks writes. It models the end-of-file flag over whole blocks rather than over single fscanf calls.
- Store.TaskStore.LoadTasks uses the corrected reader, not the C behaviour on an empty file. See Findings.

## Findings

| source | as written | input that shows it | evidently intended | confidence | as-written member | corrected member |
|---|---|---|---|---|---|---|
| main.c:41 | `while (!feof(fp) && ...)` tests end-of-file before any read, so on an empty `tasks.txt` the body runs once: every fscanf fails and an uninitialised record is stored as task 1 | no tasks at start-up: carryOverTasks saves an empty file; restart the program (or delete the last task and restart) | an empty file loads as an empty list | high; not executed | TaskFile.EmptyFileAsWritten | TaskFile.RoundTrip |
