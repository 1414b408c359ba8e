/**
 * The task store of the program: the global array `tasks` of MAX_TASKS records,
 * the counter `taskCount`, and the file tasks.txt that mirrors them. Each
 * method performs one of the program's operations in place, and its contract
 * ties the new contents to the function of TaskList that specifies it.
 */
module Store {
  import opened Wrappers
  import opened TextLines
  import opened TaskList
  import opened TaskFile
  import opened Reminders

  /** What an operation reports: it was carried out, or why it was refused. */
  datatype Outcome = Success | Failure(error: Error)

  class TaskStore {
    const tasks: array<Task>
    var taskCount: nat
    /** The contents of tasks.txt; None while the file does not exist. */
    var file: Option<string>

    ghost predicate Valid()
      reads this
    {
      tasks.Length == MAX_TASKS && taskCount <= tasks.Length
    }

    /** The task list: the first taskCount entries of the array. */
    function Contents(): seq<Task>
      reads this, tasks
      requires Valid()
    {
      tasks[..taskCount]
    }

    /** An empty store over an existing or missing tasks.txt. */
    constructor (file: Option<string>)
      ensures Valid() && fresh(tasks)
      ensures Contents() == [] && this.file == file
    {
      tasks := new Task[MAX_TASKS](_ => Task(0, "", 0, 0, false, false));
      taskCount := 0;
      this.file := file;
    }

    /** loadTasks: a missing file leaves the store as it is; otherwise the store holds the tasks read from it. */
    method LoadTasks()
      requires Valid()
      modifies this`taskCount, tasks
      ensures Valid()
      ensures Contents() == if file.Some? then Parse(file.value) else old(Contents())
    {
      if file.None? {
        return;
      }
      StoreRecords(Parsed(Blocks(Lines(file.value))));
    }

    /**
     * The read loop of loadTasks, given each six-line block of the file as read
     * on its own: it stores tasks from the first array entry on, and stops when
     * the array is full, when the blocks run out, or at a block that is not a task.
     */
    method StoreRecords(records: seq<Option<Task>>)
      requires Valid()
      modifies this`taskCount, tasks
      ensures Valid()
      ensures Contents() == TakeTasks(records, MAX_TASKS)
    {
      ghost var loaded := TakeTasks(records, MAX_TASKS);
      taskCount := 0;
      while taskCount < MAX_TASKS && taskCount < |records|
        invariant Valid() && taskCount <= |loaded|
        invariant tasks[..taskCount] == loaded[..taskCount]
      {
        TakeTasksAt(records, MAX_TASKS, taskCount);
        var t := records[taskCount];
        if t.None? {
          break;
        }
        tasks[taskCount] := t.value;
        taskCount := taskCount + 1;
      }
      assert taskCount == |loaded| by {
        if taskCount < |loaded| {
          TakeTasksAt(records, MAX_TASKS, taskCount);
        }
      }
    }

    /** saveTasks: tasks.txt is rewritten, one six-line record per task in list order. */
    method SaveTasks()
      requires Valid()
      modifies this`file
      ensures file == Some(Format(Contents()))
    {
      var text := "";
      for i := 0 to taskCount
        invariant text == Format(tasks[..i])
      {
        FormatAppend(tasks[..i], tasks[i]);
        assert tasks[..i + 1] == tasks[..i] + [tasks[i]];
        text := text + Unlines(Record(tasks[i]));
      }
      assert tasks[..taskCount] == Contents();
      file := Some(text);
    }

    /** The scan of editTask, deleteTask and markTaskDone: the index of the first task with the number, or -1. */
    method IndexOf(number: int) returns (i: int)
      requires Valid()
      ensures -1 <= i < taskCount
      ensures i >= 0 ==> tasks[i].number == number && forall j :: 0 <= j < i ==> tasks[j].number != number
      ensures i < 0 ==> forall j :: 0 <= j < taskCount ==> tasks[j].number != number
    {
      i := 0;
      while i < taskCount
        invariant 0 <= i <= taskCount
        invariant forall j :: 0 <= j < i ==> tasks[j].number != number
      {
        if tasks[i].number == number {
          return;
        }
        i := i + 1;
      }
      i := -1;
    }

    /** addTask. */
    method AddTask(description: string, hour: int, minute: int) returns (outcome: Outcome)
      requires Valid()
      modifies this, tasks
      ensures Valid()
      ensures match Added(old(Contents()), description, hour, minute)
        case Ok(ts) => outcome == Success && Contents() == ts && file == Some(Format(ts))
        case Err(e) => outcome == Failure(e) && Contents() == old(Contents()) && file == old(file)
    {
      if taskCount >= MAX_TASKS {
        return Failure(TooManyTasks);
      }
      if !ValidTime(hour, minute) {
        return Failure(InvalidTime);
      }
      tasks[taskCount] := Task(taskCount + 1, description, hour, minute, false, false);
      taskCount := taskCount + 1;
      assert Contents() == old(Contents()) + [tasks[taskCount - 1]];
      SaveTasks();
      outcome := Success;
    }

    /** editTask. */
    method EditTask(number: int, description: string, hour: int, minute: int) returns (outcome: Outcome)
      requires Valid()
      modifies this, tasks
      ensures Valid()
      ensures match Edited(old(Contents()), number, description, hour, minute)
        case Ok(ts) => outcome == Success && Contents() == ts && file == Some(Format(ts))
        case Err(e) => outcome == Failure(e) && Contents() == old(Contents()) && file == old(file)
    {
      var i := IndexOf(number);
      if i < 0 {
        return Failure(NotFound);
      }
      assert Find(Contents(), number) == Some(i);
      if !ValidTime(hour, minute) {
        return Failure(InvalidTime);
      }
      tasks[i] := tasks[i].(description := description, hour := hour, minute := minute);
      assert Contents() == old(Contents())[i := tasks[i]];
      SaveTasks();
      outcome := Success;
    }

    /** deleteTask: shifts every later task down by one and gives it the number of its new position. */
    method DeleteTask(number: int) returns (outcome: Outcome)
      requires Valid()
      modifies this, tasks
      ensures Valid()
      ensures match Deleted(old(Contents()), number)
        case Ok(ts) => outcome == Success && Contents() == ts && file == Some(Format(ts))
        case Err(e) => outcome == Failure(e) && Contents() == old(Contents()) && file == old(file)
    {
      var i := IndexOf(number);
      if i < 0 {
        return Failure(NotFound);
      }
      assert Find(Contents(), number) == Some(i);
      ShiftDown(i);
      taskCount := taskCount - 1;
      SaveTasks();
      outcome := Success;
    }

    /** The shift loop of deleteTask: every task after index i moves down one place and takes the number of its new position. */
    method ShiftDown(i: nat)
      requires Valid() && i < taskCount
      modifies tasks
      ensures tasks[..taskCount - 1] == RemoveAndRenumber(old(tasks[..taskCount]), i)
    {
      var j := i;
      while j < taskCount - 1
        invariant i <= j <= taskCount - 1
        invariant forall k :: 0 <= k < i ==> tasks[k] == old(tasks[k])
        invariant forall k :: i <= k < j ==> tasks[k] == old(tasks[k + 1]).(number := k + 1)
        invariant forall k :: j <= k < tasks.Length ==> tasks[k] == old(tasks[k])
      {
        tasks[j] := tasks[j + 1];
        tasks[j] := tasks[j].(number := j + 1);
        j := j + 1;
      }
    }

    /** markTaskDone (without the line appended to log.txt). */
    method MarkTaskDone(number: int) returns (outcome: Outcome)
      requires Valid()
      modifies this, tasks
      ensures Valid()
      ensures match MarkedDone(old(Contents()), number)
        case Ok(ts) => outcome == Success && Contents() == ts && file == Some(Format(ts))
        case Err(e) => outcome == Failure(e) && Contents() == old(Contents()) && file == old(file)
    {
      var i := IndexOf(number);
      if i < 0 {
        return Failure(NotFound);
      }
      assert Find(Contents(), number) == Some(i);
      tasks[i] := tasks[i].(completed := true);
      assert Contents() == old(Contents())[i := tasks[i]];
      SaveTasks();
      outcome := Success;
    }

    /** carryOverTasks. */
    method CarryOverTasks()
      requires Valid()
      modifies this`file, tasks
      ensures Valid()
      ensures Contents() == CarriedOver(old(Contents()))
      ensures file == Some(Format(Contents()))
    {
      for i := 0 to taskCount
        invariant forall k :: 0 <= k < i ==> tasks[k] == CarryOverTask(old(tasks[k]))
        invariant forall k :: i <= k < tasks.Length ==> tasks[k] == old(tasks[k])
      {
        if !tasks[i].completed {
          tasks[i] := tasks[i].(carried := true);
        }
      }
      SaveTasks();
    }

    /** viewTasks: the tasks it prints, in order. */
    method ViewTasks(completed: bool) returns (shown: seq<Task>)
      requires Valid()
      ensures shown == Selected(Contents(), completed)
    {
      shown := [];
      for i := 0 to taskCount
        invariant shown == Selected(tasks[..i], completed)
      {
        assert tasks[..i + 1][..i] == tasks[..i];
        if tasks[i].completed == completed {
          shown := shown + [tasks[i]];
        }
      }
      assert tasks[..taskCount] == Contents();
    }

    /** checkReminders at currentHour:currentMin: the tasks it prints a reminder for, in order. */
    method CheckReminders(currentHour: int, currentMin: int) returns (due: seq<Task>)
      requires Valid()
      ensures due == Due(Contents(), currentHour, currentMin)
    {
      due := [];
      for i := 0 to taskCount
        invariant due == Due(tasks[..i], currentHour, currentMin)
      {
        assert tasks[..i + 1][..i] == tasks[..i];
        if !tasks[i].completed {
          var alertHour := tasks[i].hour;
          var alertMin := tasks[i].minute - 15;
          if alertMin < 0 {
            alertMin := alertMin + 60;
            alertHour := alertHour - 1;
          }
          if alertHour == currentHour && alertMin == currentMin {
            due := due + [tasks[i]];
          }
        }
      }
      assert tasks[..taskCount] == Contents();
    }
  }
}
