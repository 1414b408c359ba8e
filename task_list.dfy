/**
 * The task list of the time-management program as a value: the records held in
 * `tasks[0..taskCount)`, and what each store operation does to them. The
 * class in task_store.dfy performs these operations in place on its array and is
 * proved to agree with the functions here.
 */
module TaskList {
  import opened Wrappers

  /** The capacity of the store (MAX_TASKS). */
  const MAX_TASKS: nat := 100

  /**
   * One task. The program keeps `completed` and `carried` in C ints but only
   * ever stores 0 or 1 in them, so they are booleans here.
   */
  datatype Task = Task(number: int, description: string, hour: int, minute: int, completed: bool, carried: bool)

  /** Why an operation left the list as it was. */
  datatype Error = TooManyTasks | NotFound | InvalidTime

  datatype Result<T> = Ok(value: T) | Err(error: Error)

  /** A time of day the program accepts from its user. */
  predicate ValidTime(hour: int, minute: int) {
    0 <= hour < 24 && 0 <= minute < 60
  }

  predicate Has(ts: seq<Task>, number: int) {
    exists i :: 0 <= i < |ts| && ts[i].number == number
  }

  /** Task numbers are the 1-based positions: 1, 2, ..., |ts|. */
  predicate DenselyNumbered(ts: seq<Task>) {
    forall i :: 0 <= i < |ts| ==> ts[i].number == i + 1
  }

  predicate TimesValid(ts: seq<Task>) {
    forall i :: 0 <= i < |ts| ==> ValidTime(ts[i].hour, ts[i].minute)
  }

  /** What the operations keep true of a list built by them from an empty one. */
  predicate WellFormed(ts: seq<Task>) {
    |ts| <= MAX_TASKS && DenselyNumbered(ts) && TimesValid(ts)
  }

  /** The linear scan by number shared by edit, delete and mark-done: the first match. */
  function Find(ts: seq<Task>, number: int): (r: Option<nat>)
    ensures r.None? <==> !Has(ts, number)
    ensures r.Some? ==> r.value < |ts| && ts[r.value].number == number
    ensures r.Some? ==> forall j :: 0 <= j < r.value ==> ts[j].number != number
  {
    if ts == [] then None
    else if ts[0].number == number then Some(0)
    else
      match Find(ts[1..], number)
      case None =>
        assert forall j :: 1 <= j < |ts| ==> ts[j] == ts[1..][j - 1];
        None
      case Some(k) =>
        assert forall j :: 1 <= j <= k ==> ts[j] == ts[1..][j - 1];
        Some(k + 1)
  }

  /** The scan looks only at the numbers. */
  lemma FindByNumbers(ts: seq<Task>, us: seq<Task>, number: int)
    requires |ts| == |us|
    requires forall j :: 0 <= j < |ts| ==> ts[j].number == us[j].number
    ensures Find(ts, number) == Find(us, number)
  {
  }

  // ---------------------------------------------------------------- add

  /** addTask: refuse when full, refuse a time out of range, else append task number |ts|+1, pending and not carried. */
  function Added(ts: seq<Task>, description: string, hour: int, minute: int): (r: Result<seq<Task>>)
    ensures r.Err? <==> |ts| >= MAX_TASKS || !ValidTime(hour, minute)
    ensures r.Err? ==> r.error == if |ts| >= MAX_TASKS then TooManyTasks else InvalidTime
    ensures r.Ok? ==> |r.value| == |ts| + 1 <= MAX_TASKS
  {
    if |ts| >= MAX_TASKS then Err(TooManyTasks)
    else if !ValidTime(hour, minute) then Err(InvalidTime)
    else Ok(ts + [Task(|ts| + 1, description, hour, minute, false, false)])
  }

  /** A successful add keeps every earlier entry and appends exactly the new task. */
  lemma AddAppends(ts: seq<Task>, description: string, hour: int, minute: int)
    requires Added(ts, description, hour, minute).Ok?
    ensures var us := Added(ts, description, hour, minute).value;
      && us[..|ts|] == ts
      && us[|ts|].number == |ts| + 1
      && us[|ts|].description == description
      && us[|ts|].hour == hour && us[|ts|].minute == minute
      && !us[|ts|].completed && !us[|ts|].carried
  {
  }

  datatype AddRequest = AddRequest(description: string, hour: int, minute: int)

  /** A run of adds; a refused add leaves the list as it was. */
  function AddAll(ts: seq<Task>, requests: seq<AddRequest>): seq<Task>
    decreases |requests|
  {
    if requests == [] then ts
    else
      var q := requests[0];
      match Added(ts, q.description, q.hour, q.minute)
      case Ok(us) => AddAll(us, requests[1..])
      case Err(_) => AddAll(ts, requests[1..])
  }

  /** Any run of adds keeps the list well formed; from an empty list the numbers are exactly 1..N. */
  lemma {:induction false} AddAllWellFormed(ts: seq<Task>, requests: seq<AddRequest>)
    requires WellFormed(ts)
    ensures WellFormed(AddAll(ts, requests))
    decreases |requests|
  {
    if requests != [] {
      var q := requests[0];
      match Added(ts, q.description, q.hour, q.minute)
      case Ok(us) =>
        WellFormedPreserved(ts, q.description, q.hour, q.minute, 0);
        AddAllWellFormed(us, requests[1..]);
      case Err(_) =>
        AddAllWellFormed(ts, requests[1..]);
    }
  }

  // ---------------------------------------------------------------- edit

  /** editTask: the first task with the number gets the new description and time; nothing else changes. */
  function Edited(ts: seq<Task>, number: int, description: string, hour: int, minute: int): (r: Result<seq<Task>>)
    ensures r.Err? <==> !Has(ts, number) || !ValidTime(hour, minute)
    ensures r.Err? ==> r.error == if !Has(ts, number) then NotFound else InvalidTime
  {
    match Find(ts, number)
    case None => Err(NotFound)
    case Some(i) =>
      if !ValidTime(hour, minute) then Err(InvalidTime)
      else Ok(ts[i := ts[i].(description := description, hour := hour, minute := minute)])
  }

  /** Edit changes the description and time of the first match only. */
  lemma EditChangesOnlyTarget(ts: seq<Task>, number: int, description: string, hour: int, minute: int)
    requires Edited(ts, number, description, hour, minute).Ok?
    ensures var us, i := Edited(ts, number, description, hour, minute).value, Find(ts, number).value;
      && |us| == |ts|
      && us[i].number == ts[i].number == number
      && us[i].completed == ts[i].completed && us[i].carried == ts[i].carried
      && us[i].description == description && us[i].hour == hour && us[i].minute == minute
      && (forall j :: 0 <= j < i ==> ts[j].number != number)
      && (forall j :: 0 <= j < |ts| && j != i ==> us[j] == ts[j])
  {
  }

  // ---------------------------------------------------------------- delete

  /** Removes entry i and gives every later entry the number of its new position. */
  function RemoveAndRenumber(ts: seq<Task>, i: nat): (us: seq<Task>)
    requires i < |ts|
    ensures |us| == |ts| - 1
    ensures forall j :: 0 <= j < i ==> us[j] == ts[j]
    ensures forall j :: i <= j < |us| ==> us[j] == ts[j + 1].(number := j + 1)
  {
    ts[..i] + seq(|ts| - 1 - i, k requires 0 <= k < |ts| - 1 - i => ts[i + 1 + k].(number := i + 1 + k))
  }

  /** deleteTask: remove the first task with the number and renumber those after it. */
  function Deleted(ts: seq<Task>, number: int): (r: Result<seq<Task>>)
    ensures r.Err? <==> !Has(ts, number)
    ensures r.Err? ==> r.error == NotFound
    ensures r.Ok? ==> |r.value| == |ts| - 1
  {
    match Find(ts, number)
    case None => Err(NotFound)
    case Some(i) => Ok(RemoveAndRenumber(ts, i))
  }

  /** On a densely numbered list, delete(n) removes the n-th task and the numbers become 1..N-1. */
  lemma DeleteDense(ts: seq<Task>, number: int)
    requires DenselyNumbered(ts)
    ensures Deleted(ts, number).Ok? <==> 1 <= number <= |ts|
    ensures Deleted(ts, number).Ok? ==>
      var us := Deleted(ts, number).value;
      && DenselyNumbered(us)
      && us[..number - 1] == ts[..number - 1]
      && forall j :: number - 1 <= j < |us| ==> us[j] == ts[j + 1].(number := j + 1)
  {
    if 1 <= number <= |ts| {
      assert ts[number - 1].number == number;
    }
  }

  // ---------------------------------------------------------------- mark done

  /** markTaskDone: the first task with the number becomes completed. */
  function MarkedDone(ts: seq<Task>, number: int): (r: Result<seq<Task>>)
    ensures r.Err? <==> !Has(ts, number)
    ensures r.Err? ==> r.error == NotFound
  {
    match Find(ts, number)
    case None => Err(NotFound)
    case Some(i) => Ok(ts[i := ts[i].(completed := true)])
  }

  /** Mark-done sets the flag of the first match and changes nothing else. */
  lemma MarkDoneOnlyTarget(ts: seq<Task>, number: int)
    requires MarkedDone(ts, number).Ok?
    ensures var us, i := MarkedDone(ts, number).value, Find(ts, number).value;
      && |us| == |ts|
      && us[i] == ts[i].(completed := true)
      && forall j :: 0 <= j < |ts| && j != i ==> us[j] == ts[j]
  {
  }

  /** Marking the same task done twice gives the same list as marking it once, and the second call succeeds. */
  lemma MarkDoneIdempotent(ts: seq<Task>, number: int)
    requires MarkedDone(ts, number).Ok?
    ensures MarkedDone(MarkedDone(ts, number).value, number) == MarkedDone(ts, number)
  {
    var us := MarkedDone(ts, number).value;
    FindByNumbers(ts, us, number);
    var i := Find(ts, number).value;
    assert us[i := us[i].(completed := true)] == us;
  }

  // ---------------------------------------------------------------- carry over

  function CarryOverTask(t: Task): Task {
    if !t.completed then t.(carried := true) else t
  }

  /** carryOverTasks: every pending task becomes carried. */
  function CarriedOver(ts: seq<Task>): (us: seq<Task>)
    ensures |us| == |ts|
  {
    seq(|ts|, i requires 0 <= i < |ts| => CarryOverTask(ts[i]))
  }

  /** Carry-over sets `carried` exactly on the pending tasks and touches no other field. */
  lemma CarryOverFlags(ts: seq<Task>)
    ensures var us := CarriedOver(ts);
      forall i :: 0 <= i < |ts| ==>
        && us[i].carried == (ts[i].carried || !ts[i].completed)
        && us[i].(carried := ts[i].carried) == ts[i]
  {
  }

  lemma CarryOverIdempotent(ts: seq<Task>)
    ensures CarriedOver(CarriedOver(ts)) == CarriedOver(ts)
  {
  }

  // ---------------------------------------------------------------- invariant

  /** Each operation keeps a well-formed list well formed: bounded, numbered 1..N, times in range. */
  lemma WellFormedPreserved(ts: seq<Task>, description: string, hour: int, minute: int, number: int)
    requires WellFormed(ts)
    ensures Added(ts, description, hour, minute).Ok? ==> WellFormed(Added(ts, description, hour, minute).value)
    ensures Edited(ts, number, description, hour, minute).Ok? ==> WellFormed(Edited(ts, number, description, hour, minute).value)
    ensures Deleted(ts, number).Ok? ==> WellFormed(Deleted(ts, number).value)
    ensures MarkedDone(ts, number).Ok? ==> WellFormed(MarkedDone(ts, number).value)
    ensures WellFormed(CarriedOver(ts))
  {
  }

  // ---------------------------------------------------------------- view

  /** viewTasks: the tasks whose `completed` flag equals the argument, in list order. */
  function Selected(ts: seq<Task>, completed: bool): (shown: seq<Task>)
    ensures |shown| <= |ts|
  {
    if ts == [] then []
    else
      var init := Selected(ts[..|ts| - 1], completed);
      if ts[|ts| - 1].completed == completed then init + [ts[|ts| - 1]] else init
  }

  /** A task is shown exactly when it is in the list and its flag matches. */
  lemma {:induction false} SelectedMembers(ts: seq<Task>, completed: bool, t: Task)
    ensures t in Selected(ts, completed) <==> t in ts && t.completed == completed
  {
    if ts != [] {
      SelectedMembers(ts[..|ts| - 1], completed, t);
      assert ts == ts[..|ts| - 1] + [ts[|ts| - 1]];
    }
  }

  /** The view of a list is the view of its first part followed by the view of the rest: list order is kept. */
  lemma {:induction false} SelectedAppend(a: seq<Task>, b: seq<Task>, completed: bool)
    ensures Selected(a + b, completed) == Selected(a, completed) + Selected(b, completed)
  {
    if b == [] {
      assert a + b == a;
    } else {
      var init := b[..|b| - 1];
      assert (a + b)[..|a + b| - 1] == a + init;
      SelectedAppend(a, init, completed);
    }
  }

  /** One task is shown on its own exactly when its flag matches. */
  lemma SelectedSingle(t: Task, completed: bool)
    ensures Selected([t], completed) == if t.completed == completed then [t] else []
  {
    assert [t][..0] == [];
  }

  /** The pending and the completed view together show every task once. */
  lemma {:induction false} SelectedPartition(ts: seq<Task>)
    ensures |Selected(ts, false)| + |Selected(ts, true)| == |ts|
  {
    if ts != [] {
      SelectedPartition(ts[..|ts| - 1]);
    }
  }
}
