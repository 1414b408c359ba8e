/**
 * The reminder rule of checkReminders: a pending task is announced when the
 * current time equals the task's time minus 15 minutes, computed by borrowing
 * one hour when the minute would go negative. The hour is never wrapped, so a
 * task before 00:15 gets alert hour -1 and is never announced.
 */
module Reminders {
  import opened TaskList

  function MinuteOfDay(hour: int, minute: int): int {
    hour * 60 + minute
  }

  /** The alert time of a task due at hour:minute. */
  function AlertTime(hour: int, minute: int): (alert: (int, int))
    ensures MinuteOfDay(alert.0, alert.1) == MinuteOfDay(hour, minute) - 15
    ensures 0 <= minute < 60 ==> 0 <= alert.1 < 60 && hour - 1 <= alert.0 <= hour
  {
    if minute - 15 < 0 then (hour - 1, minute - 15 + 60) else (hour, minute - 15)
  }

  /** The condition under which the reminder for t is printed at currentHour:currentMin. */
  predicate Fires(t: Task, currentHour: int, currentMin: int)
    ensures Fires(t, currentHour, currentMin) ==>
      !t.completed && MinuteOfDay(currentHour, currentMin) + 15 == MinuteOfDay(t.hour, t.minute)
  {
    !t.completed && AlertTime(t.hour, t.minute) == (currentHour, currentMin)
  }

  /** The tasks whose reminders are printed, in list order. */
  function Due(ts: seq<Task>, currentHour: int, currentMin: int): (due: seq<Task>)
    ensures |due| <= |ts|
  {
    if ts == [] then []
    else
      var init := Due(ts[..|ts| - 1], currentHour, currentMin);
      if Fires(ts[|ts| - 1], currentHour, currentMin) then init + [ts[|ts| - 1]] else init
  }

  /**
   * For valid times the rule is: pending, and now is exactly 15 minutes before
   * the task's time on the same day.
   */
  lemma FiresExactly(t: Task, currentHour: int, currentMin: int)
    requires ValidTime(t.hour, t.minute) && ValidTime(currentHour, currentMin)
    ensures Fires(t, currentHour, currentMin) <==>
      && !t.completed
      && MinuteOfDay(currentHour, currentMin) + 15 == MinuteOfDay(t.hour, t.minute)
  {
  }

  /** A task due before 00:15 gets alert hour -1 and is never announced at any real time. */
  lemma EarlyTaskNeverFires(t: Task, currentHour: int, currentMin: int)
    requires t.hour == 0 && 0 <= t.minute < 15
    requires currentHour >= 0
    ensures AlertTime(t.hour, t.minute).0 == -1
    ensures !Fires(t, currentHour, currentMin)
  {
  }

  /** A task is announced exactly when it is in the list and its rule fires. */
  lemma {:induction false} DueMembers(ts: seq<Task>, currentHour: int, currentMin: int, t: Task)
    ensures t in Due(ts, currentHour, currentMin) <==> t in ts && Fires(t, currentHour, currentMin)
  {
    if ts != [] {
      DueMembers(ts[..|ts| - 1], currentHour, currentMin, t);
      assert ts == ts[..|ts| - 1] + [ts[|ts| - 1]];
    }
  }

  /** The reminders for a list are those for its first part followed by those for the rest: list order is kept. */
  lemma {:induction false} DueAppend(a: seq<Task>, b: seq<Task>, currentHour: int, currentMin: int)
    ensures Due(a + b, currentHour, currentMin) == Due(a, currentHour, currentMin) + Due(b, currentHour, currentMin)
  {
    if b == [] {
      assert a + b == a;
    } else {
      var init := b[..|b| - 1];
      assert (a + b)[..|a + b| - 1] == a + init;
      DueAppend(a, init, currentHour, currentMin);
    }
  }

  /** One task gets a reminder on its own exactly when its rule fires. */
  lemma DueSingle(t: Task, currentHour: int, currentMin: int)
    ensures Due([t], currentHour, currentMin) == if Fires(t, currentHour, currentMin) then [t] else []
  {
    assert [t][..0] == [];
  }

  /** Completed tasks are never announced: the reminders come from the pending view. */
  lemma {:induction false} DueArePending(ts: seq<Task>, currentHour: int, currentMin: int)
    ensures |Due(ts, currentHour, currentMin)| <= |Selected(ts, false)|
  {
    if ts != [] {
      DueArePending(ts[..|ts| - 1], currentHour, currentMin);
    }
  }

  /** Adding "Write report" at 14:30 to an empty list: reminded at 14:15, not at 14:16. */
  lemma WriteReportExample()
    ensures var ts := Added([], "Write report", 14, 30).value;
      && Due(ts, 14, 15) == ts
      && Due(ts, 14, 16) == []
  {
    var ts := Added([], "Write report", 14, 30).value;
    assert ts[..0] == [];
  }
}
