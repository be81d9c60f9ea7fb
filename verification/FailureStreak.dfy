/** The failure counter of one schedule in a single scheduler process, against the
    history of what happened to the schedule. No edit falls inside a run and no
    write-back is lost. */
module FailureStreak {
  import opened CronWindow
  import opened ScheduleRows
  import opened SchedulerProtocol
  import opened ScheduleStore

  /** What can happen to the schedule: a pass runs it, a pass finds its slot too old, someone
      runs it by hand, or someone edits it, which includes pausing and resuming. */
  datatype Event =
    | AutoRun(moment: int, status: Status)
    | Misfire(moment: int)
    | ManualRun(status: Status)
    | Edited(edit: Edit)

  ghost predicate Possible(row: Row, e: Event, grace: nat) {
    && row.cron.Valid()
    && match e
      case AutoRun(moment, _) => row.Due(moment) && moment - row.next.value <= grace
      case Misfire(moment) => row.Due(moment) && moment - row.next.value > grace
      case ManualRun(_) => true
      case Edited(edit) => edit.read == row && edit.Accepted()
  }

  ghost function Step(row: Row, e: Event, grace: nat, maxFailures: nat): Row
    requires Possible(row, e, grace)
  {
    match e
    case AutoRun(moment, status) => WrittenBack(Handled(row, moment), row.failures, status, maxFailures)
    case Misfire(moment) => Handled(row, moment)
    case ManualRun(_) => row
    case Edited(edit) => edit.Write(row)
  }

  /** The steps of the store that make up an event. */
  method Perform(store: Store, id: int, e: Event, grace: nat, maxFailures: nat)
    requires id in store.rows && Possible(store.rows[id], e, grace)
    requires e.Edited? ==> e.edit.id == id
    modifies store
    ensures store.rows == old(store.rows)[id := Step(old(store.rows)[id], e, grace, maxFailures)]
  {
    var snap := Snapshot(id, store.rows[id]);
    match e
    case AutoRun(moment, status) =>
      var starts := store.HandleDue(snap, moment, grace);
      assert starts;
      store.RunSchedule(snap, status, false, maxFailures);
    case Misfire(moment) =>
      var starts := store.HandleDue(snap, moment, grace);
      assert !starts;
    case ManualRun(status) =>
      store.RunSchedule(snap, status, true, maxFailures);
    case Edited(edit) =>
      var accepted := store.UpdateSchedule(id, edit.patch, edit.now);
      assert accepted;
  }

  /** A schedule's history: how it started and what happened since. */
  datatype History = Fresh(row: Row) | Then(before: History, event: Event) {
    function Events(): seq<Event> {
      if Fresh? then [] else before.Events() + [event]
    }
  }

  ghost predicate IsHistory(h: History, grace: nat, maxFailures: nat)
    decreases h, 0
  {
    match h
    case Fresh(row) => row.failures == 0
    case Then(before, event) => IsHistory(before, grace, maxFailures) && Possible(End(before, grace, maxFailures), event, grace)
  }

  /** The row a history leads to. */
  ghost function End(h: History, grace: nat, maxFailures: nat): Row
    requires IsHistory(h, grace, maxFailures)
    decreases h, 1
  {
    match h
    case Fresh(row) => row
    case Then(before, event) => Step(End(before, grace, maxFailures), event, grace, maxFailures)
  }

  /** An automatic run that did not fail, or an edit that resumes a paused schedule. */
  predicate EndsStreak(e: Event) {
    (e.AutoRun? && e.status != Failed) || (e.Edited? && e.edit.ResetsFailures())
  }

  predicate CountsAsFailure(e: Event) {
    e.AutoRun? && e.status == Failed
  }

  /** The events after the last one that ends a streak. */
  function SinceReset(events: seq<Event>): (r: seq<Event>)
    ensures forall i :: 0 <= i < |r| ==> !EndsStreak(r[i])
    ensures |r| <= |events| && r == events[|events| - |r|..]
    ensures |r| < |events| ==> EndsStreak(events[|events| - |r| - 1])
  {
    if events == [] || EndsStreak(events[|events| - 1]) then []
    else SinceReset(events[..|events| - 1]) + [events[|events| - 1]]
  }

  function Failures(events: seq<Event>): nat {
    if events == [] then 0
    else Failures(events[..|events| - 1]) + (if CountsAsFailure(events[|events| - 1]) then 1 else 0)
  }

  /** What one event does to the counter and to whether the schedule is active. */
  lemma StepCounts(row: Row, e: Event, grace: nat, maxFailures: nat)
    requires Possible(row, e, grace) && maxFailures >= 1 && (row.active ==> row.failures < maxFailures)
    ensures var after := Step(row, e, grace, maxFailures);
      && after.failures ==
        (if EndsStreak(e) then 0 else row.failures + if CountsAsFailure(e) then 1 else 0)
      && (after.active ==> after.failures < maxFailures)
      && (e.AutoRun? ==> (after.active <==> after.failures < maxFailures && Handled(row, e.moment).active))
  {
  }

  lemma SinceResetGrows(front: seq<Event>, last: Event)
    ensures SinceReset(front + [last]) == if EndsStreak(last) then [] else SinceReset(front) + [last]
  {
    assert (front + [last])[..|front|] == front;
  }

  lemma FailuresGrow(front: seq<Event>, last: Event)
    ensures Failures(front + [last]) == Failures(front) + if CountsAsFailure(last) then 1 else 0
  {
    assert (front + [last])[..|front|] == front;
  }

  /** The streak grows by one event as the counter does. */
  lemma StreakGrows(front: seq<Event>, last: Event)
    ensures Failures(SinceReset(front + [last])) ==
      if EndsStreak(last) then 0 else Failures(SinceReset(front)) + if CountsAsFailure(last) then 1 else 0
  {
    SinceResetGrows(front, last);
    FailuresGrow(SinceReset(front), last);
  }

  /** The row's counter is the streak, and an active row is under the limit. */
  predicate Counted(row: Row, events: seq<Event>, maxFailures: nat) {
    row.failures == Failures(SinceReset(events)) && (row.active ==> row.failures < maxFailures)
  }

  /** What StepCounts gives is what keeps the counter with the streak. */
  lemma StaysCounted(was: Row, now: Row, front: seq<Event>, e: Event, maxFailures: nat)
    requires was.failures == Failures(SinceReset(front))
    requires now.failures == if EndsStreak(e) then 0 else was.failures + if CountsAsFailure(e) then 1 else 0
    requires now.active ==> now.failures < maxFailures
    ensures Counted(now, front + [e], maxFailures)
  {
    StreakGrows(front, e);
  }

  /** For every history of runs, misfires, manual runs, edits, pauses and resumes: the
      counter is the number of failed automatic runs since the last other automatic run or
      resume, and an active schedule is under the limit. */
  lemma {:induction false} CounterIsStreak(h: History, grace: nat, maxFailures: nat)
    requires maxFailures >= 1 && IsHistory(h, grace, maxFailures)
    ensures Counted(End(h, grace, maxFailures), h.Events(), maxFailures)
    decreases h
  {
    match h
    case Fresh(_) =>
    case Then(before, event) =>
      CounterIsStreak(before, grace, maxFailures);
      var row := End(before, grace, maxFailures);
      StepCounts(row, event, grace, maxFailures);
      StaysCounted(row, End(h, grace, maxFailures), before.Events(), event, maxFailures);
  }

  /** An automatic run that is not the schedule's last leaves it paused exactly when the
      streak has reached the limit. */
  lemma PausedExactly(h: History, moment: int, status: Status, grace: nat, maxFailures: nat)
    requires maxFailures >= 1 && IsHistory(Then(h, AutoRun(moment, status)), grace, maxFailures)
    requires var before := End(h, grace, maxFailures); NextRun(before.cron, moment, before.window).Some?
    ensures var run := Then(h, AutoRun(moment, status));
      End(run, grace, maxFailures).active <==> Failures(SinceReset(run.Events())) < maxFailures
  {
    CounterIsStreak(h, grace, maxFailures);
    CounterIsStreak(Then(h, AutoRun(moment, status)), grace, maxFailures);
    StepCounts(End(h, grace, maxFailures), AutoRun(moment, status), grace, maxFailures);
  }
}
