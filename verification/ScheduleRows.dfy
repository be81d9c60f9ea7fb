/** The columns of a scheduled query that the scheduler and the edit endpoint
    write, and what each database operation does to one row. */
module ScheduleRows {
  import opened Wrappers
  import opened CronSchedule
  import opened CronWindow

  datatype Status = Success | Failed | Skipped

  datatype Row = Row(
    cron: Schedule,
    window: Window,
    active: bool,
    next: Option<int>,
    failures: nat,
    lastRun: Option<int>,
    lastStatus: Option<Status>)
  {
    /** What list_due_schedules selects. */
    predicate Due(moment: int) {
      active && next.Some? && next.value <= moment
    }

    /** The WHERE clause of claim_schedule. */
    predicate CanClaim(expected: int) {
      active && next == Some(expected)
    }

    function Claimed(upcoming: Option<int>, moment: int): Row {
      this.(next := upcoming, lastRun := Some(moment))
    }

    /** finish_schedule_run; deactivating also clears the next slot. */
    function Finished(status: Status, count: nat, deactivate: bool): Row {
      if deactivate then this.(lastStatus := Some(status), failures := count, active := false, next := None)
      else this.(lastStatus := Some(status), failures := count)
    }

    predicate SameCadence(other: Row) {
      cron == other.cron && window == other.window
    }
  }

  /** _write_back_state: the new failure count, and whether to pause. */
  function FailuresAfter(previous: nat, status: Status): nat {
    if status == Failed then previous + 1 else 0
  }

  predicate ShouldPause(previous: nat, status: Status, maxFailures: nat) {
    status == Failed && previous + 1 >= maxFailures
  }

  function WrittenBack(row: Row, previous: nat, status: Status, maxFailures: nat): Row {
    row.Finished(status, FailuresAfter(previous, status), ShouldPause(previous, status, maxFailures))
  }

  /** The retirement write of a tick that found no further firing time. */
  function Retired(row: Row, snapshot: Row): Row {
    row.Finished(snapshot.lastStatus.GetOr(Success), snapshot.failures, true)
  }

  /** The cadence part of an edit; None leaves a field as it was. */
  datatype Patch = Patch(
    cron: Option<Schedule>,
    starts: Option<Option<int>>,
    ends: Option<Option<int>>,
    active: Option<bool>)
  {
    predicate Touches() {
      cron.Some? || starts.Some? || ends.Some? || active.Some?
    }

    /** validate_payload's checks on the cadence fields. */
    ghost predicate Valid() {
      && (cron.Some? ==> cron.value.Valid() && Satisfiable(cron.value))
      && Window(starts.GetOr(None), ends.GetOr(None)).Ordered()
    }

    /** Applies the fields the patch names and no others. */
    function Onto(row: Row): Row {
      row.(
        cron := cron.GetOr(row.cron),
        window := Window(starts.GetOr(row.window.starts), ends.GetOr(row.window.ends)),
        active := active.GetOr(row.active))
    }
  }

  /** compute_next_run. */
  ghost function ComputeNextRun(merged: Row, now: int): Option<int>
    requires merged.cron.Valid()
  {
    if merged.active then NextRun(merged.cron, now, merged.window) else None
  }

  /** An edit between its read and its write: the row it read, the patch, and the
      clock it computed the next run from. */
  datatype Edit = Edit(id: int, read: Row, patch: Patch, now: int) {
    ghost function Next(): Option<int>
      requires patch.Onto(read).cron.Valid()
    {
      ComputeNextRun(patch.Onto(read), now)
    }

    /** update_schedule raises when an active schedule has no run left. */
    ghost predicate Accepted() {
      && patch.Valid() && read.cron.Valid()
      && (patch.Touches() && patch.Onto(read).active ==> Next().Some?)
    }

    /** The same edit with its next run computed from another reading of the clock. */
    function At(moment: int): Edit {
      this.(now := moment)
    }

    predicate ResetsFailures() {
      patch.active == Some(true) && !read.active
    }

    /** The UPDATE, applied to the row as it is when the write lands. */
    ghost function Write(row: Row): Row
      requires patch.Onto(read).cron.Valid()
    {
      if !patch.Touches() then row
      else patch.Onto(row).(next := Next(), failures := if ResetsFailures() then 0 else row.failures)
    }
  }

  /** create_schedule: a new row with its first slot computed at `now`. */
  ghost function Created(cron: Schedule, window: Window, active: bool, now: int): Row
    requires cron.Valid()
  {
    var row := Row(cron, window, active, None, 0, None, None);
    row.(next := ComputeNextRun(row, now))
  }
}
