/** The scheduled_queries table as one process sees it: the database operations that
    update rows in place, and one pass of the scheduler over what is due. */
module ScheduleStore {
  import opened Wrappers
  import opened CronSchedule
  import opened CronWindow
  import opened ScheduleRows
  import opened SchedulerProtocol
  import opened SchedulerSlots
  import opened SchedulerSafety

  function Min(a: int, b: int): int {
    if a <= b then a else b
  }

  function DueIds(rows: map<int, Row>, moment: int): set<int> {
    set id | id in rows && rows[id].active && rows[id].next.Some? && rows[id].next.value <= moment
  }

  /** What one pass does to a row it handles: claim, then retire when nothing follows. */
  ghost function Handled(row: Row, moment: int): Row
    requires row.cron.Valid()
  {
    var upcoming := NextRun(row.cron, moment, row.window);
    var claimed := row.Claimed(upcoming, moment);
    if upcoming.None? then Retired(claimed, row) else claimed
  }

  /** The one way in which handling a row leaves it due: its start is not clean, and the
      pass falls between the start of that minute and the start itself. */
  predicate Stuck(row: Row, moment: int) {
    StepsBackTooFar(row.cron, moment, row.window) && WholeMinute(row.window.starts.value) <= moment
  }

  /** A handled row is no longer due, however many slots it had missed, unless it is stuck. */
  lemma HandledNotDue(row: Row, moment: int)
    requires row.cron.Valid() && row.Due(moment)
    ensures Handled(row, moment).Due(moment) <==> Stuck(row, moment)
    ensures CleanRow(row) ==> !Stuck(row, moment)
  {
    NextRunExactly(row.cron, moment, row.window);
    if StepsBackTooFar(row.cron, moment, row.window) {
      StartMinuteReturned(row.cron, moment, row.window);
    }
  }

  /** Handling keeps a row consistent with its cadence. */
  lemma HandledRowOk(row: Row, moment: int, maxFailures: nat)
    requires RowOk(row, maxFailures) && row.Due(moment)
    ensures RowOk(Handled(row, moment), maxFailures)
  {
    NextRunAdvances(row.cron, moment, row.window);
  }

  predicate OldestFirst(due: seq<Snapshot>) {
    && (forall i :: 0 <= i < |due| ==> due[i].row.next.Some?)
    && forall i, j :: 0 <= i < j < |due| ==> due[i].row.next.value <= due[j].row.next.value
  }

  ghost predicate Listed(due: seq<Snapshot>, id: int) {
    exists i :: 0 <= i < |due| && due[i].id == id
  }

  /** The oldest `limit` due rows, each once, oldest first. */
  ghost predicate OldestBatch(rows: map<int, Row>, moment: int, limit: nat, due: seq<Snapshot>) {
    && OldestFirst(due)
    && |due| == Min(limit, |DueIds(rows, moment)|)
    && (forall i :: 0 <= i < |due| ==> due[i].id in DueIds(rows, moment) && due[i].row == rows[due[i].id])
    && (forall i, j :: 0 <= i < j < |due| ==> due[i].id != due[j].id)
    && (forall i, id :: 0 <= i < |due| && id in DueIds(rows, moment) && !Listed(due, id) ==>
      due[i].row.next.value <= rows[id].next.value)
  }

  /** The due rows split into those listed, oldest first, and the rest, none older. */
  ghost predicate Sifted(rows: map<int, Row>, moment: int, due: seq<Snapshot>, rest: set<int>) {
    && rest <= DueIds(rows, moment)
    && OldestFirst(due)
    && (forall i :: 0 <= i < |due| ==>
      due[i].id in DueIds(rows, moment) && due[i].id !in rest && due[i].row == rows[due[i].id])
    && (forall i, j :: 0 <= i < j < |due| ==> due[i].id != due[j].id)
    && (forall i, id :: 0 <= i < |due| && id in rest ==> due[i].row.next.value <= rows[id].next.value)
    && (forall id :: id in DueIds(rows, moment) && id !in rest ==> Listed(due, id))
  }

  lemma SiftOne(rows: map<int, Row>, moment: int, due: seq<Snapshot>, rest: set<int>, oldest: int)
    requires Sifted(rows, moment, due, rest) && oldest in rest
    requires forall id :: id in rest ==> rows[oldest].next.value <= rows[id].next.value
    ensures Sifted(rows, moment, due + [Snapshot(oldest, rows[oldest])], rest - {oldest})
  {
    ListedMore(due, Snapshot(oldest, rows[oldest]));
  }

  /** The listed rows whose slot is still within the grace period, in order. */
  function InGrace(due: seq<Snapshot>, moment: int, grace: nat): seq<int>
    requires forall i :: 0 <= i < |due| ==> due[i].row.next.Some?
  {
    if due == [] then []
    else
      var last := due[|due| - 1];
      var before := InGrace(due[..|due| - 1], moment, grace);
      if moment - last.row.next.value > grace then before else before + [last.id]
  }

  /** A row is in the started list exactly when it was listed and is within grace. */
  lemma {:induction false} InGraceExactly(due: seq<Snapshot>, moment: int, grace: nat, id: int)
    requires forall i :: 0 <= i < |due| ==> due[i].row.next.Some?
    ensures id in InGrace(due, moment, grace) <==>
      exists i :: 0 <= i < |due| && due[i].id == id && moment - due[i].row.next.value <= grace
    decreases |due|
  {
    if due != [] {
      var front := due[..|due| - 1];
      InGraceExactly(front, moment, grace, id);
      if i :| 0 <= i < |front| && front[i].id == id && moment - front[i].row.next.value <= grace {
        assert due[i] == front[i];
      }
      if i :| 0 <= i < |due| && due[i].id == id && moment - due[i].row.next.value <= grace {
        assert i < |front| ==> front[i] == due[i];
      }
    }
  }

  /** What a pass over `due` leaves: the listed rows handled, all others untouched. */
  ghost predicate PassDone(was: map<int, Row>, now: map<int, Row>, due: seq<Snapshot>, moment: int) {
    && now.Keys == was.Keys
    && (forall i :: 0 <= i < |due| ==>
      && due[i].id in was && was[due[i].id].cron.Valid()
      && now[due[i].id] == Handled(was[due[i].id], moment))
    && (forall id :: id in was && !Listed(due, id) ==> now[id] == was[id])
  }

  lemma PassAt(was: map<int, Row>, now: map<int, Row>, moment: int, due: seq<Snapshot>, id: int)
    requires id in was && was[id].cron.Valid()
    requires OldestBatch(was, moment, DUE_BATCH_SIZE, due) && PassDone(was, now, due, moment)
    ensures now[id].Due(moment) <==> was[id].Due(moment) && (!Listed(due, id) || Stuck(was[id], moment))
  {
    if Listed(due, id) {
      HandledNotDue(was[id], moment);
    }
  }

  /** A pass over one batch leaves due exactly the rows it did not list and the stuck ones. */
  lemma PassLeaves(was: map<int, Row>, now: map<int, Row>, moment: int, due: seq<Snapshot>)
    requires forall id :: id in was ==> was[id].cron.Valid()
    requires OldestBatch(was, moment, DUE_BATCH_SIZE, due) && PassDone(was, now, due, moment)
    ensures forall id :: id in DueIds(now, moment) <==>
      id in DueIds(was, moment) && (id !in Ids(due) || Stuck(was[id], moment))
  {
    forall id ensures id in Ids(due) <==> Listed(due, id) {
      if Listed(due, id) {
        var i :| 0 <= i < |due| && due[i].id == id;
        assert due[i].id in Ids(due);
      }
    }
    forall id | id in was
      ensures now[id].Due(moment) <==> was[id].Due(moment) && (id !in Ids(due) || Stuck(was[id], moment))
    {
      PassAt(was, now, moment, due, id);
    }
  }

  ghost predicate NoneStuck(rows: map<int, Row>, moment: int) {
    forall id :: id in rows && rows[id].Due(moment) ==> !Stuck(rows[id], moment)
  }

  /** With no due row stuck, n due rows become n - min(50, n). */
  lemma PassProgress(was: map<int, Row>, now: map<int, Row>, moment: int, due: seq<Snapshot>)
    requires forall id :: id in was ==> was[id].cron.Valid()
    requires OldestBatch(was, moment, DUE_BATCH_SIZE, due) && PassDone(was, now, due, moment)
    requires NoneStuck(was, moment)
    ensures |DueIds(now, moment)| == |DueIds(was, moment)| - Min(DUE_BATCH_SIZE, |DueIds(was, moment)|)
  {
    PassLeaves(was, now, moment, due);
    var listed := Ids(due);
    forall id ensures id in DueIds(now, moment) <==> id in DueIds(was, moment) - listed {
      assert id in DueIds(was, moment) ==> !Stuck(was[id], moment);
    }
    SameMembers(DueIds(now, moment), DueIds(was, moment) - listed);
    ListedCount(due);
    assert listed <= DueIds(was, moment);
  }

  /** A consistent table, with all its starts clean, has no stuck row and stays consistent. */
  lemma PassKeepsRowsOk(was: map<int, Row>, now: map<int, Row>, moment: int, due: seq<Snapshot>, maxFailures: nat)
    requires OldestBatch(was, moment, DUE_BATCH_SIZE, due) && PassDone(was, now, due, moment)
    requires forall id :: id in was ==> RowOk(was[id], maxFailures)
    ensures NoneStuck(was, moment) && forall id :: id in now ==> RowOk(now[id], maxFailures)
  {
    forall id | id in was ensures !Stuck(was[id], moment) && RowOk(now[id], maxFailures) {
      if Listed(due, id) {
        HandledRowOk(was[id], moment, maxFailures);
      }
    }
  }

  function Ids(due: seq<Snapshot>): set<int> {
    set i | 0 <= i < |due| :: due[i].id
  }

  lemma {:induction false} ListedCount(due: seq<Snapshot>)
    requires forall i, j :: 0 <= i < j < |due| ==> due[i].id != due[j].id
    ensures |Ids(due)| == |due|
    decreases |due|
  {
    if due != [] {
      var front := due[..|due| - 1];
      ListedCount(front);
      assert Ids(due) == Ids(front) + {due[|due| - 1].id};
    }
  }

  lemma ListedMore(due: seq<Snapshot>, snap: Snapshot)
    ensures forall id :: Listed(due + [snap], id) <==> Listed(due, id) || id == snap.id
  {
    forall id ensures Listed(due + [snap], id) <==> Listed(due, id) || id == snap.id {
      assert (due + [snap])[|due|] == snap;
      forall i | 0 <= i < |due| ensures (due + [snap])[i] == due[i] {
      }
    }
  }

  lemma PassExtends(was: map<int, Row>, now: map<int, Row>, after: map<int, Row>, due: seq<Snapshot>, i: nat,
    moment: int)
    requires i < |due| && PassDone(was, now, due[..i], moment)
    requires forall p, q :: 0 <= p < q < |due| ==> due[p].id != due[q].id
    requires due[i].id in was && was[due[i].id].cron.Valid()
    requires after == now[due[i].id := Handled(was[due[i].id], moment)]
    ensures PassDone(was, after, due[..i + 1], moment)
  {
    assert due[..i + 1] == due[..i] + [due[i]];
    assert Listed(due[..i + 1], due[i].id) by {
      assert due[..i + 1][i].id == due[i].id;
    }
    forall id | Listed(due[..i], id) ensures Listed(due[..i + 1], id) {
      var j :| 0 <= j < i && due[..i][j].id == id;
      assert due[..i + 1][j].id == id;
    }
  }

  lemma GraceExtends(due: seq<Snapshot>, i: nat, moment: int, grace: nat)
    requires i < |due| && forall j :: 0 <= j < |due| ==> due[j].row.next.Some?
    ensures InGrace(due[..i + 1], moment, grace) ==
      InGrace(due[..i], moment, grace) + (if moment - due[i].row.next.value <= grace then [due[i].id] else [])
  {
    assert due[..i + 1][..i] == due[..i];
  }

  /** The snapshots are of distinct due rows, as those rows are now. */
  ghost predicate FreshSnapshots(rows: map<int, Row>, moment: int, due: seq<Snapshot>) {
    && (forall i :: 0 <= i < |due| ==>
      due[i].id in rows && due[i].row == rows[due[i].id] && due[i].row.cron.Valid() && due[i].row.Due(moment))
    && (forall i, j :: 0 <= i < j < |due| ==> due[i].id != due[j].id)
  }

  /** The patched fields take the patch's values and the others stay; an active row gets
      a next run, the first in its window unless its start is not clean and lies ahead, and
      an inactive row gets none; a resumed row starts counting failures afresh. */
  ghost predicate EditedAsPatched(was: Row, patch: Patch, now: int, row: Row) {
    && row.cron == patch.cron.GetOr(was.cron) && row.cron.Valid()
    && row.window == Window(patch.starts.GetOr(was.window.starts), patch.ends.GetOr(was.window.ends))
    && row.active == patch.active.GetOr(was.active)
    && (!row.active ==> row.next.None?)
    && (row.active ==> row.next.Some?)
    && (row.active ==> (IsNextRun(row.cron, now, row.window, row.next) <==> !StepsBackTooFar(row.cron, now, row.window)))
    && row.failures == (if row.active && !was.active then 0 else was.failures)
    && row.lastRun == was.lastRun && row.lastStatus == was.lastStatus
  }

  /** What an accepted cadence edit writes. */
  lemma EditWritesPatch(e: Edit)
    requires e.Accepted() && e.patch != Patch(None, None, None, None)
    ensures EditedAsPatched(e.read, e.patch, e.now, e.Write(e.read))
  {
    var merged := e.patch.Onto(e.read);
    NextRunExactly(merged.cron, e.now, merged.window);
  }

  /** An edit that gives a clean start keeps a consistent row consistent. */
  lemma EditKeepsRowOk(was: Row, patch: Patch, now: int, row: Row, maxFailures: nat)
    requires RowOk(was, maxFailures) && maxFailures >= 1 && patch.Valid() && EditedAsPatched(was, patch, now, row)
    requires CleanStart(row.cron, row.window)
    ensures RowOk(row, maxFailures)
  {
  }

  /** A new row has what was asked for, no failures and, if it is active, the first run in
      its window unless its start is not clean and lies ahead. */
  lemma CreatedAsAsked(cron: Schedule, window: Window, active: bool, now: int)
    requires cron.Valid()
    ensures var row := Created(cron, window, active, now);
      && row.cron == cron && row.window == window && row.active == active && row.failures == 0
      && row.lastRun.None? && row.lastStatus.None?
      && (!active ==> row.next.None?)
      && (active ==> (IsNextRun(cron, now, window, row.next) <==> !StepsBackTooFar(cron, now, window)))
  {
    NextRunExactly(cron, now, window);
  }

  /** The protocol's claim of a fresh snapshot, with the retirement that may follow it, does to
      the table what a pass over that row does, and leaves a run to make exactly when the slot
      is within the grace period. */
  lemma ClaimIsHandling(w: World, p: int)
    requires Enabled(w, ClaimNext(p))
    requires var q := w.processes[p]; var snap := q.queue[0];
      && snap.id in w.rows && w.rows[snap.id] == snap.row && snap.row.Due(q.moment.value) && snap.Key() !in q.runs
    ensures var q := w.processes[p]; var snap := q.queue[0];
      var claimed := Apply(w, ClaimNext(p));
      && claimed.claims == w.claims + [Claim(snap.Key(), q.moment.value)]
      && claimed.processes[p].queue == q.queue[1..]
      && (snap.Key() in claimed.processes[p].runs <==> q.moment.value - snap.row.next.value <= w.grace)
      && (if claimed.processes[p].retiring.Some?
          then Enabled(claimed, Retire(p, true)) && Apply(claimed, Retire(p, true)).rows == w.rows[snap.id := Handled(snap.row, q.moment.value)]
          else claimed.rows == w.rows[snap.id := Handled(snap.row, q.moment.value)])
  {
  }

  /** A claim that comes too late, for a row that is gone, paused or at another slot, moves on
      to the next row of the tick and changes nothing else. */
  lemma LateClaimChangesNothing(w: World, p: int)
    requires Enabled(w, ClaimNext(p))
    requires var snap := w.processes[p].queue[0];
      snap.id in w.rows ==> !w.rows[snap.id].active || w.rows[snap.id].next != snap.row.next
    ensures var q := w.processes[p];
      Apply(w, ClaimNext(p)) == w.(processes := w.processes[p := q.(queue := q.queue[1..])])
  {
  }

  class Store {
    var rows: map<int, Row>

    constructor ()
      ensures rows == map[]
    {
      rows := map[];
    }

    /** The oldest `limit` due rows, oldest first. */
    method ListDue(moment: int, limit: nat) returns (due: seq<Snapshot>)
      ensures OldestBatch(rows, moment, limit, due)
    {
      var all := set id | id in rows && rows[id].Due(moment);
      assert all == DueIds(rows, moment);
      var rest := all;
      due := [];
      while rest != {} && |due| < limit
        invariant rest <= all && |due| + |rest| == |all| && |due| <= limit
        invariant Sifted(rows, moment, due, rest)
        decreases |rest|
      {
        var oldest := Oldest(rest, moment);
        SiftOne(rows, moment, due, rest, oldest);
        due := due + [Snapshot(oldest, rows[oldest])];
        rest := rest - {oldest};
      }
    }

    method Oldest(ids: set<int>, moment: int) returns (oldest: int)
      requires ids != {} && ids <= DueIds(rows, moment)
      ensures oldest in ids && forall id :: id in ids ==> rows[oldest].next.value <= rows[id].next.value
    {
      oldest := Pick(ids);
      var rest := ids - {oldest};
      while rest != {}
        invariant rest <= ids && oldest in ids
        invariant forall id :: id in ids - rest ==> rows[oldest].next.value <= rows[id].next.value
        decreases |rest|
      {
        var id := Pick(rest);
        if rows[id].next.value < rows[oldest].next.value {
          oldest := id;
        }
        rest := rest - {id};
      }
    }

    /** The compare-and-swap on next_run_at. */
    method ClaimSchedule(id: int, expected: int, upcoming: Option<int>, moment: int) returns (won: bool)
      modifies this
      ensures won <==> id in old(rows) && old(rows)[id].active && old(rows)[id].next == Some(expected)
      ensures rows == if won then old(rows)[id := old(rows)[id].(next := upcoming, lastRun := Some(moment))] else old(rows)
    {
      won := id in rows && rows[id].CanClaim(expected);
      if won {
        rows := rows[id := rows[id].Claimed(upcoming, moment)];
      }
    }

    method FinishScheduleRun(id: int, status: Status, failures: nat, deactivate: bool) returns (found: bool)
      modifies this
      ensures found <==> id in old(rows)
      ensures found && !deactivate ==> rows == old(rows)[id := old(rows)[id].(lastStatus := Some(status), failures := failures)]
      ensures found && deactivate ==>
        rows == old(rows)[id := old(rows)[id].(lastStatus := Some(status), failures := failures, active := false, next := None)]
      ensures !found ==> rows == old(rows)
    {
      found := id in rows;
      if found {
        rows := rows[id := rows[id].Finished(status, failures, deactivate)];
      }
    }

    /** _write_back_state, from the row as it was when the run was queued. */
    method WriteBackState(snap: Snapshot, status: Status, maxFailures: nat) returns (paused: bool)
      modifies this
      ensures paused <==> status == Failed && snap.row.failures + 1 >= maxFailures
      ensures rows == if snap.id in old(rows)
        then old(rows)[snap.id := WrittenBack(old(rows)[snap.id], snap.row.failures, status, maxFailures)] else old(rows)
    {
      var failures := 0;
      paused := false;
      if status == Failed {
        failures := snap.row.failures + 1;
        paused := failures >= maxFailures;
      }
      var _ := FinishScheduleRun(snap.id, status, failures, paused);
    }

    /** The state part of run_schedule: the outcome of a run is written back unless the run
        was started by hand. */
    method RunSchedule(snap: Snapshot, status: Status, manual: bool, maxFailures: nat)
      modifies this
      ensures rows == if !manual && snap.id in old(rows)
        then old(rows)[snap.id := WrittenBack(old(rows)[snap.id], snap.row.failures, status, maxFailures)]
        else old(rows)
    {
      if !manual {
        var _ := WriteBackState(snap, status, maxFailures);
      }
    }

    /** The cadence part of validate_payload. */
    method ValidatePayload(patch: Patch, now: int) returns (ok: bool)
      requires patch.cron.Some? ==> patch.cron.value.Valid()
      ensures ok <==> patch.Valid()
    {
      if patch.cron.Some? {
        var next := SearchNextAfter(patch.cron.value, now);
        if next.None? {
          return false;
        }
      }
      if patch.starts.Some? && patch.ends.Some? && patch.starts.value.Some? && patch.ends.value.Some? {
        return patch.starts.value.value < patch.ends.value.value;
      }
      return true;
    }

    /** update_schedule with nothing between its read and its write. */
    method UpdateSchedule(id: int, patch: Patch, now: int) returns (accepted: bool)
      requires patch.cron.Some? ==> patch.cron.value.Valid()
      requires id in rows ==> rows[id].cron.Valid()
      modifies this
      ensures accepted <==> id in old(rows) && Edit(id, old(rows)[id], patch, now).Accepted()
      ensures !accepted ==> rows == old(rows)
      ensures accepted ==> rows == old(rows)[id := Edit(id, old(rows)[id], patch, now).Write(old(rows)[id])]
    {
      if id !in rows {
        return false;
      }
      var read := rows[id];
      var valid := ValidatePayload(patch, now);
      if !valid {
        return false;
      }
      if !patch.Touches() {
        return true;
      }
      var merged := patch.Onto(read);
      var next: Option<int> := None;
      if merged.active {
        next := SearchNextRun(merged.cron, now, merged.window);
        if next.None? {
          return false;
        }
      }
      var resume := patch.active == Some(true) && !read.active;
      rows := rows[id := merged.(next := next, failures := if resume then 0 else read.failures)];
      return true;
    }

    /** The loop body of a tick for one due row, and whether its run is started. */
    method HandleDue(snap: Snapshot, moment: int, grace: nat) returns (starts: bool)
      requires snap.id in rows && rows[snap.id] == snap.row
      requires snap.row.cron.Valid() && snap.row.Due(moment)
      modifies this
      ensures rows == old(rows)[snap.id := Handled(snap.row, moment)]
      ensures starts <==> moment - snap.row.next.value <= grace
    {
      var slot := snap.row.next.value;
      var upcoming := SearchNextRun(snap.row.cron, moment, snap.row.window);
      var claimed := ClaimSchedule(snap.id, slot, upcoming, moment);
      if !claimed {
        return false;
      }
      if upcoming.None? {
        var _ := FinishScheduleRun(snap.id, snap.row.lastStatus.GetOr(Success), snap.row.failures, true);
      }
      return moment - slot <= grace;
    }

    /** The loop of a tick over the rows it listed. */
    method HandleAll(due: seq<Snapshot>, moment: int, grace: nat) returns (started: seq<int>)
      requires FreshSnapshots(rows, moment, due)
      modifies this
      ensures PassDone(old(rows), rows, due, moment)
      ensures started == InGrace(due, moment, grace)
    {
      started := [];
      for i := 0 to |due|
        invariant PassDone(old(rows), rows, due[..i], moment)
        invariant started == InGrace(due[..i], moment, grace)
        invariant forall k :: i <= k < |due| ==> rows[due[k].id] == due[k].row
      {
        ghost var before := rows;
        var starts := HandleDue(due[i], moment, grace);
        PassExtends(old(rows), before, rows, due, i, moment);
        GraceExtends(due, i, moment, grace);
        if starts {
          started := started + [due[i].id];
        }
      }
      assert due[..|due|] == due;
    }

    /** One scheduler pass with no other writer: the oldest batch of what is due is
        claimed, each row once, and retired when nothing follows; what is within its
        grace period is started. Nothing else changes. What is then still due is what was
        not listed, and a listed row only if it is stuck. */
    method Tick(moment: int, grace: nat) returns (due: seq<Snapshot>, started: seq<int>)
      requires forall id :: id in rows ==> rows[id].cron.Valid()
      modifies this
      ensures OldestBatch(old(rows), moment, 50, due)
      ensures PassDone(old(rows), rows, due, moment)
      ensures started == InGrace(due, moment, grace)
      ensures forall id :: id in DueIds(rows, moment) <==>
        id in DueIds(old(rows), moment) && (id !in Ids(due) || Stuck(old(rows)[id], moment))
      ensures NoneStuck(old(rows), moment) ==>
        |DueIds(rows, moment)| == |DueIds(old(rows), moment)| - Min(DUE_BATCH_SIZE, |DueIds(old(rows), moment)|)
    {
      due := ListDue(moment, DUE_BATCH_SIZE);
      started := HandleAll(due, moment, grace);
      PassLeaves(old(rows), rows, moment, due);
      if NoneStuck(old(rows), moment) {
        PassProgress(old(rows), rows, moment, due);
      }
    }
  }
}
