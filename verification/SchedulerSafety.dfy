/** The rows stay consistent: when no edit is overtaken between its read and its write,
    the next slot of a row always belongs to the row's current cadence. */
module SchedulerSafety {
  import opened CronSchedule
  import opened CronWindow
  import opened ScheduleRows
  import opened SchedulerProtocol
  import opened SchedulerSlots

  /** A cadence edit whose row has kept, until the write lands, the fields it was merged
      from. */
  ghost predicate Undisturbed(w: World, e: Edit) {
    e.patch.Touches() && e.id in w.rows ==>
      w.rows[e.id].SameCadence(e.read) && w.rows[e.id].active == e.read.active
  }

  /** Slots move forward and edits are undisturbed. */
  ghost predicate Careful(w: World, step: Step)
    requires Enabled(w, step)
  {
    KeepsSlots(w, step) && (step.EditWrite? ==> Undisturbed(w, w.edits[step.u]))
  }

  ghost predicate IsCarefulRun(w: World, steps: seq<Step>)
    decreases |steps|
  {
    steps == [] || (Enabled(w, steps[0]) && Careful(w, steps[0]) && IsCarefulRun(Apply(w, steps[0]), steps[1..]))
  }

  // ── The invariant ──────────────────────────────────────────────────

  /** A row's next slot is a firing time of its own cadence, inside its own window,
      and only an active row has one. */
  ghost predicate RowOk(row: Row, maxFailures: nat) {
    && CleanRow(row) && Satisfiable(row.cron)
    && (row.next.Some? ==> row.active && row.cron.FiresAt(row.next.value) && row.window.Holds(row.next.value))
    && (row.active ==> row.failures < maxFailures)
  }

  ghost predicate RowsOk(w: World) {
    w.maxFailures >= 1 && forall id :: id in w.rows ==> RowOk(w.rows[id], w.maxFailures)
  }

  /** A snapshot's slot is never ahead of its row's; while it is still the row's slot,
      the row still has the cadence the snapshot was read with. */
  ghost predicate SnapshotOk(w: World, snap: Snapshot) {
    snap.row.next.Some? && snap.id in w.rows && w.rows[snap.id].next.Some? ==>
      var now := w.rows[snap.id];
      snap.row.next.value <= now.next.value && (snap.row.next == now.next ==> now.SameCadence(snap.row))
  }

  ghost predicate SnapshotsOk(w: World) {
    forall p, snap :: Queued(w, p, snap) ==> SnapshotOk(w, snap)
  }

  ghost predicate Inv(w: World) {
    SlotInv(w) && RowsOk(w) && SnapshotsOk(w)
  }

  // ── Rows ───────────────────────────────────────────────────────────

  lemma EditedRowOk(w: World, e: Edit)
    requires RowsOk(w) && e.Accepted() && e.id in w.rows && Undisturbed(w, e)
    requires e.patch.Touches() ==> CleanRow(e.Write(w.rows[e.id]))
    ensures RowOk(e.Write(w.rows[e.id]), w.maxFailures)
  {
    var merged := e.patch.Onto(e.read);
    if e.patch.Touches() && merged.active {
      NextRunAdvances(merged.cron, e.now, merged.window);
    }
  }

  lemma CreatedRowOk(cron: Schedule, window: Window, active: bool, now: int, maxFailures: nat)
    requires cron.Valid() && Satisfiable(cron) && CleanStart(cron, window) && maxFailures >= 1
    ensures RowOk(Created(cron, window, active, now), maxFailures)
  {
    NextRunAdvances(cron, now, window);
  }

  /** A claim that wins finds the cadence its snapshot was read with. */
  lemma WinnerSeesCadence(w: World, p: int)
    requires Inv(w) && Enabled(w, ClaimNext(p))
    ensures var q := w.processes[p]; var snap := q.queue[0];
      snap.id in w.rows && w.rows[snap.id].CanClaim(snap.row.next.value) ==>
        var upcoming := NextRun(snap.row.cron, q.moment.value, snap.row.window);
        && w.rows[snap.id].SameCadence(snap.row)
        && RowOk(w.rows[snap.id].Claimed(upcoming, q.moment.value), w.maxFailures)
  {
    var q := w.processes[p];
    var snap := q.queue[0];
    assert Queued(w, p, snap);
    assert SnapshotClean(w, q.moment.value, snap);
    NextRunAdvances(snap.row.cron, q.moment.value, snap.row.window);
  }

  lemma OneRowOk(w: World, w': World, id: int)
    requires RowsOk(w) && w'.maxFailures == w.maxFailures
    requires id in w'.rows && w'.rows == w.rows[id := w'.rows[id]] && RowOk(w'.rows[id], w.maxFailures)
    ensures RowsOk(w')
  {
  }

  lemma RetireRowsOk(w: World, p: int, written: bool)
    requires RowsOk(w) && Enabled(w, Retire(p, written))
    ensures RowsOk(Apply(w, Retire(p, written)))
  {
    var w' := Apply(w, Retire(p, written));
    var snap := w.processes[p].retiring.value;
    if written && snap.id in w.rows {
      OneRowOk(w, w', snap.id);
    }
  }

  lemma WriteBackRowsOk(w: World, p: int, slot: Slot, written: bool)
    requires RowsOk(w) && Enabled(w, WriteBack(p, slot, written))
    ensures RowsOk(Apply(w, WriteBack(p, slot, written)))
  {
    var w' := Apply(w, WriteBack(p, slot, written));
    if written && slot.id in w.rows {
      OneRowOk(w, w', slot.id);
    }
  }

  lemma ClaimRowsOk(w: World, p: int)
    requires Inv(w) && Enabled(w, ClaimNext(p))
    ensures RowsOk(ApplyClaim(w, p))
  {
    WinnerSeesCadence(w, p);
    var snap := w.processes[p].queue[0];
    var w' := ApplyClaim(w, p);
    if w'.claims != w.claims {
      OneRowOk(w, w', snap.id);
    }
  }

  lemma EditRowsOk(w: World, u: int)
    requires RowsOk(w) && Enabled(w, EditWrite(u)) && Careful(w, EditWrite(u))
    ensures RowsOk(Apply(w, EditWrite(u)))
  {
    var e := w.edits[u];
    if e.id in w.rows {
      EditedRowOk(w, e);
      OneRowOk(w, Apply(w, EditWrite(u)), e.id);
    }
  }

  lemma CreateRowsOk(w: World, step: Step)
    requires RowsOk(w) && step.Create? && Enabled(w, step) && Careful(w, step)
    ensures RowsOk(Apply(w, step))
  {
    CreatedRowOk(step.cron, step.window, step.active, step.now, w.maxFailures);
    OneRowOk(w, Apply(w, step), step.id);
  }

  lemma RowsOkKept(w: World, step: Step)
    requires Inv(w) && Enabled(w, step) && Careful(w, step)
    ensures RowsOk(Apply(w, step))
  {
    match step
    case ClaimNext(p) => ClaimRowsOk(w, p);
    case Retire(p, written) => RetireRowsOk(w, p, written);
    case WriteBack(p, slot, written) => WriteBackRowsOk(w, p, slot, written);
    case EditWrite(u) => EditRowsOk(w, u);
    case Create(_, _, _, _, _) => CreateRowsOk(w, step);
    case _ =>
  }

  // ── Snapshots ──────────────────────────────────────────────────────

  /** A step that changes a row's cadence clears its slot or puts it past the clock. */
  ghost predicate CadenceMoves(w: World, w': World, id: int) {
    id in w.rows && id in w'.rows ==>
      || w'.rows[id].SameCadence(w.rows[id])
      || w'.rows[id].next.None?
      || w.clock < w'.rows[id].next.value
  }

  lemma CadenceKept(w: World, step: Step)
    requires SlotInv(w) && Enabled(w, step) && KeepsSlots(w, step)
    ensures forall id :: CadenceMoves(w, Apply(w, step), id)
  {
    if step.Create? {
      assert step.id !in w.rows;
    }
  }

  lemma SnapshotFramed(w: World, w': World, moment: int, snap: Snapshot)
    requires RowsAdvance(w, w') && CadenceMoves(w, w', snap.id) && moment <= w.clock
    requires SnapshotClean(w, moment, snap) && SnapshotOk(w, snap)
    ensures SnapshotOk(w', snap)
  {
    assert RowMoves(w, w', snap.id);
  }

  lemma SnapshotsFramed(w: World, w': World)
    requires QueuesClean(w) && SnapshotsOk(w) && RowsAdvance(w, w') && forall id :: CadenceMoves(w, w', id)
    requires forall p, snap :: Queued(w', p, snap) ==> Queued(w, p, snap)
    ensures SnapshotsOk(w')
  {
    forall p, snap | Queued(w', p, snap) ensures SnapshotOk(w', snap) {
      assert Queued(w, p, snap);
      SnapshotFramed(w, w', w.processes[p].moment.value, snap);
    }
  }

  lemma SnapshotsListed(w: World, p: int, due: seq<Snapshot>)
    requires SlotInv(w) && SnapshotsOk(w) && Enabled(w, ListDue(p, due))
    ensures SnapshotsOk(Apply(w, ListDue(p, due)))
  {
    var w' := Apply(w, ListDue(p, due));
    forall q, snap | Queued(w', q, snap) ensures SnapshotOk(w', snap) {
      if q != p {
        assert Queued(w, q, snap);
      }
    }
  }

  lemma NothingQueued(w: World, step: Step)
    requires MomentsOk(w) && Enabled(w, step) && !step.ListDue?
    ensures forall p, snap :: Queued(Apply(w, step), p, snap) ==> Queued(w, p, snap)
  {
    var w' := Apply(w, step);
    if !step.ClaimNext? && !step.Execute? {
      Shrinking(w, step);
      forall p, snap | Queued(w', p, snap) ensures Queued(w, p, snap) {
        assert ProcessShrinks(w.processes[p], w'.processes[p]);
      }
    }
  }

  lemma SnapshotsKept(w: World, step: Step)
    requires Inv(w) && Enabled(w, step) && Careful(w, step)
    ensures SnapshotsOk(Apply(w, step))
  {
    if step.ListDue? {
      SnapshotsListed(w, step.p, step.due);
    } else {
      RowsKept(w, step);
      CadenceKept(w, step);
      NothingQueued(w, step);
      SnapshotsFramed(w, Apply(w, step));
    }
  }

  // ── Every careful step keeps the invariant ─────────────────────────

  lemma InvKept(w: World, step: Step)
    requires Inv(w) && Enabled(w, step) && Careful(w, step)
    ensures Inv(Apply(w, step))
  {
    SlotInvKept(w, step);
    RowsOkKept(w, step);
    SnapshotsKept(w, step);
  }

  lemma {:induction false} InvOfRun(w: World, steps: seq<Step>)
    requires Inv(w) && IsCarefulRun(w, steps)
    ensures IsRun(w, steps) && Inv(After(w, steps))
    decreases |steps|
  {
    if steps != [] {
      InvKept(w, steps[0]);
      InvOfRun(Apply(w, steps[0]), steps[1..]);
    }
  }

  /** In every reachable state a row's next slot belongs to its current cron and its
      current window, an inactive row has none, and an active row is under the
      failure limit. */
  lemma RowsStayConsistent(w: World, steps: seq<Step>, id: int)
    requires Init(w) && IsCarefulRun(w, steps)
    ensures IsRun(w, steps)
    ensures id in After(w, steps).rows ==>
      var row := After(w, steps).rows[id];
      && (row.next.Some? ==> row.cron.FiresAt(row.next.value) && row.window.Holds(row.next.value))
      && (!row.active ==> row.next.None?)
      && (row.active ==> row.failures < w.maxFailures)
  {
    InvOfRun(w, steps);
    LimitsKept(w, steps);
  }

  lemma {:induction false} LimitsKept(w: World, steps: seq<Step>)
    requires IsRun(w, steps)
    ensures After(w, steps).maxFailures == w.maxFailures
    decreases |steps|
  {
    if steps != [] {
      LimitsKept(Apply(w, steps[0]), steps[1..]);
    }
  }
}
