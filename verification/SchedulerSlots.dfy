/** Every occurrence is claimed, and its report mailed, at most once: the invariant that
    every step keeps as long as starts are clean and no edit puts a slot in the past. */
module SchedulerSlots {
  import opened Wrappers
  import opened CronWindow
  import opened ScheduleRows
  import opened SchedulerProtocol

  ghost predicate CleanRow(row: Row) {
    row.cron.Valid() && CleanStart(row.cron, row.window)
  }

  /** What a cadence edit writes has a clean start, and its slot still lies ahead. */
  ghost predicate WritesAhead(w: World, e: Edit)
    requires e.Accepted()
  {
    e.patch.Touches() && e.id in w.rows ==>
      && CleanRow(e.Write(w.rows[e.id]))
      && (e.Next().Some? ==> e.Next().value > w.clock)
  }

  /** What the code leaves to its callers for slots to move forward. */
  ghost predicate KeepsSlots(w: World, step: Step)
    requires Enabled(w, step)
  {
    match step
    case EditWrite(u) => WritesAhead(w, w.edits[u])
    case Create(_, cron, window, _, _) => CleanStart(cron, window)
    case _ => true
  }

  ghost predicate IsForwardRun(w: World, steps: seq<Step>)
    decreases |steps|
  {
    steps == [] || (Enabled(w, steps[0]) && KeepsSlots(w, steps[0]) && IsForwardRun(Apply(w, steps[0]), steps[1..]))
  }

  // ── The invariant ──────────────────────────────────────────────────

  ghost predicate RowsClean(w: World) {
    forall id :: id in w.rows ==> id in w.used && CleanRow(w.rows[id])
  }

  ghost predicate ClaimedBefore(claims: seq<Claim>, slot: Slot) {
    exists i :: 0 <= i < |claims| && claims[i].slot == slot
  }

  /** The row's next slot, if it has one, is later than the clock reading of the claim. */
  ghost predicate SlotAhead(w: World, claim: Claim) {
    var id := claim.slot.id;
    id in w.rows && w.rows[id].next.Some? ==> claim.moment < w.rows[id].next.value
  }

  /** Each claim is made no earlier than its slot, the slot of each later claim of a
      schedule lies past the clock reading of the earlier ones, and so does its next. */
  ghost predicate ClaimsOk(w: World) {
    && (forall i :: 0 <= i < |w.claims| ==>
      w.claims[i].slot.id in w.used && w.claims[i].slot.at <= w.claims[i].moment <= w.clock)
    && (forall i, j :: 0 <= i < j < |w.claims| && w.claims[i].slot.id == w.claims[j].slot.id ==>
      w.claims[i].moment < w.claims[j].slot.at)
    && (forall i :: 0 <= i < |w.claims| ==> SlotAhead(w, w.claims[i]))
  }

  ghost predicate MomentsOk(w: World) {
    forall p :: p in w.processes ==>
      && (w.processes[p].moment.Some? ==> w.processes[p].moment.value <= w.clock)
      && (w.processes[p].queue != [] ==> w.processes[p].moment.Some?)
  }

  ghost predicate Queued(w: World, p: int, snap: Snapshot) {
    p in w.processes && snap in w.processes[p].queue
  }

  ghost predicate SnapshotClean(w: World, moment: int, snap: Snapshot) {
    snap.id in w.used && CleanRow(snap.row) && snap.row.Due(moment)
  }

  ghost predicate QueuesClean(w: World) {
    && MomentsOk(w)
    && forall p, snap :: Queued(w, p, snap) ==> SnapshotClean(w, w.processes[p].moment.GetOr(0), snap)
  }

  ghost predicate Holds(w: World, p: int, slot: Slot) {
    p in w.processes && slot in w.processes[p].runs
  }

  /** Each claimed occurrence is held by at most one process, and is unsent until it
      has been executed. */
  ghost predicate RunsOk(w: World) {
    && (forall p, slot :: Holds(w, p, slot) ==>
      && ClaimedBefore(w.claims, slot)
      && (w.processes[p].runs[slot].Pending? ==> slot !in w.sent))
    && (forall p, q, slot :: Holds(w, p, slot) && Holds(w, q, slot) ==> p == q)
  }

  ghost predicate SentOk(w: World) {
    && (forall i :: 0 <= i < |w.sent| ==> ClaimedBefore(w.claims, w.sent[i]))
    && (forall i, j :: 0 <= i < j < |w.sent| ==> w.sent[i] != w.sent[j])
  }

  ghost predicate SlotInv(w: World) {
    RowsClean(w) && ClaimsOk(w) && QueuesClean(w) && RunsOk(w) && SentOk(w)
  }

  // ── Rows and their slots ───────────────────────────────────────────

  /** The slot stays, or is later than before, or lies past the clock. */
  ghost predicate SlotMoves(was: Row, now: Row, clock: int)
    requires now.next.Some?
  {
    || now.next == was.next
    || (was.next.Some? && was.next.value < now.next.value)
    || clock < now.next.value
  }

  /** A forward step leaves a row's slot alone, clears it or moves it forward. An id
      comes into use once. */
  ghost predicate RowMoves(w: World, w': World, id: int) {
    id in w'.rows ==>
      && (id in w.rows || id !in w.used)
      && (id in w.rows && w'.rows[id].next.Some? ==> SlotMoves(w.rows[id], w'.rows[id], w.clock))
  }

  ghost predicate RowsAdvance(w: World, w': World) {
    && w.clock <= w'.clock && w.used <= w'.used && RowsClean(w')
    && forall id :: RowMoves(w, w', id)
  }

  lemma RowsUntouched(w: World, w': World)
    requires RowsClean(w) && w'.rows == w.rows && w.clock <= w'.clock && w.used == w'.used
    ensures RowsAdvance(w, w')
  {
  }

  lemma OneRowChanged(w: World, w': World, id: int)
    requires RowsClean(w) && id in w'.rows && w'.rows == w.rows[id := w'.rows[id]]
    requires w.clock == w'.clock && w'.used == w.used + {id}
    requires CleanRow(w'.rows[id]) && RowMoves(w, w', id)
    ensures RowsAdvance(w, w')
  {
    forall other ensures RowMoves(w, w', other) {
    }
  }

  /** A claim that wins moves the slot strictly past the tick's clock reading. */
  lemma WinningClaim(w: World, p: int)
    requires SlotInv(w) && Enabled(w, ClaimNext(p))
    ensures var q := w.processes[p]; var snap := q.queue[0];
      && SnapshotClean(w, q.moment.value, snap) && snap.row.next.value <= q.moment.value <= w.clock
      && var upcoming := NextRun(snap.row.cron, q.moment.value, snap.row.window);
        upcoming.Some? ==> upcoming.value > q.moment.value
  {
    var q := w.processes[p];
    var snap := q.queue[0];
    assert Queued(w, p, snap);
    NextRunAdvances(snap.row.cron, q.moment.value, snap.row.window);
  }

  lemma ClaimAdvances(w: World, p: int)
    requires SlotInv(w) && Enabled(w, ClaimNext(p))
    ensures RowsAdvance(w, ApplyClaim(w, p))
  {
    WinningClaim(w, p);
    var snap := w.processes[p].queue[0];
    var w' := ApplyClaim(w, p);
    if w'.claims != w.claims {
      OneRowChanged(w, w', snap.id);
    } else {
      RowsUntouched(w, w');
    }
  }

  /** Neither write-back moves a slot except by clearing it. */
  lemma OutcomeAdvances(w: World, w': World, id: int, row: Row)
    requires RowsClean(w) && id in w.rows && w'.rows == w.rows[id := row]
    requires w.clock == w'.clock && w'.used == w.used
    requires row.SameCadence(w.rows[id]) && (row.next == w.rows[id].next || row.next.None?)
    ensures RowsAdvance(w, w')
  {
    assert w.used == w.used + {id};
    OneRowChanged(w, w', id);
  }

  lemma EditAdvances(w: World, u: int)
    requires RowsClean(w) && Enabled(w, EditWrite(u)) && KeepsSlots(w, EditWrite(u))
    ensures RowsAdvance(w, Apply(w, EditWrite(u)))
  {
    var e := w.edits[u];
    var w' := Apply(w, EditWrite(u));
    if e.id in w.rows {
      assert RowMoves(w, w', e.id);
      OneRowChanged(w, w', e.id);
    } else {
      RowsUntouched(w, w');
    }
  }

  lemma RetireAdvances(w: World, p: int, written: bool)
    requires RowsClean(w) && Enabled(w, Retire(p, written))
    ensures RowsAdvance(w, Apply(w, Retire(p, written)))
  {
    var w' := Apply(w, Retire(p, written));
    var snap := w.processes[p].retiring.value;
    if written && snap.id in w.rows {
      OutcomeAdvances(w, w', snap.id, Retired(w.rows[snap.id], snap.row));
    } else {
      RowsUntouched(w, w');
    }
  }

  lemma WriteBackAdvances(w: World, p: int, slot: Slot, written: bool)
    requires RowsClean(w) && Enabled(w, WriteBack(p, slot, written))
    ensures RowsAdvance(w, Apply(w, WriteBack(p, slot, written)))
  {
    var w' := Apply(w, WriteBack(p, slot, written));
    var run := w.processes[p].runs[slot];
    if written && slot.id in w.rows {
      OutcomeAdvances(w, w', slot.id, WrittenBack(w.rows[slot.id], run.row.failures, run.status, w.maxFailures));
    } else {
      RowsUntouched(w, w');
    }
  }

  lemma CreateAdvances(w: World, step: Step)
    requires RowsClean(w) && step.Create? && Enabled(w, step) && KeepsSlots(w, step)
    ensures RowsAdvance(w, Apply(w, step))
  {
    OneRowChanged(w, Apply(w, step), step.id);
  }

  lemma RowsKept(w: World, step: Step)
    requires SlotInv(w) && Enabled(w, step) && KeepsSlots(w, step)
    ensures RowsAdvance(w, Apply(w, step))
  {
    match step
    case ClaimNext(p) => ClaimAdvances(w, p);
    case Retire(p, written) => RetireAdvances(w, p, written);
    case WriteBack(p, slot, written) => WriteBackAdvances(w, p, slot, written);
    case EditWrite(u) => EditAdvances(w, u);
    case Create(_, _, _, _, _) => CreateAdvances(w, step);
    case _ =>
  }

  // ── The claim history ──────────────────────────────────────────────

  lemma ClaimsFramed(w: World, w': World)
    requires ClaimsOk(w) && RowsAdvance(w, w') && w'.claims == w.claims
    ensures ClaimsOk(w')
  {
    forall i | 0 <= i < |w.claims| ensures SlotAhead(w', w.claims[i]) {
      assert SlotAhead(w, w.claims[i]);
      assert RowMoves(w, w', w.claims[i].slot.id);
    }
  }

  lemma ClaimAppended(w: World, w': World, claim: Claim)
    requires ClaimsOk(w) && RowsAdvance(w, w') && w'.claims == w.claims + [claim]
    requires claim.slot.id in w.rows && w.rows[claim.slot.id].next == Some(claim.slot.at)
    requires claim.slot.id in w'.used && claim.slot.at <= claim.moment <= w'.clock
    requires SlotAhead(w', claim)
    ensures ClaimsOk(w')
  {
    forall i | 0 <= i < |w.claims| ensures
      && SlotAhead(w', w.claims[i])
      && (w.claims[i].slot.id == claim.slot.id ==> w.claims[i].moment < claim.slot.at)
    {
      assert SlotAhead(w, w.claims[i]);
      assert RowMoves(w, w', w.claims[i].slot.id);
    }
  }

  lemma ClaimExtends(w: World, p: int)
    requires SlotInv(w) && Enabled(w, ClaimNext(p))
    ensures ClaimsOk(ApplyClaim(w, p))
  {
    WinningClaim(w, p);
    ClaimAdvances(w, p);
    var snap := w.processes[p].queue[0];
    var w' := ApplyClaim(w, p);
    if w'.claims == w.claims {
      ClaimsFramed(w, w');
    } else {
      ClaimAppended(w, w', Claim(snap.Key(), w.processes[p].moment.value));
    }
  }

  // ── Processes ──────────────────────────────────────────────────────

  /** A process's queue only shrinks, apart from listing, and its runs only finish,
      apart from claiming. */
  ghost predicate ProcessShrinks(was: Process, now: Process) {
    && (forall snap :: snap in now.queue ==> snap in was.queue && now.moment == was.moment)
    && (forall slot :: slot in now.runs ==> slot in was.runs && now.runs[slot] == was.runs[slot])
  }

  ghost predicate ProcessesShrink(w: World, w': World) {
    && w'.processes.Keys == w.processes.Keys
    && w'.claims == w.claims && w'.sent == w.sent
    && MomentsOk(w')
    && forall p :: p in w.processes ==> ProcessShrinks(w.processes[p], w'.processes[p])
  }

  lemma OneProcessShrinks(w: World, w': World, p: int, now: Process)
    requires MomentsOk(w) && p in w.processes && w'.processes == w.processes[p := now]
    requires w.clock <= w'.clock && w'.claims == w.claims && w'.sent == w.sent
    requires ProcessShrinks(w.processes[p], now)
    requires now.moment.Some? ==> now.moment.value <= w.clock
    ensures ProcessesShrink(w, w')
  {
    assert now.queue != [] ==> now.queue[0] in now.queue;
  }

  lemma SameProcessesShrink(w: World, w': World)
    requires MomentsOk(w) && w'.processes == w.processes
    requires w.clock <= w'.clock && w'.claims == w.claims && w'.sent == w.sent
    ensures ProcessesShrink(w, w')
  {
  }

  lemma Shrinking(w: World, step: Step)
    requires MomentsOk(w) && Enabled(w, step) && !step.ListDue? && !step.ClaimNext? && !step.Execute?
    ensures ProcessesShrink(w, Apply(w, step))
  {
    var w' := Apply(w, step);
    match step
    case BeginTick(p) => OneProcessShrinks(w, w', p, w'.processes[p]);
    case ClaimError(p) => OneProcessShrinks(w, w', p, w'.processes[p]);
    case Retire(p, _) => OneProcessShrinks(w, w', p, w'.processes[p]);
    case WriteBack(p, _, _) => OneProcessShrinks(w, w', p, w'.processes[p]);
    case EndTick(p) => OneProcessShrinks(w, w', p, w'.processes[p]);
    case Crash(p) => OneProcessShrinks(w, w', p, w'.processes[p]);
    case _ => SameProcessesShrink(w, w');
  }

  lemma QueuesFramed(w: World, w': World)
    requires QueuesClean(w) && w.used <= w'.used && MomentsOk(w')
    requires forall p, snap :: Queued(w', p, snap) ==>
      Queued(w, p, snap) && w'.processes[p].moment == w.processes[p].moment
    ensures QueuesClean(w')
  {
    forall p, snap | Queued(w', p, snap)
      ensures SnapshotClean(w', w'.processes[p].moment.GetOr(0), snap)
    {
      assert Queued(w, p, snap);
    }
  }

  lemma QueueListed(w: World, p: int, due: seq<Snapshot>)
    requires SlotInv(w) && Enabled(w, ListDue(p, due))
    ensures QueuesClean(Apply(w, ListDue(p, due)))
  {
    var w' := Apply(w, ListDue(p, due));
    forall q, snap | Queued(w', q, snap)
      ensures SnapshotClean(w', w'.processes[q].moment.GetOr(0), snap)
    {
      if q != p {
        assert Queued(w, q, snap);
      }
    }
  }

  lemma QueuesShrunk(w: World, w': World)
    requires QueuesClean(w) && w.used <= w'.used && ProcessesShrink(w, w')
    ensures QueuesClean(w')
  {
    forall p, snap | Queued(w', p, snap)
      ensures Queued(w, p, snap) && w'.processes[p].moment == w.processes[p].moment
    {
      assert ProcessShrinks(w.processes[p], w'.processes[p]);
    }
    QueuesFramed(w, w');
  }

  // ── Runs and mails ─────────────────────────────────────────────────

  lemma RunsFramed(w: World, w': World)
    requires RunsOk(w) && SentOk(w) && w'.claims == w.claims && w'.sent == w.sent
    requires forall p, slot :: Holds(w', p, slot) ==>
      Holds(w, p, slot) && w'.processes[p].runs[slot] == w.processes[p].runs[slot]
    ensures RunsOk(w') && SentOk(w')
  {
  }

  lemma RunsShrunk(w: World, w': World)
    requires RunsOk(w) && SentOk(w) && ProcessesShrink(w, w')
    ensures RunsOk(w') && SentOk(w')
  {
    forall p, slot | Holds(w', p, slot)
      ensures Holds(w, p, slot) && w'.processes[p].runs[slot] == w.processes[p].runs[slot]
    {
      assert ProcessShrinks(w.processes[p], w'.processes[p]);
    }
    RunsFramed(w, w');
  }

  lemma ClaimHistoryGrows(claims: seq<Claim>, claim: Claim)
    ensures forall slot :: ClaimedBefore(claims + [claim], slot) <==> ClaimedBefore(claims, slot) || slot == claim.slot
  {
    forall slot ensures ClaimedBefore(claims + [claim], slot) <==> ClaimedBefore(claims, slot) || slot == claim.slot {
      assert (claims + [claim])[|claims|] == claim;
      forall i | 0 <= i < |claims| ensures (claims + [claim])[i] == claims[i] {
      }
    }
  }

  lemma RunAdded(w: World, w': World, p: int, slot: Slot, row: Row)
    requires RunsOk(w) && SentOk(w) && !ClaimedBefore(w.claims, slot)
    requires forall s :: ClaimedBefore(w'.claims, s) <==> ClaimedBefore(w.claims, s) || s == slot
    requires w'.sent == w.sent && w'.processes.Keys == w.processes.Keys && p in w.processes
    requires forall q :: q in w.processes && q != p ==> w'.processes[q] == w.processes[q]
    requires
      || w'.processes[p].runs == w.processes[p].runs
      || w'.processes[p].runs == w.processes[p].runs[slot := Pending(row)]
    ensures RunsOk(w') && SentOk(w')
  {
    assert slot !in w.sent by {
      forall i | 0 <= i < |w.sent| ensures w.sent[i] != slot {
        assert ClaimedBefore(w.claims, w.sent[i]);
      }
    }
    forall q ensures !Holds(w, q, slot) {
    }
    forall q, s | Holds(w', q, s) ensures (q == p && s == slot) || Holds(w, q, s) {
    }
  }

  /** A slot that still stands in its row has not been claimed. */
  lemma StandingSlotUnclaimed(w: World, slot: Slot)
    requires ClaimsOk(w) && slot.id in w.rows && w.rows[slot.id].next == Some(slot.at)
    ensures !ClaimedBefore(w.claims, slot)
  {
    forall i | 0 <= i < |w.claims| ensures w.claims[i].slot != slot {
      assert SlotAhead(w, w.claims[i]);
    }
  }

  lemma RunClaimed(w: World, p: int)
    requires SlotInv(w) && Enabled(w, ClaimNext(p))
    ensures RunsOk(ApplyClaim(w, p)) && SentOk(ApplyClaim(w, p))
  {
    var q := w.processes[p];
    var snap := q.queue[0];
    var w' := ApplyClaim(w, p);
    if w'.claims == w.claims {
      RunsFramed(w, w');
    } else {
      StandingSlotUnclaimed(w, snap.Key());
      ClaimHistoryGrows(w.claims, Claim(snap.Key(), q.moment.value));
      RunAdded(w, w', p, snap.Key(), snap.row);
    }
  }

  lemma RunFinished(w: World, w': World, p: int, slot: Slot, status: Status)
    requires RunsOk(w) && SentOk(w) && w'.claims == w.claims
    requires Holds(w, p, slot) && w.processes[p].runs[slot].Pending?
    requires w'.processes.Keys == w.processes.Keys
    requires forall q :: q in w.processes && q != p ==> w'.processes[q] == w.processes[q]
    requires w'.processes[p].runs ==
      w.processes[p].runs[slot := RunState.Finished(w.processes[p].runs[slot].row, status)]
    requires w'.sent == w.sent || w'.sent == w.sent + [slot]
    ensures RunsOk(w') && SentOk(w')
  {
    forall q, s | Holds(w', q, s) ensures Holds(w, q, s) {
    }
    forall q, s | Holds(w', q, s) && w'.processes[q].runs[s].Pending?
      ensures s !in w'.sent
    {
      assert Holds(w, q, s);
      assert Holds(w, p, slot);
    }
  }

  // ── Every forward step keeps the invariant ─────────────────────────

  lemma ClaimKeepsSlots(w: World, p: int)
    requires SlotInv(w) && Enabled(w, ClaimNext(p))
    ensures SlotInv(ApplyClaim(w, p))
  {
    ClaimAdvances(w, p);
    ClaimExtends(w, p);
    QueuesFramed(w, ApplyClaim(w, p));
    RunClaimed(w, p);
  }

  lemma ListKeepsSlots(w: World, p: int, due: seq<Snapshot>)
    requires SlotInv(w) && Enabled(w, ListDue(p, due))
    ensures SlotInv(Apply(w, ListDue(p, due)))
  {
    var w' := Apply(w, ListDue(p, due));
    RowsUntouched(w, w');
    ClaimsFramed(w, w');
    QueueListed(w, p, due);
    RunsFramed(w, w');
  }

  lemma ExecuteKeepsSlots(w: World, p: int, slot: Slot, status: Status, delivered: bool)
    requires SlotInv(w) && Enabled(w, Execute(p, slot, status, delivered))
    ensures SlotInv(Apply(w, Execute(p, slot, status, delivered)))
  {
    var w' := Apply(w, Execute(p, slot, status, delivered));
    RowsUntouched(w, w');
    ClaimsFramed(w, w');
    QueuesFramed(w, w');
    assert Holds(w, p, slot);
    RunFinished(w, w', p, slot, status);
  }

  lemma QuietStepKeepsSlots(w: World, step: Step)
    requires SlotInv(w) && Enabled(w, step) && KeepsSlots(w, step)
    requires !step.ListDue? && !step.ClaimNext? && !step.Execute?
    ensures SlotInv(Apply(w, step))
  {
    var w' := Apply(w, step);
    RowsKept(w, step);
    Shrinking(w, step);
    ClaimsFramed(w, w');
    QueuesShrunk(w, w');
    RunsShrunk(w, w');
  }

  lemma SlotInvKept(w: World, step: Step)
    requires SlotInv(w) && Enabled(w, step) && KeepsSlots(w, step)
    ensures SlotInv(Apply(w, step))
  {
    match step
    case ClaimNext(p) => ClaimKeepsSlots(w, p);
    case ListDue(p, due) => ListKeepsSlots(w, p, due);
    case Execute(p, slot, status, delivered) => ExecuteKeepsSlots(w, p, slot, status, delivered);
    case _ => QuietStepKeepsSlots(w, step);
  }

  lemma {:induction false} SlotInvOfRun(w: World, steps: seq<Step>)
    requires SlotInv(w) && IsForwardRun(w, steps)
    ensures IsRun(w, steps) && SlotInv(After(w, steps))
    decreases |steps|
  {
    if steps != [] {
      SlotInvKept(w, steps[0]);
      SlotInvOfRun(Apply(w, steps[0]), steps[1..]);
    }
  }

  /** Over every interleaving, no occurrence is claimed twice and no report is mailed
      twice, nothing is mailed that was not claimed, and each claim of a schedule is for
      a slot past the clock reading of all its earlier claims. */
  lemma AtMostOnce(w: World, steps: seq<Step>)
    requires Init(w) && IsForwardRun(w, steps)
    ensures IsRun(w, steps)
    ensures var end := After(w, steps);
      && (forall i, j :: 0 <= i < j < |end.claims| ==> end.claims[i].slot != end.claims[j].slot)
      && (forall i, j :: 0 <= i < j < |end.claims| && end.claims[i].slot.id == end.claims[j].slot.id ==>
        end.claims[i].moment < end.claims[j].slot.at)
      && (forall i, j :: 0 <= i < j < |end.sent| ==> end.sent[i] != end.sent[j])
      && (forall i :: 0 <= i < |end.sent| ==> ClaimedBefore(end.claims, end.sent[i]))
  {
    SlotInvOfRun(w, steps);
  }
}
