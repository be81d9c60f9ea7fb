/** When a schedule has a run left, and what a retirement takes away. */
module SchedulerRetirement {
  import opened Wrappers
  import opened CronSchedule
  import opened CronWindow
  import opened ScheduleRows
  import opened SchedulerProtocol
  import opened SchedulerSlots
  import opened SchedulerSafety

  /** The schedule fires again in its window, later than any tick that has claimed it. */
  ghost predicate RunLeft(w: World, id: int)
    requires id in w.rows
  {
    exists t :: IsLeft(w, id, t)
  }

  ghost predicate IsLeft(w: World, id: int, t: int)
    requires id in w.rows
  {
    && w.rows[id].cron.FiresAt(t) && w.rows[id].window.Holds(t)
    && forall i :: 0 <= i < |w.claims| && w.claims[i].slot.id == id ==> w.claims[i].moment < t
  }

  /** The claim took the last run of this cadence. */
  ghost predicate TookLast(claim: Claim, row: Row) {
    row.cron.Valid() && NextRun(row.cron, claim.moment, row.window).None?
  }

  /** Some claim of the schedule took the last run of this cadence. */
  ghost predicate Spent(claims: seq<Claim>, id: int, row: Row) {
    exists i :: 0 <= i < |claims| && claims[i].slot.id == id && TookLast(claims[i], row)
  }

  /** An active row without a slot has been claimed for the last time. */
  ghost predicate RowSpent(w: World, id: int) {
    id in w.rows && w.rows[id].active && w.rows[id].next.None? ==> Spent(w.claims, id, w.rows[id])
  }

  /** A process is about to retire a schedule that can fire and whose last run, as the
      process read the schedule, has been claimed. */
  ghost predicate RetiringSpent(w: World, p: int) {
    p in w.processes && w.processes[p].retiring.Some? ==>
      var snap := w.processes[p].retiring.value; CleanRow(snap.row) && Satisfiable(snap.row.cron) && Spent(w.claims, snap.id, snap.row)
  }

  ghost predicate SpentOk(w: World) {
    (forall id :: RowSpent(w, id)) && (forall p :: RetiringSpent(w, p))
  }

  // ── The invariant is kept ──────────────────────────────────────────

  lemma SpentStays(less: seq<Claim>, more: seq<Claim>, id: int, was: Row, now: Row)
    requires less <= more && now.SameCadence(was) && Spent(less, id, was)
    ensures Spent(more, id, now)
  {
    var i :| 0 <= i < |less| && less[i].slot.id == id && TookLast(less[i], was);
    assert more[i] == less[i] && TookLast(more[i], now);
  }

  lemma ClaimKeepsRowsSpent(w: World, p: int, id: int)
    requires Inv(w) && RowSpent(w, id) && Enabled(w, ClaimNext(p))
    ensures RowSpent(ApplyClaim(w, p), id)
  {
    WinnerSeesCadence(w, p);
    var q, w' := w.processes[p], ApplyClaim(w, p);
    var snap := q.queue[0];
    if w'.claims == w.claims {
    } else if id == snap.id {
      var claim := Claim(snap.Key(), q.moment.value);
      assert w'.claims[|w.claims|] == claim;
      assert w'.rows[id].next.None? ==> TookLast(claim, w'.rows[id]);
    } else if id in w.rows && Spent(w.claims, id, w.rows[id]) {
      SpentStays(w.claims, w'.claims, id, w.rows[id], w'.rows[id]);
    }
  }

  lemma ClaimKeepsRetiringSpent(w: World, p: int, o: int)
    requires Inv(w) && RetiringSpent(w, o) && Enabled(w, ClaimNext(p))
    ensures RetiringSpent(ApplyClaim(w, p), o)
  {
    WinningClaim(w, p);
    WinnerSeesCadence(w, p);
    var q, w' := w.processes[p], ApplyClaim(w, p);
    var snap := q.queue[0];
    if w'.claims != w.claims && o == p {
      var claim := Claim(snap.Key(), q.moment.value);
      assert w'.claims[|w.claims|] == claim;
      assert w'.processes[p].retiring.Some? ==> TookLast(claim, snap.row);
    } else if o in w.processes && w.processes[o].retiring.Some? {
      var other := w.processes[o].retiring.value;
      SpentStays(w.claims, w'.claims, other.id, other.row, other.row);
    }
  }

  lemma ClaimKeepsSpent(w: World, p: int)
    requires Inv(w) && SpentOk(w) && Enabled(w, ClaimNext(p))
    ensures SpentOk(ApplyClaim(w, p))
  {
    forall id ensures RowSpent(ApplyClaim(w, p), id) {
      assert RowSpent(w, id);
      ClaimKeepsRowsSpent(w, p, id);
    }
    forall o ensures RetiringSpent(ApplyClaim(w, p), o) {
      assert RetiringSpent(w, o);
      ClaimKeepsRetiringSpent(w, p, o);
    }
  }

  /** A step that claims nothing keeps an active row without a slot as it is, or gives it
      a slot, or pauses it. */
  ghost predicate RowStaysSpent(w: World, w': World, id: int) {
    id in w'.rows && w'.rows[id].active && w'.rows[id].next.None? ==>
      id in w.rows && w.rows[id].active && w.rows[id].next.None? && w'.rows[id].SameCadence(w.rows[id])
  }

  lemma OtherStepsKeepRows(w: World, step: Step)
    requires Inv(w) && Enabled(w, step) && Careful(w, step) && !step.ClaimNext?
    ensures forall id :: RowStaysSpent(w, Apply(w, step), id)
  {
  }

  lemma OtherStepsKeepRetiring(w: World, step: Step)
    requires Enabled(w, step) && !step.ClaimNext?
    ensures forall p :: var w' := Apply(w, step);
      p in w'.processes && w'.processes[p].retiring.Some? ==>
        p in w.processes && w'.processes[p].retiring == w.processes[p].retiring
    ensures Apply(w, step).claims == w.claims
  {
  }

  lemma SpentKept(w: World, step: Step)
    requires Inv(w) && SpentOk(w) && Enabled(w, step) && Careful(w, step)
    ensures SpentOk(Apply(w, step))
  {
    if step.ClaimNext? {
      ClaimKeepsSpent(w, step.p);
    } else {
      var w' := Apply(w, step);
      OtherStepsKeepRows(w, step);
      OtherStepsKeepRetiring(w, step);
      forall id ensures RowSpent(w', id) {
        assert RowSpent(w, id) && RowStaysSpent(w, w', id);
        if id in w'.rows && w'.rows[id].active && w'.rows[id].next.None? {
          SpentStays(w.claims, w'.claims, id, w.rows[id], w'.rows[id]);
        }
      }
      forall p ensures RetiringSpent(w', p) {
        assert RetiringSpent(w, p);
      }
    }
  }

  lemma {:induction false} SpentOfRun(w: World, steps: seq<Step>)
    requires Inv(w) && SpentOk(w) && IsCarefulRun(w, steps)
    ensures IsRun(w, steps) && Inv(After(w, steps)) && SpentOk(After(w, steps))
    decreases |steps|
  {
    if steps != [] {
      InvKept(w, steps[0]);
      SpentKept(w, steps[0]);
      SpentOfRun(Apply(w, steps[0]), steps[1..]);
    }
  }

  // ── What it means ──────────────────────────────────────────────────

  lemma SlotIsLeft(w: World, id: int)
    requires Inv(w) && id in w.rows && w.rows[id].next.Some?
    ensures IsLeft(w, id, w.rows[id].next.value)
  {
    forall i | 0 <= i < |w.claims| && w.claims[i].slot.id == id
      ensures w.claims[i].moment < w.rows[id].next.value
    {
      assert SlotAhead(w, w.claims[i]);
    }
  }

  /** What a cadence's last claim took away, no later run can be. */
  lemma NothingLeftAfter(w: World, id: int, row: Row, t: int)
    requires id in w.rows && CleanRow(row) && Spent(w.claims, id, row) && w.rows[id].SameCadence(row)
    ensures !IsLeft(w, id, t)
  {
    var i :| 0 <= i < |w.claims| && w.claims[i].slot.id == id && TookLast(w.claims[i], row);
    NextRunAdvances(row.cron, w.claims[i].moment, row.window);
    assert !Eligible(row.cron, w.claims[i].moment, row.window, t);
  }

  /** In every reachable state an active schedule has a next slot exactly when it has a
      run left. */
  lemma SlotExactlyWhenLeft(w: World, steps: seq<Step>, id: int)
    requires Init(w) && IsCarefulRun(w, steps)
    ensures IsRun(w, steps)
    ensures var end := After(w, steps);
      id in end.rows && end.rows[id].active ==> (end.rows[id].next.Some? <==> RunLeft(end, id))
  {
    SpentOfRun(w, steps);
    var end := After(w, steps);
    if id in end.rows && end.rows[id].active {
      if end.rows[id].next.Some? {
        SlotIsLeft(end, id);
      } else {
        assert RowSpent(end, id);
        forall t ensures !IsLeft(end, id, t) {
          NothingLeftAfter(end, id, end.rows[id], t);
        }
      }
    }
  }

  lemma AlwaysLeft(w: World, id: int)
    requires Inv(w) && id in w.rows && w.rows[id].window.ends.None?
    ensures RunLeft(w, id)
  {
    var row := w.rows[id];
    var from := if row.window.starts.Some? then Max(w.clock, row.window.starts.value) else w.clock;
    assert NextAfter(row.cron, from).Some?;
    assert IsLeft(w, id, NextAfter(row.cron, from).value);
  }

  /** In every reachable state an active schedule without an end has a next slot. */
  lemma OpenEndedStaysScheduled(w: World, steps: seq<Step>, id: int)
    requires Init(w) && IsCarefulRun(w, steps)
    ensures IsRun(w, steps)
    ensures var end := After(w, steps);
      id in end.rows && end.rows[id].active && end.rows[id].window.ends.None? ==> end.rows[id].next.Some?
  {
    SpentOfRun(w, steps);
    SlotExactlyWhenLeft(w, steps, id);
    var end := After(w, steps);
    if id in end.rows && end.rows[id].window.ends.None? {
      AlwaysLeft(end, id);
    }
  }

  /** In every reachable state, the write that retires a schedule pauses it for good, and
      takes a run away exactly when the row has a slot again: then its cadence is no
      longer the one whose last run was claimed, so an edit has landed since the claim. */
  lemma RetirementExactly(w: World, steps: seq<Step>, p: int)
    requires Init(w) && IsCarefulRun(w, steps)
    ensures IsRun(w, steps)
    ensures var end := After(w, steps);
      Enabled(end, Retire(p, true)) && end.processes[p].retiring.value.id in end.rows ==>
        var snap := end.processes[p].retiring.value;
        var row, after := end.rows[snap.id], Apply(end, Retire(p, true)).rows[snap.id];
        && !after.active && after.next.None? && after.SameCadence(row)
        && (row.active ==> (row.next.Some? <==> RunLeft(end, snap.id)))
        && (row.next.Some? ==> !row.SameCadence(snap.row))
  {
    SpentOfRun(w, steps);
    var end := After(w, steps);
    if Enabled(end, Retire(p, true)) && end.processes[p].retiring.value.id in end.rows {
      var snap := end.processes[p].retiring.value;
      SlotExactlyWhenLeft(w, steps, snap.id);
      if end.rows[snap.id].next.Some? && end.rows[snap.id].SameCadence(snap.row) {
        assert RetiringSpent(end, p);
        SlotIsLeft(end, snap.id);
        NothingLeftAfter(end, snap.id, snap.row, end.rows[snap.id].next.value);
      }
    }
  }

  /** In every reachable state, a schedule is about to be retired only if it had an end
      when the tick read it; if it has none now, an edit has landed since. */
  lemma OnlyEndedRetire(w: World, steps: seq<Step>, p: int)
    requires Init(w) && IsCarefulRun(w, steps)
    ensures IsRun(w, steps)
    ensures var end := After(w, steps);
      p in end.processes && end.processes[p].retiring.Some? ==>
        var snap := end.processes[p].retiring.value;
        && snap.row.window.ends.Some?
        && (snap.id in end.rows && end.rows[snap.id].window.ends.None? ==> !end.rows[snap.id].SameCadence(snap.row))
  {
    SpentOfRun(w, steps);
    var end := After(w, steps);
    if p in end.processes && end.processes[p].retiring.Some? {
      assert RetiringSpent(end, p);
      var snap := end.processes[p].retiring.value;
      var i :| 0 <= i < |end.claims| && end.claims[i].slot.id == snap.id && TookLast(end.claims[i], snap.row);
      NeverIsIndependentOfNow(snap.row.cron, Cursor(end.claims[i].moment, snap.row.window), end.clock);
    }
  }

  // ── A retirement that comes late ───────────────────────────────────

  lemma CarefulCons(w: World, step: Step, rest: seq<Step>)
    requires Enabled(w, step) && Careful(w, step) && IsCarefulRun(Apply(w, step), rest)
    requires IsRun(Apply(w, step), rest)
    ensures IsCarefulRun(w, [step] + rest) && IsRun(w, [step] + rest)
    ensures After(w, [step] + rest) == After(Apply(w, step), rest)
  {
    assert ([step] + rest)[1..] == rest;
  }

  /** A process between claiming a schedule's last slot and retiring the schedule. */
  ghost predicate AboutToRetire(w: World, p: int, id: int) {
    id in w.rows && p in w.processes && w.processes[p].retiring.Some? && w.processes[p].retiring.value.id == id
  }

  /** An edit that nothing comes between. */
  lemma EditLands(w: World, u: int, id: int, patch: Patch)
    requires Enabled(w, EditRead(u, id, patch))
    requires var merged := patch.Onto(w.rows[id]); patch.Touches() && merged.active && CleanRow(merged)
    ensures var w1 := Apply(w, EditRead(u, id, patch));
      && Careful(w, EditRead(u, id, patch)) && Enabled(w1, EditWrite(u)) && Careful(w1, EditWrite(u))
      && var w2 := Apply(w1, EditWrite(u));
        && w2.processes == w.processes && w2.clock == w.clock && id in w2.rows
        && w2.rows[id].SameCadence(patch.Onto(w.rows[id])) && w2.rows[id].active
        && w2.rows[id].next == NextRun(w2.rows[id].cron, w.clock, w2.rows[id].window) && w2.rows[id].next.Some?
  {
    var merged := patch.Onto(w.rows[id]);
    NextRunAdvances(merged.cron, w.clock, merged.window);
  }

  lemma RetireLands(w: World, p: int, id: int)
    requires AboutToRetire(w, p, id)
    ensures Enabled(w, Retire(p, true)) && Careful(w, Retire(p, true))
    ensures var row := Apply(w, Retire(p, true)).rows[id]; !row.active && row.next.None? && row.SameCadence(w.rows[id])
  {
  }

  /** Between the claim and the retirement, every accepted cadence edit that leaves the
      schedule active is undone: the row takes the edit's cadence, which has a run left,
      and is paused. */
  lemma RetirementUndoesEdit(w: World, p: int, u: int, id: int, patch: Patch, steps: seq<Step>)
    requires AboutToRetire(w, p, id) && Enabled(w, EditRead(u, id, patch))
    requires var merged := patch.Onto(w.rows[id]); patch.Touches() && merged.active && CleanRow(merged)
    requires steps == [EditRead(u, id, patch)] + ([EditWrite(u)] + ([Retire(p, true)] + []))
    ensures IsCarefulRun(w, steps) && IsRun(w, steps) && id in After(w, steps).rows
    ensures var row := After(w, steps).rows[id];
      && !row.active && row.next.None? && row.SameCadence(patch.Onto(w.rows[id]))
      && NextRun(row.cron, w.clock, row.window).Some?
  {
    var read, write, retire := EditRead(u, id, patch), EditWrite(u), Retire(p, true);
    EditLands(w, u, id, patch);
    var w1 := Apply(w, read);
    var w2 := Apply(w1, write);
    RetireLands(w2, p, id);
    CarefulCons(w2, retire, []);
    CarefulCons(w1, write, [retire] + []);
    CarefulCons(w, read, [write] + ([retire] + []));
  }

  function OneIdleProcess(clock: int, maxFailures: nat, grace: nat): World {
    World(maxFailures, grace, clock, map[], {}, map[1 := IDLE], map[], [], [])
  }

  ghost function LastSlotRow(cron: Schedule, now: int): Row
    requires cron.Valid() && Satisfiable(cron)
  {
    Created(cron, Window(None, Some(NextAfter(cron, now).value)), true, now)
  }

  /** One pass over a row that is due for the last time. */
  lemma LastSlotClaimed(w: World, cron: Schedule, now: int, id: int) returns (steps: seq<Step>)
    requires cron.Valid() && Satisfiable(cron)
    requires w.processes == map[1 := IDLE] && w.rows == map[id := LastSlotRow(cron, now)]
    requires w.clock == NextAfter(cron, now).value
    ensures IsCarefulRun(w, steps) && IsRun(w, steps)
    ensures AboutToRetire(After(w, steps), 1, id) && After(w, steps).rows[id].cron == cron
  {
    var snap := Snapshot(id, LastSlotRow(cron, now));
    assert snap.row.next == Some(w.clock) && NextRun(cron, w.clock, snap.row.window).None?;
    var begin, list, claim := BeginTick(1), ListDue(1, [snap]), ClaimNext(1);
    var w1 := Apply(w, begin);
    var w2 := Apply(w1, list);
    CarefulCons(w2, claim, []);
    CarefulCons(w1, list, [claim] + []);
    CarefulCons(w, begin, [list] + ([claim] + []));
    steps := [begin] + ([list] + ([claim] + []));
  }

  /** That state is reached from the start, without carelessness, for every schedule. */
  lemma AboutToRetireIsReached(cron: Schedule, now: int, maxFailures: nat, grace: nat, id: int)
    returns (w: World, steps: seq<Step>)
    requires cron.Valid() && Satisfiable(cron) && maxFailures >= 1
    ensures Init(w) && IsCarefulRun(w, steps) && IsRun(w, steps)
    ensures AboutToRetire(After(w, steps), 1, id) && After(w, steps).rows[id].cron == cron
  {
    w := OneIdleProcess(now, maxFailures, grace);
    var n := NextAfter(cron, now).value;
    var create, wait := Create(id, cron, Window(None, Some(n)), true, now), Wait(n - now);
    var w1 := Apply(w, create);
    var w2 := Apply(w1, wait);
    var rest := LastSlotClaimed(w2, cron, now, id);
    CarefulCons(w1, wait, rest);
    CarefulCons(w, create, [wait] + rest);
    steps := [create] + ([wait] + rest);
  }
}
