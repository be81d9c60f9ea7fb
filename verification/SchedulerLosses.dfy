/** What is lost for good: an occurrence whose process crashed before running it, one that was
    skipped for being too old, and a deleted schedule. */
module SchedulerLosses {
  import opened Wrappers
  import opened CronWindow
  import opened ScheduleRows
  import opened SchedulerProtocol
  import opened SchedulerSlots

  /** An occurrence that was claimed, is in no process's hands and has not been mailed. */
  ghost predicate Lost(w: World, slot: Slot) {
    ClaimedBefore(w.claims, slot) && slot !in w.sent && forall p :: !Holds(w, p, slot)
  }

  /** Claims are for distinct occurrences, so a new claim is not for a lost one. */
  lemma NewClaimIsNew(w: World, p: int, slot: Slot)
    requires SlotInv(w) && Enabled(w, ClaimNext(p)) && ClaimedBefore(w.claims, slot)
    ensures ApplyClaim(w, p).claims != w.claims ==> w.processes[p].queue[0].Key() != slot
  {
    var w' := ApplyClaim(w, p);
    if w'.claims != w.claims {
      ClaimKeepsSlots(w, p);
      var i :| 0 <= i < |w.claims| && w.claims[i].slot == slot;
      assert w'.claims[i] == w.claims[i];
      assert w'.claims[i].slot.at <= w'.claims[i].moment;
    }
  }

  lemma LostAfterClaim(w: World, p: int, slot: Slot)
    requires SlotInv(w) && Enabled(w, ClaimNext(p)) && Lost(w, slot)
    ensures Lost(ApplyClaim(w, p), slot)
  {
    var w' := ApplyClaim(w, p);
    NewClaimIsNew(w, p, slot);
    var i :| 0 <= i < |w.claims| && w.claims[i].slot == slot;
    assert w'.claims[i].slot == slot;
    forall o ensures !Holds(w', o, slot) {
      assert !Holds(w, o, slot);
    }
  }

  lemma LostAfterOther(w: World, step: Step, slot: Slot)
    requires Enabled(w, step) && !step.ClaimNext? && Lost(w, slot)
    ensures Lost(Apply(w, step), slot)
  {
    var w' := Apply(w, step);
    forall o ensures !Holds(w', o, slot) {
      assert !Holds(w, o, slot);
    }
    assert step.Execute? ==> !Holds(w, step.p, slot);
  }

  /** What is lost is never mailed, over every further interleaving. */
  lemma {:induction false} LostForGood(w: World, steps: seq<Step>, slot: Slot)
    requires SlotInv(w) && IsForwardRun(w, steps) && Lost(w, slot)
    ensures IsRun(w, steps) && slot !in After(w, steps).sent
    decreases |steps|
  {
    if steps != [] {
      SlotInvKept(w, steps[0]);
      if steps[0].ClaimNext? {
        LostAfterClaim(w, steps[0].p, slot);
      } else {
        LostAfterOther(w, steps[0], slot);
      }
      LostForGood(Apply(w, steps[0]), steps[1..], slot);
    }
  }

  /** A crash loses the runs its process had not made: in no interleaving are they mailed. */
  lemma CrashLosesRuns(w: World, steps: seq<Step>, p: int, slot: Slot, later: seq<Step>)
    requires Init(w) && IsForwardRun(w, steps) && IsRun(w, steps)
    requires var end := After(w, steps); Holds(end, p, slot) && end.processes[p].runs[slot].Pending?
    requires IsForwardRun(Apply(After(w, steps), Crash(p)), later)
    ensures IsRun(Apply(After(w, steps), Crash(p)), later)
    ensures slot !in After(Apply(After(w, steps), Crash(p)), later).sent
  {
    var end := After(w, steps);
    SlotInvOfRun(w, steps);
    SlotInvKept(end, Crash(p));
    var crashed := Apply(end, Crash(p));
    forall o ensures !Holds(crashed, o, slot) {
      assert Holds(end, p, slot);
      assert Holds(end, o, slot) ==> o == p;
    }
    LostForGood(crashed, later, slot);
  }

  /** The claim won an occurrence older than the grace period. */
  ghost predicate Misfires(w: World, p: int) {
    && Enabled(w, ClaimNext(p)) && ApplyClaim(w, p).claims != w.claims
    && w.processes[p].moment.value - w.processes[p].queue[0].row.next.value > w.grace
  }

  lemma MisfireIsLost(w: World, p: int)
    requires SlotInv(w) && Misfires(w, p)
    ensures Lost(ApplyClaim(w, p), w.processes[p].queue[0].Key())
  {
    var slot, claimed := w.processes[p].queue[0].Key(), ApplyClaim(w, p);
    assert claimed.claims[|w.claims|].slot == slot;
    if ClaimedBefore(w.claims, slot) {
      NewClaimIsNew(w, p, slot);
    }
    assert slot !in w.sent && claimed.sent == w.sent;
    forall o ensures !Holds(claimed, o, slot) {
      assert !Holds(w, o, slot);
    }
  }

  /** An occurrence claimed when it was older than the grace period is never mailed. */
  lemma MisfireIsNeverMailed(w: World, steps: seq<Step>, p: int, later: seq<Step>)
    requires Init(w) && IsForwardRun(w, steps) && IsRun(w, steps) && Misfires(After(w, steps), p)
    requires IsForwardRun(ApplyClaim(After(w, steps), p), later)
    ensures IsRun(ApplyClaim(After(w, steps), p), later)
    ensures After(w, steps).processes[p].queue[0].Key() !in After(ApplyClaim(After(w, steps), p), later).sent
  {
    var end := After(w, steps);
    SlotInvOfRun(w, steps);
    SlotInvKept(end, ClaimNext(p));
    MisfireIsLost(end, p);
    LostForGood(ApplyClaim(end, p), later, end.processes[p].queue[0].Key());
  }

  // ── Deleted schedules ──────────────────────────────────────────────

  /** No claim from this place on is for the schedule. */
  ghost predicate UnclaimedFrom(claims: seq<Claim>, n: nat, id: int) {
    forall i :: n <= i < |claims| ==> claims[i].slot.id != id
  }

  lemma AbsentStaysAbsent(w: World, step: Step, id: int)
    requires Enabled(w, step) && id in w.used && id !in w.rows
    ensures id in Apply(w, step).used && id !in Apply(w, step).rows
    ensures |w.claims| <= |Apply(w, step).claims| && UnclaimedFrom(Apply(w, step).claims, |w.claims|, id)
  {
  }

  lemma {:induction false} AbsentForGood(w: World, steps: seq<Step>, n: nat, id: int)
    requires IsRun(w, steps) && id in w.used && id !in w.rows && n <= |w.claims| && UnclaimedFrom(w.claims, n, id)
    ensures id !in After(w, steps).rows && UnclaimedFrom(After(w, steps).claims, n, id)
    decreases |steps|
  {
    if steps != [] {
      AbsentStaysAbsent(w, steps[0], id);
      ClaimsGrow(w, steps[0]);
      AbsentForGood(Apply(w, steps[0]), steps[1..], n, id);
    }
  }

  lemma ClaimsGrow(w: World, step: Step)
    requires Enabled(w, step)
    ensures w.claims <= Apply(w, step).claims
  {
  }

  lemma {:induction false} RowsAreUsed(w: World, steps: seq<Step>)
    requires IsRun(w, steps) && w.rows.Keys <= w.used
    ensures After(w, steps).rows.Keys <= After(w, steps).used
    decreases |steps|
  {
    if steps != [] {
      RowsAreUsed(Apply(w, steps[0]), steps[1..]);
    }
  }

  /** A deleted schedule does not come back and is never claimed again, in any run at all. */
  lemma DeletedForGood(w: World, steps: seq<Step>, id: int, later: seq<Step>)
    requires Init(w) && IsRun(w, steps) && Enabled(After(w, steps), Delete(id))
    requires IsRun(Apply(After(w, steps), Delete(id)), later)
    ensures var end := After(Apply(After(w, steps), Delete(id)), later);
      id !in end.rows && UnclaimedFrom(end.claims, |After(w, steps).claims|, id)
  {
    RowsAreUsed(w, steps);
    assert id in After(w, steps).rows.Keys;
    AbsentForGood(Apply(After(w, steps), Delete(id)), later, |After(w, steps).claims|, id);
  }
}
