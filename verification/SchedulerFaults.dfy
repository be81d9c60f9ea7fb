/** Why the care conditions are needed: runs of the same protocol in which one
    occurrence is claimed, and its report mailed, twice, or a row's slot is not its own. */
module SchedulerFaults {
  import opened Wrappers
  import opened CronSchedule
  import opened CronWindow
  import opened ScheduleRows
  import opened SchedulerProtocol
  import opened SchedulerSlots
  import opened SchedulerSafety

  lemma {:induction false} RunAppend(w: World, a: seq<Step>, b: seq<Step>)
    requires IsRun(w, a) && IsRun(After(w, a), b)
    ensures IsRun(w, a + b) && After(w, a + b) == After(After(w, a), b)
    decreases |a|
  {
    if a == [] {
      assert a + b == b;
    } else {
      RunAppend(Apply(w, a[0]), a[1..], b);
      assert (a + b)[1..] == a[1..] + b;
    }
  }

  lemma OneStep(w: World, step: Step)
    requires Enabled(w, step)
    ensures IsRun(w, [step]) && After(w, [step]) == Apply(w, step)
  {
    assert [step][1..] == [];
    assert After(Apply(w, step), []) == Apply(w, step);
  }

  /** Every schedule in the run is created with this cadence, and none is edited. */
  ghost predicate OnlyCadence(steps: seq<Step>, cron: Schedule, window: Window) {
    forall step :: step in steps ==> !step.EditWrite? && (step.Create? ==> step.cron == cron && step.window == window)
  }

  /** A full pass of an idle process over one due row: it claims the slot, queues its
      run, mails the report, and leaves the row at the next run it computed. */
  lemma TickMails(w: World, p: int, id: int) returns (steps: seq<Step>)
    requires p in w.processes && w.processes[p] == IDLE && id in w.rows
    requires var row := w.rows[id];
      && row.cron.Valid() && row.Due(w.clock) && w.clock - row.next.value <= w.grace
      && NextRun(row.cron, w.clock, row.window).Some?
    ensures IsRun(w, steps) && forall step :: step in steps ==> !step.EditWrite? && !step.Create?
    ensures var end := After(w, steps); var slot := Slot(id, w.rows[id].next.value);
      && end.claims == w.claims + [Claim(slot, w.clock)]
      && end.sent == w.sent + [slot]
      && end.rows == w.rows[id := w.rows[id].Claimed(NextRun(w.rows[id].cron, w.clock, w.rows[id].window), w.clock)]
      && end.clock == w.clock && end.grace == w.grace && end.edits == w.edits
      && (forall q :: q in w.processes && q != p ==> q in end.processes && end.processes[q] == w.processes[q])
  {
    var snap := Snapshot(id, w.rows[id]);
    var begin, list, claim := BeginTick(p), ListDue(p, [snap]), ClaimNext(p);
    var execute := Execute(p, snap.Key(), Success, true);
    var w1 := Apply(w, begin);
    var w2 := Apply(w1, list);
    assert w2.processes[p].queue[1..] == [];
    var w3 := Apply(w2, claim);
    OneStep(w, begin);
    OneStep(w1, list);
    OneStep(w2, claim);
    OneStep(w3, execute);
    RunAppend(w, [begin], [list]);
    RunAppend(w, [begin] + [list], [claim]);
    RunAppend(w, [begin] + [list] + [claim], [execute]);
    steps := [begin] + [list] + [claim] + [execute];
  }

  function TwoIdleProcesses(clock: int, maxFailures: nat, grace: nat): World {
    World(maxFailures, grace, clock, map[], {}, map[1 := IDLE, 2 := IDLE], map[], [], [])
  }

  /** Two claims of one occurrence and two mails of its report. */
  ghost predicate SentTwice(w: World) {
    && |w.claims| == 2 && w.claims[0].slot == w.claims[1].slot
    && |w.sent| == 2 && w.sent[0] == w.sent[1]
  }

  /** For every schedule whose start is not clean but before its end there is a run, without any edit, that
      claims and mails one occurrence twice: claiming leaves the slot where it was,
      because the step back from starts_at returns it again. */
  lemma UncleanStartSendsTwice(cron: Schedule, window: Window, maxFailures: nat, grace: nat)
    returns (w: World, steps: seq<Step>)
    requires cron.Valid() && Satisfiable(cron) && maxFailures >= 1
    requires !CleanStart(cron, window) && window.Ordered()
    ensures Init(w) && IsRun(w, steps) && OnlyCadence(steps, cron, window) && SentTwice(After(w, steps))
  {
    var f := WholeMinute(window.starts.value);
    OnlyTheStartMinute(window.starts.value, f);
    StartMinuteReturned(cron, f, window);
    w := TwoIdleProcesses(f, maxFailures, grace);
    var create := Create(1, cron, window, true, f);
    var w1 := Apply(w, create);
    OneStep(w, create);
    var first := TickMails(w1, 1, 1);
    var w2 := After(w1, first);
    var second := TickMails(w2, 2, 1);
    RunAppend(w1, first, second);
    RunAppend(w, [create], first + second);
    steps := [create] + (first + second);
  }

  ghost predicate MailsTwice(w: World) {
    exists i, j :: 0 <= i < j < |w.sent| && w.sent[i] == w.sent[j]
  }

  ghost predicate CanMailTwice(cron: Schedule, window: Window, w: World, steps: seq<Step>) {
    Init(w) && IsRun(w, steps) && OnlyCadence(steps, cron, window) && MailsTwice(After(w, steps))
  }

  lemma {:induction false} OnlyCadenceGoesForward(w: World, steps: seq<Step>, cron: Schedule, window: Window)
    requires IsRun(w, steps) && OnlyCadence(steps, cron, window) && (CleanStart(cron, window) || !window.Ordered())
    ensures IsForwardRun(w, steps)
    decreases |steps|
  {
    if steps != [] {
      assert steps[0] in steps;
      OnlyCadenceGoesForward(Apply(w, steps[0]), steps[1..], cron, window);
    }
  }

  lemma NeverMailsTwice(cron: Schedule, window: Window, w: World, steps: seq<Step>)
    requires CleanStart(cron, window) || !window.Ordered()
    ensures !CanMailTwice(cron, window, w, steps)
  {
    if Init(w) && IsRun(w, steps) && OnlyCadence(steps, cron, window) {
      OnlyCadenceGoesForward(w, steps, cron, window);
      AtMostOnce(w, steps);
      assert !MailsTwice(After(w, steps));
    }
  }

  /** Without edits, schedules of one cadence can mail an occurrence twice, in some
      interleaving of some number of processes, if and only if its start is not clean and,
      when it has an end, before that end. */
  lemma MailsTwiceExactly(cron: Schedule, window: Window)
    requires cron.Valid() && Satisfiable(cron)
    ensures (exists w, steps :: CanMailTwice(cron, window, w, steps)) <==> !CleanStart(cron, window) && window.Ordered()
  {
    if CleanStart(cron, window) || !window.Ordered() {
      forall w, steps ensures !CanMailTwice(cron, window, w, steps) {
        NeverMailsTwice(cron, window, w, steps);
      }
    } else {
      var w, steps := UncleanStartSendsTwice(cron, window, 1, 0);
      assert MailsTwice(After(w, steps));
      assert CanMailTwice(cron, window, w, steps);
    }
  }

  const OPEN := Window(None, None)
  const RESUME := Patch(None, None, None, Some(true))

  /** The start of the bad interleaving: an edit has read the row, and the clock has
      then moved on to the row's slot. */
  lemma EditLeftPending(cron: Schedule, clock: int, maxFailures: nat, grace: nat) returns (w: World, steps: seq<Step>)
    requires cron.Valid() && Satisfiable(cron) && maxFailures >= 1
    ensures Init(w) && IsRun(w, steps)
    ensures var end := After(w, steps); var row := Created(cron, OPEN, true, clock);
      && row.next == NextAfter(cron, clock)
      && end == TwoIdleProcesses(row.next.value, maxFailures, grace).(
        rows := map[1 := row], used := {1}, edits := map[7 := Edit(1, row, RESUME, clock)])
  {
    var n := NextAfter(cron, clock).value;
    w := TwoIdleProcesses(clock, maxFailures, grace);
    var create, read, wait := Create(1, cron, OPEN, true, clock), EditRead(7, 1, RESUME), Wait(n - clock);
    var w1 := Apply(w, create);
    var w2 := Apply(w1, read);
    OneStep(w, create);
    OneStep(w1, read);
    OneStep(w2, wait);
    RunAppend(w, [create], [read]);
    RunAppend(w, [create] + [read], [wait]);
    steps := [create] + [read] + [wait];
  }

  /** For every schedule at all, an edit that reads before its slot is claimed and
      writes after it puts the claimed slot back, and it is mailed again. */
  lemma DisturbedEditSendsTwice(cron: Schedule, clock: int, maxFailures: nat, grace: nat)
    returns (w: World, steps: seq<Step>)
    requires cron.Valid() && Satisfiable(cron) && maxFailures >= 1
    ensures Init(w) && IsRun(w, steps) && SentTwice(After(w, steps))
  {
    var start;
    w, start := EditLeftPending(cron, clock, maxFailures, grace);
    var w1 := After(w, start);
    var first := TickMails(w1, 1, 1);
    var w2 := After(w1, first);
    OneStep(w2, EditWrite(7));
    var w3 := Apply(w2, EditWrite(7));
    var second := TickMails(w3, 2, 1);
    RunAppend(w2, [EditWrite(7)], second);
    RunAppend(w1, first, [EditWrite(7)] + second);
    RunAppend(w, start, first + ([EditWrite(7)] + second));
    steps := start + (first + ([EditWrite(7)] + second));
  }

  /** An edit whose write directly follows its read, and which gives a clean start, is
      careful. */
  lemma AtomicEditIsCareful(w: World, u: int, id: int, patch: Patch)
    requires Enabled(w, EditRead(u, id, patch)) && CleanRow(patch.Onto(w.rows[id]))
    ensures var w1 := Apply(w, EditRead(u, id, patch));
      Enabled(w1, EditWrite(u)) && Careful(w1, EditWrite(u))
  {
    var merged := patch.Onto(w.rows[id]);
    NextRunAdvances(merged.cron, w.clock, merged.window);
  }

  /** An edit that is accepted at one clock reading would have been at any earlier one, so
      EditRead, which asks for acceptance when the row is read, bars no edit. */
  lemma AcceptedEarlier(e: Edit, earlier: int)
    requires e.Accepted() && earlier <= e.now
    ensures e.At(earlier).Accepted()
  {
    var merged := e.patch.Onto(e.read);
    if e.patch.Touches() && merged.active {
      NextAfterMonotone(merged.cron, Cursor(earlier, merged.window), Cursor(e.now, merged.window));
    }
  }

  /** An edit that is written right after its next run was computed puts its slot ahead,
      however long ago it read the row, if what it writes has a clean start. */
  lemma ComputedEditIsAhead(w: World, u: int)
    requires Enabled(w, EditCompute(u))
    requires var e := w.edits[u]; CleanRow(e.patch.Onto(e.read)) && (e.id in w.rows ==> CleanRow(e.patch.Onto(w.rows[e.id])))
    ensures var computed := Apply(w, EditCompute(u));
      computed.rows == w.rows && Enabled(computed, EditWrite(u)) && KeepsSlots(computed, EditWrite(u))
  {
    var e := w.edits[u].At(w.clock);
    var merged := e.patch.Onto(e.read);
    NextRunAdvances(merged.cron, w.clock, merged.window);
  }

  // ── Two edits at once ──────────────────────────────────────────────

  lemma ForwardCons(w: World, step: Step, rest: seq<Step>)
    requires Enabled(w, step) && KeepsSlots(w, step) && IsForwardRun(Apply(w, step), rest) && IsRun(Apply(w, step), rest)
    ensures IsForwardRun(w, [step] + rest) && IsRun(w, [step] + rest)
    ensures After(w, [step] + rest) == After(Apply(w, step), rest)
  {
    assert ([step] + rest)[1..] == rest;
  }

  /** Two users read a fresh schedule; each then writes, the first before the second. */
  function Crossing(cron: Schedule, now: int, first: Patch, second: Patch): seq<Step> {
    [Create(1, cron, OPEN, true, now)] + ([EditRead(7, 1, first)] + ([EditRead(8, 1, second)]
      + ([EditWrite(7)] + ([EditWrite(8)] + []))))
  }

  /** An edit that was accepted at this clock reading, of this row. */
  ghost predicate Ready(w: World, e: Edit) {
    e.Accepted() && e.patch.Touches() && e.now == w.clock && CleanRow(e.patch.Onto(e.read))
  }

  lemma ReadyWritesAhead(w: World, e: Edit)
    requires Ready(w, e) && (e.id in w.rows ==> CleanRow(e.patch.Onto(w.rows[e.id])))
    ensures WritesAhead(w, e)
  {
    var merged := e.patch.Onto(e.read);
    NextRunAdvances(merged.cron, e.now, merged.window);
  }

  /** What two crossing writes leave: both patches' fields, with the slot of the second. */
  lemma BothWrite(w: World, row: Row, first: Patch, second: Patch)
    requires 1 in w.rows && w.rows[1] == row
    requires w.edits == map[7 := Edit(1, row, first, w.clock), 8 := Edit(1, row, second, w.clock)]
    requires Ready(w, w.edits[7]) && Ready(w, w.edits[8]) && CleanRow(second.Onto(first.Onto(row)))
    ensures var steps := [EditWrite(7)] + ([EditWrite(8)] + []);
      && IsForwardRun(w, steps) && IsRun(w, steps)
      && var end := After(w, steps);
        && 1 in end.rows && end.rows[1].SameCadence(second.Onto(first.Onto(row)))
        && end.rows[1].active == second.active.GetOr(first.active.GetOr(row.active))
        && end.rows[1].next == ComputeNextRun(second.Onto(row), w.clock)
  {
    ReadyWritesAhead(w, w.edits[7]);
    var w1 := Apply(w, EditWrite(7));
    assert w1.rows[1] == w.edits[7].Write(row) && w1.edits[8] == w.edits[8];
    assert second.Onto(w1.rows[1]).SameCadence(second.Onto(first.Onto(row)));
    ReadyWritesAhead(w1, w1.edits[8]);
    ForwardCons(w1, EditWrite(8), []);
    ForwardCons(w, EditWrite(7), [EditWrite(8)] + []);
  }

  /** From the start to the two crossing writes. */
  lemma CrossingEdits(w: World, cron: Schedule, first: Patch, second: Patch)
    requires Init(w) && cron.Valid() && Satisfiable(cron)
    requires var row := Created(cron, OPEN, true, w.clock);
      && Ready(w, Edit(1, row, first, w.clock)) && Ready(w, Edit(1, row, second, w.clock))
      && CleanRow(second.Onto(first.Onto(row)))
    ensures var row := Created(cron, OPEN, true, w.clock); var steps := Crossing(cron, w.clock, first, second);
      && IsForwardRun(w, steps) && IsRun(w, steps)
      && var end := After(w, steps);
        && 1 in end.rows && end.rows[1].SameCadence(second.Onto(first.Onto(row)))
        && end.rows[1].active == second.active.GetOr(first.active.GetOr(true))
        && end.rows[1].next == ComputeNextRun(second.Onto(row), w.clock)
  {
    var row := Created(cron, OPEN, true, w.clock);
    var create, read, reread := Create(1, cron, OPEN, true, w.clock), EditRead(7, 1, first), EditRead(8, 1, second);
    var writes := [EditWrite(7)] + ([EditWrite(8)] + []);
    var w1 := Apply(w, create);
    var w2 := Apply(w1, read);
    var w3 := Apply(w2, reread);
    BothWrite(w3, row, first, second);
    ForwardCons(w2, reread, writes);
    ForwardCons(w1, read, [reread] + writes);
    ForwardCons(w, create, [read] + ([reread] + writes));
  }

  const PAUSE := Patch(None, None, None, Some(false))

  /** A cadence edit that lands after a pause it did not see leaves a paused schedule with
      a slot: for every pair of schedules, in a run that is otherwise without fault. */
  lemma PausedRowKeepsSlot(w: World, cron: Schedule, edited: Schedule)
    requires Init(w) && cron.Valid() && Satisfiable(cron) && edited.Valid() && Satisfiable(edited)
    ensures var steps := Crossing(cron, w.clock, PAUSE, Patch(Some(edited), None, None, None));
      && IsForwardRun(w, steps) && IsRun(w, steps) && 1 in After(w, steps).rows
      && !After(w, steps).rows[1].active && After(w, steps).rows[1].next.Some?
  {
    var change := Patch(Some(edited), None, None, None);
    var row := Created(cron, OPEN, true, w.clock);
    assert ComputeNextRun(change.Onto(row), w.clock) == NextAfter(edited, w.clock);
    assert Ready(w, Edit(1, row, change, w.clock)) && Ready(w, Edit(1, row, PAUSE, w.clock));
    CrossingEdits(w, cron, PAUSE, change);
  }

  /** Two cadence edits that cross leave the slot of a cadence the row does not have: the
      new cron with the old cron's next run. */
  lemma CrossedEditsMisplaceSlot(w: World, cron: Schedule, edited: Schedule, ends: int)
    requires Init(w) && cron.Valid() && Satisfiable(cron) && edited.Valid() && Satisfiable(edited)
    requires NextAfter(cron, w.clock).value <= ends && !edited.FiresAt(NextAfter(cron, w.clock).value)
    ensures var change, close := Patch(Some(edited), None, None, None), Patch(None, None, Some(Some(ends)), None);
      var steps := Crossing(cron, w.clock, change, close);
      && IsForwardRun(w, steps) && IsRun(w, steps) && 1 in After(w, steps).rows
      && var row := After(w, steps).rows[1];
        row.active && row.cron == edited && row.next.Some? && !row.cron.FiresAt(row.next.value)
  {
    var change, close := Patch(Some(edited), None, None, None), Patch(None, None, Some(Some(ends)), None);
    var row := Created(cron, OPEN, true, w.clock);
    assert ComputeNextRun(change.Onto(row), w.clock) == NextAfter(edited, w.clock);
    assert ComputeNextRun(close.Onto(row), w.clock) == NextAfter(cron, w.clock);
    assert Ready(w, Edit(1, row, change, w.clock)) && Ready(w, Edit(1, row, close, w.clock));
    CrossingEdits(w, cron, change, close);
  }
}
