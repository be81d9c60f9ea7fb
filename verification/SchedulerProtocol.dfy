/** The scheduled-query protocol as a state machine: any number of scheduler
    processes list due rows, claim them with a compare-and-swap, run them and write
    the outcome back, while users create, edit and delete rows, and processes crash.
    Each database operation is one step, and a tick and an edit read the clock in a step
    of their own; a create carries a reading it made before it wrote. */
module SchedulerProtocol {
  import opened Wrappers
  import opened CronSchedule
  import opened CronWindow
  import opened ScheduleRows

  const DUE_BATCH_SIZE := 50

  /** One occurrence of one schedule. */
  datatype Slot = Slot(id: int, at: int)

  /** A row as a process read it. */
  datatype Snapshot = Snapshot(id: int, row: Row) {
    function Key(): Slot
      requires row.next.Some?
    {
      Slot(id, row.next.value)
    }
  }

  datatype RunState = Pending(row: Row) | Finished(row: Row, status: Status)

  /** A scheduler process between two of its database operations. */
  datatype Process = Process(
    moment: Option<int>,           // the clock reading of the tick in progress
    listed: bool,                  // whether the tick has read its due rows
    queue: seq<Snapshot>,          // due rows not yet handled
    retiring: Option<Snapshot>,    // a claimed row with no further occurrence
    runs: map<Slot, RunState>)     // occurrences claimed and not yet written back

  const IDLE := Process(None, false, [], None, map[])

  /** A claim that succeeded, with the tick's clock reading: a history variable. */
  datatype Claim = Claim(slot: Slot, moment: int)

  datatype World = World(
    maxFailures: nat,
    grace: nat,
    clock: int,
    rows: map<int, Row>,
    used: set<int>,                // every id ever created
    processes: map<int, Process>,
    edits: map<int, Edit>,
    claims: seq<Claim>,
    sent: seq<Slot>)               // report emails handed to the provider

  datatype Step =
    | Wait(duration: nat)
    | BeginTick(p: int)
    | ListDue(p: int, due: seq<Snapshot>)
    | ClaimNext(p: int)
    | ClaimError(p: int)
    | Retire(p: int, written: bool)
    | Execute(p: int, slot: Slot, status: Status, delivered: bool)
    | WriteBack(p: int, slot: Slot, written: bool)
    | EndTick(p: int)
    | Crash(p: int)
    | EditRead(u: int, id: int, patch: Patch)
    | EditCompute(u: int)          // the clock is read, any time after the row
    | EditWrite(u: int)
    | EditAbandon(u: int)
    | Create(id: int, cron: Schedule, window: Window, active: bool, now: int)
    | Delete(id: int)

  /** The snapshots are distinct due rows, at most one batch of them. */
  ghost predicate DueBatch(w: World, moment: int, due: seq<Snapshot>) {
    && |due| <= DUE_BATCH_SIZE
    && (forall i :: 0 <= i < |due| ==>
      due[i].id in w.rows && due[i].row == w.rows[due[i].id] && due[i].row.Due(moment))
    && (forall i, j :: 0 <= i < j < |due| ==> due[i].id != due[j].id)
  }

  /** A tick that is in its claiming loop and has a row to handle. */
  predicate Claiming(q: Process) {
    q.moment.Some? && q.listed && q.retiring.None? && q.queue != [] && q.queue[0].row.next.Some?
  }

  ghost predicate Enabled(w: World, step: Step) {
    match step
    case Wait(_) => true
    case BeginTick(p) => p in w.processes && w.processes[p] == IDLE
    case ListDue(p, due) =>
      && p in w.processes && w.processes[p].moment.Some? && !w.processes[p].listed
      && DueBatch(w, w.processes[p].moment.value, due)
    case ClaimNext(p) => p in w.processes && Claiming(w.processes[p]) && w.processes[p].queue[0].row.cron.Valid()
    case ClaimError(p) => p in w.processes && Claiming(w.processes[p])
    case Retire(p, _) => p in w.processes && w.processes[p].retiring.Some?
    case Execute(p, slot, status, delivered) =>
      && p in w.processes && w.processes[p].queue == [] && w.processes[p].retiring.None?
      && slot in w.processes[p].runs && w.processes[p].runs[slot].Pending?
      && (status == Success ==> delivered)
    case WriteBack(p, slot, _) =>
      p in w.processes && slot in w.processes[p].runs && w.processes[p].runs[slot].Finished?
    case EndTick(p) =>
      && p in w.processes && w.processes[p].listed && w.processes[p].queue == []
      && w.processes[p].retiring.None? && w.processes[p].runs == map[]
    case Crash(p) => p in w.processes
    case EditRead(u, id, patch) =>
      u !in w.edits && id in w.rows && Edit(id, w.rows[id], patch, w.clock).Accepted()
    case EditCompute(u) => u in w.edits && w.edits[u].At(w.clock).Accepted()
    case EditWrite(u) => u in w.edits && w.edits[u].Accepted()
    case EditAbandon(u) => u in w.edits
    case Create(id, cron, window, active, now) =>
      && id !in w.used && now <= w.clock && cron.Valid() && Satisfiable(cron) && window.Ordered()
      && (active ==> Created(cron, window, active, now).next.Some?)
    case Delete(id) => id in w.rows
  }

  function Put(w: World, p: int, q: Process): World {
    w.(processes := w.processes[p := q])
  }

  /** The tick loop's body for the head of the queue: compute the next occurrence,
      compare-and-swap, then retire, skip as misfired, or queue the run. */
  ghost function ApplyClaim(w: World, p: int): World
    requires Enabled(w, ClaimNext(p))
  {
    var q := w.processes[p];
    var snap := q.queue[0];
    var slot := snap.row.next.value;
    var moment := q.moment.value;
    var upcoming := NextRun(snap.row.cron, moment, snap.row.window);
    var rest := q.(queue := q.queue[1..]);
    if snap.id in w.rows && w.rows[snap.id].CanClaim(slot) then
      var after := rest.(
        retiring := if upcoming.None? then Some(snap) else None,
        runs := if moment - slot > w.grace then q.runs else q.runs[snap.Key() := Pending(snap.row)]);
      Put(w, p, after).(
        rows := w.rows[snap.id := w.rows[snap.id].Claimed(upcoming, moment)],
        claims := w.claims + [Claim(snap.Key(), moment)])
    else Put(w, p, rest)
  }

  function WriteRow(w: World, id: int, row: Row): World {
    if id in w.rows then w.(rows := w.rows[id := row]) else w
  }

  ghost function Apply(w: World, step: Step): World
    requires Enabled(w, step)
  {
    match step
    case Wait(duration) => w.(clock := w.clock + duration)
    case BeginTick(p) => Put(w, p, IDLE.(moment := Some(w.clock)))
    case ListDue(p, due) => Put(w, p, w.processes[p].(listed := true, queue := due))
    case ClaimNext(p) => ApplyClaim(w, p)
    case ClaimError(p) => Put(w, p, w.processes[p].(queue := w.processes[p].queue[1..]))
    case Retire(p, written) =>
      var q := w.processes[p];
      var snap := q.retiring.value;
      var w1 := Put(w, p, q.(retiring := None));
      if written && snap.id in w.rows then WriteRow(w1, snap.id, Retired(w.rows[snap.id], snap.row)) else w1
    case Execute(p, slot, status, delivered) =>
      var q := w.processes[p];
      Put(w, p, q.(runs := q.runs[slot := Finished(q.runs[slot].row, status)])).(
        sent := if delivered then w.sent + [slot] else w.sent)
    case WriteBack(p, slot, written) =>
      var q := w.processes[p];
      var run := q.runs[slot];
      var w1 := Put(w, p, q.(runs := q.runs - {slot}));
      if written && slot.id in w.rows then
        WriteRow(w1, slot.id, WrittenBack(w.rows[slot.id], run.row.failures, run.status, w.maxFailures))
      else w1
    case EndTick(p) => Put(w, p, IDLE)
    case Crash(p) => Put(w, p, IDLE)
    case EditRead(u, id, patch) => w.(edits := w.edits[u := Edit(id, w.rows[id], patch, w.clock)])
    case EditCompute(u) => w.(edits := w.edits[u := w.edits[u].At(w.clock)])
    case EditWrite(u) =>
      var e := w.edits[u];
      var w1 := w.(edits := w.edits - {u});
      if e.id in w.rows then WriteRow(w1, e.id, e.Write(w.rows[e.id])) else w1
    case EditAbandon(u) => w.(edits := w.edits - {u})
    case Create(id, cron, window, active, now) =>
      w.(rows := w.rows[id := Created(cron, window, active, now)], used := w.used + {id})
    case Delete(id) => w.(rows := w.rows - {id})
  }

  ghost predicate Init(w: World) {
    && w.maxFailures >= 1
    && w.rows == map[] && w.used == {} && w.edits == map[]
    && (forall p :: p in w.processes ==> w.processes[p] == IDLE)
    && w.claims == [] && w.sent == []
  }

  /** A finite run: a starting world and the steps taken from it. */
  ghost predicate IsRun(w: World, steps: seq<Step>)
    decreases |steps|
  {
    steps == [] || (Enabled(w, steps[0]) && IsRun(Apply(w, steps[0]), steps[1..]))
  }

  ghost function After(w: World, steps: seq<Step>): World
    requires IsRun(w, steps)
    decreases |steps|
  {
    if steps == [] then w else After(Apply(w, steps[0]), steps[1..])
  }
}
