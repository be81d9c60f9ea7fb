/** The per-workspace ceiling on schedules under concurrent creates and deletes. A
    create is a transaction of separate statements: take the workspace's advisory
    lock, count committed rows, insert, commit; a delete is one statement. */
module WorkspaceCap {
  const MAX_SCHEDULES_PER_WORKSPACE := 100

  datatype Phase = Started | Locked | Counted | Inserted(id: int)

  datatype Transaction = Transaction(workspace: int, phase: Phase)

  datatype State = State(
    locking: bool,                      // whether creates take the advisory lock
    rows: map<int, int>,                // committed rows and their workspaces
    open: map<int, Transaction>)        // create transactions in progress

  datatype Step =
    | Begin(t: int, workspace: int)
    | Lock(t: int)
    | Count(t: int)
    | Insert(t: int, id: int)
    | Commit(t: int)
    | Rollback(t: int)
    | Delete(id: int)

  function In(s: State, workspace: int): set<int> {
    set id | id in s.rows && s.rows[id] == workspace
  }

  predicate Holds(t: Transaction) {
    !t.phase.Started?
  }

  /** The lock is transaction-scoped, so its holder is whoever is past the Lock step. */
  ghost predicate LockFree(s: State, workspace: int) {
    forall t :: t in s.open && s.open[t].workspace == workspace ==> !Holds(s.open[t])
  }

  ghost predicate Enabled(s: State, step: Step) {
    match step
    case Begin(t, _) => t !in s.open
    case Lock(t) => t in s.open && s.open[t].phase.Started? && (s.locking ==> LockFree(s, s.open[t].workspace))
    case Count(t) =>
      && t in s.open && s.open[t].phase.Locked?
      && |In(s, s.open[t].workspace)| < MAX_SCHEDULES_PER_WORKSPACE
    case Insert(t, id) => t in s.open && s.open[t].phase.Counted? && id !in s.rows
    case Commit(t) => t in s.open && s.open[t].phase.Inserted? && s.open[t].phase.id !in s.rows
    case Rollback(t) => t in s.open
    case Delete(id) => id in s.rows
  }

  function Apply(s: State, step: Step): State
    requires Enabled(s, step)
  {
    match step
    case Begin(t, workspace) => s.(open := s.open[t := Transaction(workspace, Started)])
    case Lock(t) => s.(open := s.open[t := s.open[t].(phase := Locked)])
    case Count(t) => s.(open := s.open[t := s.open[t].(phase := Counted)])
    case Insert(t, id) => s.(open := s.open[t := s.open[t].(phase := Inserted(id))])
    case Commit(t) => s.(rows := s.rows[s.open[t].phase.id := s.open[t].workspace], open := s.open - {t})
    case Rollback(t) => s.(open := s.open - {t})
    case Delete(id) => s.(rows := s.rows - {id})
  }

  ghost predicate IsRun(s: State, steps: seq<Step>)
    decreases |steps|
  {
    steps == [] || (Enabled(s, steps[0]) && IsRun(Apply(s, steps[0]), steps[1..]))
  }

  ghost function After(s: State, steps: seq<Step>): State
    requires IsRun(s, steps)
    decreases |steps|
  {
    if steps == [] then s else After(Apply(s, steps[0]), steps[1..])
  }

  ghost predicate Within(s: State) {
    forall ws :: |In(s, ws)| <= MAX_SCHEDULES_PER_WORKSPACE
  }

  /** Transaction t is past its lock on a workspace. */
  ghost predicate HoldsLock(s: State, t: int, workspace: int) {
    t in s.open && Holds(s.open[t]) && s.open[t].workspace == workspace
  }

  ghost predicate OneHolder(s: State) {
    forall t, u, ws :: HoldsLock(s, t, ws) && HoldsLock(s, u, ws) ==> t == u
  }

  ghost predicate HasCounted(s: State, t: int) {
    t in s.open && (s.open[t].phase.Counted? || s.open[t].phase.Inserted?)
  }

  /** One transaction per workspace is past its lock, and one that has counted still
      has room for the row it is about to commit. */
  ghost predicate Inv(s: State) {
    && s.locking && Within(s) && OneHolder(s)
    && forall t :: HasCounted(s, t) ==> |In(s, s.open[t].workspace)| < MAX_SCHEDULES_PER_WORKSPACE
  }

  lemma CommitKeepsInv(s: State, t: int)
    requires Inv(s) && Enabled(s, Commit(t))
    ensures Inv(Apply(s, Commit(t)))
  {
    var s' := Apply(s, Commit(t));
    var mine, id := s.open[t].workspace, s.open[t].phase.id;
    assert HasCounted(s, t);
    forall ws ensures |In(s', ws)| == |In(s, ws)| + (if ws == mine then 1 else 0) {
      RowAdded(s, s', id, mine, ws);
    }
    OthersOnly(s, s', t);
  }

  lemma RowAdded(s: State, s': State, id: int, mine: int, ws: int)
    requires id !in s.rows && s'.rows == s.rows[id := mine]
    ensures In(s', ws) == if ws == mine then In(s, ws) + {id} else In(s, ws)
    ensures |In(s', ws)| == |In(s, ws)| + (if ws == mine then 1 else 0)
  {
    forall other ensures other in In(s', ws) <==> other in In(s, ws) || (other == id && ws == mine) {
    }
    assert In(s', ws) == if ws == mine then In(s, ws) + {id} else In(s, ws);
  }

  lemma OthersOnly(s: State, s': State, t: int)
    requires OneHolder(s) && t in s.open && Holds(s.open[t]) && s'.open == s.open - {t}
    ensures OneHolder(s')
    ensures forall u :: HasCounted(s', u) ==>
      HasCounted(s, u) && s'.open[u] == s.open[u] && s.open[u].workspace != s.open[t].workspace
  {
    assert HoldsLock(s, t, s.open[t].workspace);
    forall u, ws | HoldsLock(s', u, ws) ensures HoldsLock(s, u, ws) {
    }
    forall u | HasCounted(s', u)
      ensures HasCounted(s, u) && s.open[u].workspace != s.open[t].workspace
    {
      assert HoldsLock(s, u, s.open[u].workspace);
    }
  }

  lemma DeleteKeepsInv(s: State, id: int)
    requires Inv(s) && Enabled(s, Delete(id))
    ensures Inv(Apply(s, Delete(id)))
  {
    var s' := Apply(s, Delete(id));
    forall ws ensures |In(s', ws)| <= |In(s, ws)| {
      assert In(s', ws) == In(s, ws) - {id};
    }
    forall u, ws | HoldsLock(s', u, ws) ensures HoldsLock(s, u, ws) {
    }
    forall u | HasCounted(s', u) ensures HasCounted(s, u) {
    }
  }

  /** The steps that commit nothing move one transaction through its phases. */
  lemma PhaseKeepsInv(s: State, step: Step)
    requires Inv(s) && Enabled(s, step) && !step.Commit? && !step.Delete?
    ensures Inv(Apply(s, step))
  {
    var s' := Apply(s, step);
    forall ws ensures In(s', ws) == In(s, ws) {
    }
    forall u, ws | HoldsLock(s', u, ws)
      ensures HoldsLock(s, u, ws) || (step == Lock(u) && LockFree(s, ws))
    {
    }
    forall u, ws | HoldsLock(s, u, ws) ensures !LockFree(s, ws) {
    }
    forall u | HasCounted(s', u) ensures HasCounted(s, u) || step == Count(u) {
    }
  }

  lemma InvKept(s: State, step: Step)
    requires Inv(s) && Enabled(s, step)
    ensures Inv(Apply(s, step))
  {
    match step
    case Commit(t) => CommitKeepsInv(s, t);
    case Delete(id) => DeleteKeepsInv(s, id);
    case _ => PhaseKeepsInv(s, step);
  }

  /** Under every interleaving no workspace ever holds more than the ceiling. */
  lemma {:induction false} CapHolds(s: State, steps: seq<Step>)
    requires Inv(s) && IsRun(s, steps)
    ensures forall ws :: |In(After(s, steps), ws)| <= MAX_SCHEDULES_PER_WORKSPACE
    decreases |steps|
  {
    if steps != [] {
      InvKept(s, steps[0]);
      CapHolds(Apply(s, steps[0]), steps[1..]);
    }
  }

  /** Any state with no create in progress and every workspace within the ceiling is a
      starting point for CapHolds. */
  lemma QuietStateIsSafe(s: State)
    requires s.locking && s.open == map[]
    requires forall ws :: |In(s, ws)| <= MAX_SCHEDULES_PER_WORKSPACE
    ensures Inv(s)
  {
  }

  /** Without the lock the same transactions overshoot: from one below the ceiling,
      two creates both count before either commits. */
  lemma CapNeedsTheLock(s: State, ws: int, a: int, b: int) returns (steps: seq<Step>)
    requires !s.locking && s.open == map[] && |In(s, ws)| == MAX_SCHEDULES_PER_WORKSPACE - 1
    requires a !in s.rows && b !in s.rows && a != b
    ensures IsRun(s, steps) && |In(After(s, steps), ws)| == MAX_SCHEDULES_PER_WORKSPACE + 1
  {
    steps := [Begin(1, ws), Begin(2, ws), Lock(1), Lock(2), Count(1), Count(2), Insert(1, a), Insert(2, b), Commit(1), Commit(2)];
    var both := Waiting(s, ws, Inserted(a), Inserted(b));
    BothCommit(s, both, ws, a, b, steps);
    BothInsert(s, ws, a, b, steps);
    BothCount(s, ws, steps);
    BothStart(s, ws, steps);
    assert steps[0..] == steps;
  }

  lemma SecondInserts(s: State, ws: int, a: int, b: int, steps: seq<Step>)
    requires b !in s.rows && |steps| == 10 && steps[7] == Insert(2, b)
    requires IsRun(Waiting(s, ws, Inserted(a), Inserted(b)), steps[8..])
    ensures var from := Waiting(s, ws, Inserted(a), Counted);
      IsRun(from, steps[7..]) && After(from, steps[7..]) == After(Waiting(s, ws, Inserted(a), Inserted(b)), steps[8..])
  {
    Advance(s, ws, Inserted(a), Counted, Inserted(a), Inserted(b), steps, 7);
  }

  lemma FirstInserts(s: State, ws: int, a: int, steps: seq<Step>)
    requires a !in s.rows && |steps| == 10 && steps[6] == Insert(1, a)
    requires IsRun(Waiting(s, ws, Inserted(a), Counted), steps[7..])
    ensures var from := Waiting(s, ws, Counted, Counted);
      IsRun(from, steps[6..]) && After(from, steps[6..]) == After(Waiting(s, ws, Inserted(a), Counted), steps[7..])
  {
    Advance(s, ws, Counted, Counted, Inserted(a), Counted, steps, 6);
  }

  lemma BothInsert(s: State, ws: int, a: int, b: int, steps: seq<Step>)
    requires a !in s.rows && b !in s.rows
    requires |steps| == 10 && steps[6] == Insert(1, a) && steps[7] == Insert(2, b)
    requires IsRun(Waiting(s, ws, Inserted(a), Inserted(b)), steps[8..])
    ensures var from := Waiting(s, ws, Counted, Counted);
      IsRun(from, steps[6..]) && After(from, steps[6..]) == After(Waiting(s, ws, Inserted(a), Inserted(b)), steps[8..])
  {
    SecondInserts(s, ws, a, b, steps);
    FirstInserts(s, ws, a, steps);
  }

  lemma BothCount(s: State, ws: int, steps: seq<Step>)
    requires |In(s, ws)| < MAX_SCHEDULES_PER_WORKSPACE
    requires |steps| == 10 && steps[4] == Count(1) && steps[5] == Count(2)
    requires IsRun(Waiting(s, ws, Counted, Counted), steps[6..])
    ensures var from := Waiting(s, ws, Locked, Locked);
      IsRun(from, steps[4..]) && After(from, steps[4..]) == After(Waiting(s, ws, Counted, Counted), steps[6..])
  {
    assert In(Waiting(s, ws, Counted, Locked), ws) == In(s, ws);
    Advance(s, ws, Counted, Locked, Counted, Counted, steps, 5);
    assert In(Waiting(s, ws, Locked, Locked), ws) == In(s, ws);
    Advance(s, ws, Locked, Locked, Counted, Locked, steps, 4);
  }

  lemma BothStart(s: State, ws: int, steps: seq<Step>)
    requires !s.locking && s.open == map[]
    requires |steps| == 10
    requires steps[0] == Begin(1, ws) && steps[1] == Begin(2, ws) && steps[2] == Lock(1) && steps[3] == Lock(2)
    requires IsRun(Waiting(s, ws, Locked, Locked), steps[4..])
    ensures IsRun(s, steps[0..]) && After(s, steps[0..]) == After(Waiting(s, ws, Locked, Locked), steps[4..])
  {
    Advance(s, ws, Locked, Started, Locked, Locked, steps, 3);
    Advance(s, ws, Started, Started, Locked, Started, steps, 2);
    var one := s.(open := map[1 := Transaction(ws, Started)]);
    assert Apply(one, steps[1]) == Waiting(s, ws, Started, Started);
    Unroll(one, steps, 1);
    assert Apply(s, steps[0]) == one;
    Unroll(s, steps, 0);
  }

  lemma Advance(s: State, ws: int, p: Phase, q: Phase, p': Phase, q': Phase, steps: seq<Step>, i: nat)
    requires i < |steps| && Enabled(Waiting(s, ws, p, q), steps[i])
    requires Apply(Waiting(s, ws, p, q), steps[i]).rows == s.rows
    requires Apply(Waiting(s, ws, p, q), steps[i]).open == map[1 := Transaction(ws, p'), 2 := Transaction(ws, q')]
    requires IsRun(Waiting(s, ws, p', q'), steps[i + 1..])
    ensures IsRun(Waiting(s, ws, p, q), steps[i..])
    ensures After(Waiting(s, ws, p, q), steps[i..]) == After(Waiting(s, ws, p', q'), steps[i + 1..])
  {
    assert Apply(Waiting(s, ws, p, q), steps[i]) == Waiting(s, ws, p', q');
    Unroll(Waiting(s, ws, p, q), steps, i);
  }

  function Waiting(s: State, ws: int, first: Phase, second: Phase): State {
    s.(open := map[1 := Transaction(ws, first), 2 := Transaction(ws, second)])
  }

  lemma BothCommit(s: State, both: State, ws: int, a: int, b: int, steps: seq<Step>)
    requires both == Waiting(s, ws, Inserted(a), Inserted(b)) && |steps| == 10
    requires steps[8] == Commit(1) && steps[9] == Commit(2)
    requires a !in s.rows && b !in s.rows && a != b
    ensures IsRun(both, steps[8..]) && |In(After(both, steps[8..]), ws)| == |In(s, ws)| + 2
  {
    var one := Apply(both, steps[8]);
    var two := Apply(one, steps[9]);
    assert steps[10..] == [] && After(two, steps[10..]) == two;
    Unroll(one, steps, 9);
    Unroll(both, steps, 8);
    RowAdded(both, one, a, ws, ws);
    RowAdded(one, two, b, ws, ws);
    assert In(both, ws) == In(s, ws);
  }

  lemma Unroll(s: State, steps: seq<Step>, i: nat)
    requires i < |steps| && Enabled(s, steps[i]) && IsRun(Apply(s, steps[i]), steps[i + 1..])
    ensures IsRun(s, steps[i..]) && After(s, steps[i..]) == After(Apply(s, steps[i]), steps[i + 1..])
  {
    assert steps[i..][1..] == steps[i + 1..];
  }

  /** When the create that holds a workspace's lock ends either way, every create waiting for
      that lock may take it. */
  lemma LockComesFree(s: State, t: int, u: int, step: Step)
    requires Inv(s) && t in s.open && Holds(s.open[t]) && (step == Rollback(t) || step == Commit(t))
    requires u in s.open && u != t && s.open[u].phase.Started? && s.open[u].workspace == s.open[t].workspace
    requires Enabled(s, step)
    ensures Enabled(Apply(s, step), Lock(u)) && (step.Rollback? ==> Apply(s, step).rows == s.rows)
  {
    var s', workspace := Apply(s, step), s.open[t].workspace;
    assert HoldsLock(s, t, workspace);
    forall v | v in s'.open && s'.open[v].workspace == workspace ensures !Holds(s'.open[v]) {
      if Holds(s'.open[v]) {
        assert HoldsLock(s, v, workspace);
      }
    }
  }
}
