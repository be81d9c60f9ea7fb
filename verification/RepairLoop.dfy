/** The generate, validate, execute, repair loop, with the list of shown tables that a
    failed attempt widens. Generator, validator, executor and clock are arbitrary. */
module RepairLoop {
  import opened Wrappers
  import opened Text
  import opened SchemaGraph
  import opened SchemaLink
  import opened SchemaRetry
  import opened Ranking

  type Rows = seq<seq<string>>

  datatype Candidate = Candidate(sql: string, restatement: string)

  datatype Verdict = Verdict(ok: bool, errors: seq<string>)

  /** What running a statement gives; an empty error text is no error. */
  datatype Execution = Execution(error: string, rows: Rows)

  datatype Stage = Accepted | FailedValidation | FailedExecution

  datatype Attempt = Attempt(sql: string, stage: Stage, errors: seq<string>)

  /** An attempt with what came of it: the candidate's own words for the question, and
      the rows its statement gave. */
  datatype Tried = Tried(attempt: Attempt, restatement: string, rows: Option<Rows>)

  datatype Outcome = Outcome(ok: bool, sql: string, restatement: string, result: Option<Rows>, attempts: seq<Attempt>)

  /** The callables, each told which attempt asks so that it may answer differently every
      time. None stands for an exception, and a missing executor for validation only; the
      failure hook raises when the names in a statement cannot be had. */
  datatype Callables = Callables(
    generate: (nat, string, seq<string>) -> Option<Candidate>,
    validate: (nat, string) -> Option<Verdict>,
    execute: Option<(nat, string) -> Option<Execution>>,
    clock: nat -> int,
    tablesNamed: string -> Option<set<string>>)

  function Lines(errors: seq<string>): string {
    if errors == [] then "" else "- " + errors[0] + "\n" + Lines(errors[1..])
  }

  /** The correction prompt for the next attempt. */
  function Feedback(sql: string, errors: seq<string>): string {
    "The previous SQL attempt was:\n" + Trim(sql) + "\n\nProblems found:\n" + Lines(errors)
      + "Return a corrected SQL query that fixes these problems."
  }

  /** The verdict on a candidate: validation first, then execution if there is any. Only
      an accepted statement that was executed has rows. */
  function Judged(calls: Callables, i: nat, sql: string, restatement: string): Option<Tried> {
    var verdict := calls.validate(i, sql);
    if verdict.None? then None
    else if !verdict.value.ok then Some(Tried(Attempt(sql, FailedValidation, verdict.value.errors), restatement, None))
    else if calls.execute.None? then Some(Tried(Attempt(sql, Accepted, []), restatement, None))
    else
      var execution := calls.execute.value(i, sql);
      if execution.None? then None
      else if execution.value.error != "" then
        Some(Tried(Attempt(sql, FailedExecution, [execution.value.error]), restatement, None))
      else Some(Tried(Attempt(sql, Accepted, []), restatement, Some(execution.value.rows)))
  }

  /** The i-th attempt as the callables give it, from the feedback and the shown tables;
      None when one of them raises. */
  function TryAt(calls: Callables, i: nat, feedback: string, shown: seq<string>): Option<Tried> {
    var candidate := calls.generate(i, feedback, shown);
    if candidate.None? then None else Judged(calls, i, Trim(candidate.value.sql), candidate.value.restatement)
  }

  /** What stays the same during a run. */
  datatype Setting = Setting(schema: Schema, lower: Fold, calls: Callables, maxIterations: int, maxSeconds: Option<int>) {
    function Limit(): nat {
      if maxIterations > 1 then maxIterations else 1
    }

    /** Whether the time is used up before the i-th attempt; the first always runs. */
    predicate OutOfTime(i: nat) {
      maxSeconds.Some? && i > 0 && calls.clock(i) - calls.clock(0) > maxSeconds.value
    }
  }

  /** A run so far: what the first attempt is shown, then each attempt made and what the
      next one would be shown. */
  datatype Run = Start(shown: seq<string>) | Then(before: Run, tried: Tried, shown: seq<string>) {
    function Attempts(): seq<Attempt> {
      if Start? then [] else before.Attempts() + [tried.attempt]
    }

    function First(): seq<string> {
      if Start? then shown else before.First()
    }

    /** What the next attempt is told: nothing at first, later what was wrong before. */
    function Told(): string {
      if Start? then "" else Feedback(tried.attempt.sql, tried.attempt.errors)
    }

    /** The last attempt, if any, was not accepted. */
    predicate Failing() {
      Then? ==> !tried.attempt.stage.Accepted?
    }
  }

  /** A failed attempt widens the shown tables by what it named; an accepted one leaves them. */
  ghost predicate Moves(setting: Setting, attempt: Attempt, before: seq<string>, after: seq<string>) {
    if attempt.stage.Accepted? then after == before
    else
      var named := setting.calls.tablesNamed(attempt.sql);
      named.Some? && exists added ::
        after == before + added && Widens(setting.schema, setting.lower, before, named.value, added)
  }

  ghost predicate IsRepairRun(setting: Setting, run: Run) {
    match run
    case Start(_) => true
    case Then(before, tried, shown) =>
      && IsRepairRun(setting, before) && before.Failing()
      && |before.Attempts()| < setting.Limit() && !setting.OutOfTime(|before.Attempts()|)
      && TryAt(setting.calls, |before.Attempts()|, before.Told(), before.shown) == Some(tried)
      && Moves(setting, tried.attempt, before.shown, shown)
  }

  /** Validation and execution of one candidate. */
  method Judge(calls: Callables, i: nat, sql: string, restatement: string) returns (tried: Option<Tried>)
    ensures tried == Judged(calls, i, sql, restatement)
    ensures tried.Some? ==> tried.value.attempt.sql == sql && tried.value.restatement == restatement
    ensures tried.Some? && tried.value.attempt.stage.Accepted? ==>
      && calls.validate(i, sql).Some? && calls.validate(i, sql).value.ok
      && (calls.execute.Some? ==> calls.execute.value(i, sql) == Some(Execution("", tried.value.rows.GetOr([]))))
    ensures tried.Some? ==> (tried.value.rows.Some? <==> tried.value.attempt.stage.Accepted? && calls.execute.Some?)
  {
    var verdict := calls.validate(i, sql);
    if verdict.None? {
      return None;
    }
    if !verdict.value.ok {
      return Some(Tried(Attempt(sql, FailedValidation, verdict.value.errors), restatement, None));
    }
    if calls.execute.None? {
      return Some(Tried(Attempt(sql, Accepted, []), restatement, None));
    }
    var execution := calls.execute.value(i, sql);
    if execution.None? {
      return None;
    }
    if execution.value.error != "" {
      return Some(Tried(Attempt(sql, FailedExecution, [execution.value.error]), restatement, None));
    }
    return Some(Tried(Attempt(sql, Accepted, []), restatement, Some(execution.value.rows)));
  }

  /** One attempt: a candidate from the generator, validated and executed. */
  method Try(calls: Callables, i: nat, feedback: string, shown: seq<string>) returns (tried: Option<Tried>)
    ensures tried == TryAt(calls, i, feedback, shown)
  {
    var candidate := calls.generate(i, feedback, shown);
    if candidate.None? {
      return None;
    }
    tried := Judge(calls, i, Trim(candidate.value.sql), candidate.value.restatement);
  }

  /** What the loop hands back: the first accepted attempt, or the last one when the
      limit or the time is used up. */
  predicate Concludes(outcome: Outcome, run: Run, setting: Setting) {
    && run.Then? && outcome.attempts == run.Attempts() && outcome.sql == run.tried.attempt.sql
    && outcome.restatement == run.tried.restatement && outcome.result == run.tried.rows
    && (outcome.ok <==> run.tried.attempt.stage.Accepted?)
    && (!outcome.ok ==>
      || |run.Attempts()| == (if setting.maxIterations > 1 then setting.maxIterations else 1)
      || (setting.maxSeconds.Some? && setting.calls.clock(|run.Attempts()|) - setting.calls.clock(0) > setting.maxSeconds.value))
  }

  /** The run ended early: a call for the next attempt raised, or the hook after it did. */
  predicate Aborts(run: Run, calls: Callables) {
    && run.Failing()
    && var tried := TryAt(calls, |run.Attempts()|, run.Told(), run.shown);
      tried.None? || (!tried.value.attempt.stage.Accepted? && calls.tablesNamed(tried.value.attempt.sql).None?)
  }

  /** What the loop keeps between two attempts. */
  ghost predicate Underway(setting: Setting, run: Run, attempts: seq<Attempt>, feedback: string) {
    IsRepairRun(setting, run) && run.Failing() && attempts == run.Attempts() && feedback == run.Told()
  }

  /** The run that goes on from another by one attempt. */
  ghost predicate GoesOn(more: Run, run: Run, tried: Tried, attempts: seq<Attempt>, shown: seq<string>) {
    && more == Then(run, tried, shown) && more.Attempts() == attempts + [tried.attempt]
    && more.First() == run.First()
  }

  /** The tables one question's prompts are built from. */
  class LinkedTables {
    var linked: seq<string>

    constructor (tables: seq<string>)
      ensures linked == tables
    {
      linked := tables;
    }

    /** _on_failure. */
    method OnFailure(setting: Setting, attempt: Attempt) returns (ok: bool)
      requires setting.schema.Valid() && !attempt.stage.Accepted?
      modifies this
      ensures ok <==> setting.calls.tablesNamed(attempt.sql).Some?
      ensures if ok then Moves(setting, attempt, old(linked), linked) else linked == old(linked)
    {
      var named := setting.calls.tablesNamed(attempt.sql);
      if named.None? {
        return false;
      }
      var added := ExpandLinkedTables(setting.schema, setting.lower, linked, named.value);
      if added != [] {
        linked := linked + added;
      }
      assert linked == old(linked) + added;
      return true;
    }

    /** The body of the loop: one attempt and, if it failed, the failure hook. */
    method Iterate(setting: Setting, attempts: seq<Attempt>, feedback: string, ghost run: Run)
      returns (tried: Option<Tried>, ghost more: Run)
      requires setting.schema.Valid() && Underway(setting, run, attempts, feedback) && run.shown == linked
      requires |attempts| < setting.Limit() && !setting.OutOfTime(|attempts|)
      modifies this
      ensures tried.None? ==> more == run && linked == old(linked) && Aborts(run, setting.calls)
      ensures tried.Some? ==> IsRepairRun(setting, more) && GoesOn(more, run, tried.value, attempts, linked)
      ensures tried.Some? && tried.value.rows.Some? ==> tried.value.attempt.stage.Accepted?
    {
      tried := Try(setting.calls, |attempts|, feedback, linked);
      more := run;
      if tried.Some? {
        if !tried.value.attempt.stage.Accepted? {
          var ok := OnFailure(setting, tried.value.attempt);
          if !ok {
            return None, run;
          }
        }
        more := Then(run, tried.value, linked);
      }
    }

    /** run_repair_loop with this list behind the generator and the failure hook. */
    method RunRepairLoop(setting: Setting)
      returns (outcome: Option<Outcome>, ghost run: Run)
      requires setting.schema.Valid()
      modifies this
      ensures IsRepairRun(setting, run) && run.First() == old(linked) && run.shown == linked
      ensures outcome.Some? ==> Concludes(outcome.value, run, setting)
      ensures outcome.None? ==> Aborts(run, setting.calls)
    {
      var attempts: seq<Attempt>, feedback, restatement := [], "", "";
      run := Start(linked);
      for i := 0 to setting.Limit()
        invariant |attempts| == i && Underway(setting, run, attempts, feedback)
        invariant run.First() == old(linked) && run.shown == linked
        invariant run.Then? ==> restatement == run.tried.restatement && run.tried.rows.None?
      {
        if setting.OutOfTime(i) {
          break;
        }
        var tried;
        tried, run := Iterate(setting, attempts, feedback, run);
        if tried.None? {
          return None, run;
        }
        var attempt := tried.value.attempt;
        attempts, restatement := attempts + [attempt], tried.value.restatement;
        if attempt.stage.Accepted? {
          return Some(Outcome(true, attempt.sql, restatement, tried.value.rows, attempts)), run;
        }
        feedback := Feedback(attempt.sql, attempt.errors);
      }
      outcome := Some(Outcome(false, attempts[|attempts| - 1].sql, restatement, None, attempts));
    }
  }

  // ── What a whole run keeps ─────────────────────────────────────────

  /** The later run goes on from the earlier one. */
  predicate Continues(later: Run, earlier: Run) {
    later == earlier || (later.Then? && Continues(later.before, earlier))
  }

  /** A run never makes more attempts than its limit, and starts none but the first after
      the time is used up. */
  lemma {:induction false} AttemptsBounded(setting: Setting, run: Run, i: nat)
    requires IsRepairRun(setting, run) && i < |run.Attempts()|
    ensures |run.Attempts()| <= if setting.maxIterations > 1 then setting.maxIterations else 1
    ensures i > 0 && setting.maxSeconds.Some? ==> setting.calls.clock(i) - setting.calls.clock(0) <= setting.maxSeconds.value
    decreases run
  {
    if i < |run.before.Attempts()| {
      AttemptsBounded(setting, run.before, i);
    }
  }

  lemma {:induction false} LinesContain(errors: seq<string>, e: string)
    requires e in errors
    ensures Contains(Lines(errors), "- " + e + "\n")
    decreases |errors|
  {
    var line, rest := "- " + errors[0] + "\n", Lines(errors[1..]);
    assert Lines(errors) == "" + line + rest && Lines(errors) == line + rest + "";
    if e == errors[0] {
      ContainsItself(line);
      ContainsInside("", line, rest, line);
    } else {
      LinesContain(errors[1..], e);
      ContainsInside(line, rest, "", "- " + e + "\n");
    }
  }

  /** The correction prompt holds the failed statement and a line for each problem. */
  lemma FeedbackShows(sql: string, errors: seq<string>, e: string)
    ensures Contains(Feedback(sql, errors), Trim(sql))
    ensures e in errors ==> Contains(Feedback(sql, errors), "- " + e + "\n")
  {
    var before, between := "The previous SQL attempt was:\n", "\n\nProblems found:\n";
    var end := "Return a corrected SQL query that fixes these problems.";
    var statement, lines := Trim(sql), Lines(errors);
    assert Feedback(sql, errors) == before + statement + (between + lines + end);
    assert Feedback(sql, errors) == (before + statement + between) + lines + end;
    ContainsItself(statement);
    ContainsInside(before, statement, between + lines + end, statement);
    if e in errors {
      LinesContain(errors, e);
      ContainsInside(before + statement + between, lines, end, "- " + e + "\n");
    }
  }

  /** Along every run each later attempt is the candidate the generator gave for a prompt that
      holds the statement that failed before and each of its problems, and for the tables
      shown by then; the first is asked with no prompt. */
  lemma NextIsTold(setting: Setting, run: Run, e: string)
    requires IsRepairRun(setting, run) && run.Then?
    ensures var before := run.before; var prompt := before.Told();
      var candidate := setting.calls.generate(|before.Attempts()|, prompt, before.shown);
      && (before.Start? ==> prompt == "")
      && (before.Then? ==> Contains(prompt, before.tried.attempt.sql))
      && (before.Then? && e in before.tried.attempt.errors ==> Contains(prompt, "- " + e + "\n"))
      && candidate.Some? && run.tried.attempt.sql == Trim(candidate.value.sql)
      && run.tried.restatement == candidate.value.restatement
  {
    var before := run.before;
    TriedIsCandidate(setting.calls, |before.Attempts()|, before.Told(), before.shown);
    if before.Then? {
      var was := before.before;
      TriedIsCandidate(setting.calls, |was.Attempts()|, was.Told(), was.shown);
      FeedbackShows(before.tried.attempt.sql, before.tried.attempt.errors, e);
    }
  }

  lemma TriedIsCandidate(calls: Callables, i: nat, feedback: string, shown: seq<string>)
    requires TryAt(calls, i, feedback, shown).Some?
    ensures var candidate, tried := calls.generate(i, feedback, shown), TryAt(calls, i, feedback, shown).value;
      && candidate.Some? && tried.attempt.sql == Trim(candidate.value.sql) == Trim(tried.attempt.sql)
      && tried.restatement == candidate.value.restatement
  {
    TrimTwice(calls.generate(i, feedback, shown).value.sql);
  }

  /** Every attempt but the last failed, so the first success ends the run. */
  lemma {:induction false} OnlyLastAccepted(setting: Setting, run: Run, i: nat)
    requires IsRepairRun(setting, run) && i < |run.Attempts()|
    ensures run.Attempts()[i].stage.Accepted? ==> i == |run.Attempts()| - 1
    decreases run
  {
    if i < |run.before.Attempts()| {
      OnlyLastAccepted(setting, run.before, i);
    }
  }

  /** The shown tables only grow. */
  lemma {:induction false} ShownGrows(setting: Setting, later: Run, earlier: Run)
    requires IsRepairRun(setting, later) && Continues(later, earlier)
    ensures earlier.shown <= later.shown
    decreases later
  {
    if later != earlier {
      ShownGrows(setting, later.before, earlier);
    }
  }

  lemma {:induction false} ShownFromFirst(setting: Setting, run: Run)
    requires IsRepairRun(setting, run)
    ensures run.First() <= run.shown
    decreases run
  {
    if run.Then? {
      ShownFromFirst(setting, run.before);
    }
  }

  ghost predicate DistinctTables(schema: Schema, tables: seq<string>) {
    Distinct(tables) && forall t :: t in tables ==> t in schema.tables
  }

  lemma MoveKeepsTables(setting: Setting, attempt: Attempt, before: seq<string>, after: seq<string>)
    requires setting.schema.Valid() && Moves(setting, attempt, before, after) && DistinctTables(setting.schema, before)
    ensures DistinctTables(setting.schema, after)
  {
    if !attempt.stage.Accepted? {
      var named := setting.calls.tablesNamed(attempt.sql).value;
      var added :| after == before + added && Widens(setting.schema, setting.lower, before, named, added);
      WidenedIsDistinct(setting.schema, setting.lower, before, named, added);
    }
  }

  /** The shown tables stay distinct schema tables. */
  lemma {:induction false} ShownStayTables(setting: Setting, run: Run)
    requires setting.schema.Valid() && IsRepairRun(setting, run) && DistinctTables(setting.schema, run.First())
    ensures DistinctTables(setting.schema, run.shown)
    decreases run
  {
    if run.Then? {
      ShownStayTables(setting, run.before);
      MoveKeepsTables(setting, run.tried.attempt, run.before.shown, run.shown);
    }
  }

  lemma ShownStays(less: seq<string>, more: seq<string>, name: string, lower: Fold)
    requires less <= more && Shown(less, name, lower)
    ensures Shown(more, name, lower)
  {
    var t :| t in less && lower(t) == lower(name);
    assert t in more;
  }

  lemma {:induction false} ContinuesRun(setting: Setting, later: Run, earlier: Run)
    requires IsRepairRun(setting, later) && Continues(later, earlier)
    ensures IsRepairRun(setting, earlier)
    decreases later
  {
    if later != earlier {
      ContinuesRun(setting, later.before, earlier);
    }
  }

  /** From a failed attempt on, the run shows each real table the failed statement named
      and, if that table had been missed, its ancestors too. */
  lemma FailureTeaches(setting: Setting, later: Run, failed: Run, name: string)
    requires setting.schema.Valid() && IsRepairRun(setting, later) && Continues(later, failed)
    requires failed.Then? && failed.Failing() && setting.calls.tablesNamed(failed.tried.attempt.sql).Some?
    requires name in setting.calls.tablesNamed(failed.tried.attempt.sql).value
    requires RealTable(setting.schema, setting.lower, name).Some?
    ensures var table, lower := RealTable(setting.schema, setting.lower, name).value, setting.lower;
      && Shown(later.shown, table, lower)
      && (Shown(failed.before.shown, name, lower) ||
        forall a :: a in Ancestors(setting.schema, table) ==> Shown(later.shown, a, lower))
  {
    var schema, lower, named := setting.schema, setting.lower, setting.calls.tablesNamed(failed.tried.attempt.sql).value;
    var table, before := RealTable(schema, lower, name).value, failed.before.shown;
    ContinuesRun(setting, later, failed);
    var added :| failed.shown == before + added && Widens(schema, lower, before, named, added);
    NamedTablesShown(schema, lower, before, named, added, name);
    ShownGrows(setting, later, failed);
    ShownStays(failed.shown, later.shown, table, lower);
    if !Shown(before, name, lower) {
      forall a | a in Ancestors(schema, table) ensures Shown(later.shown, a, lower) {
        ShownStays(failed.shown, later.shown, a, lower);
      }
    }
  }

  const MAX_TABLES: nat := 20
  const MAX_ATTEMPTS := 3
  const MAX_SECONDS := 60

  /** run_query, from linking to the end of the loop: the tables reported as used start
      with the linked ones and stay distinct schema tables. */
  method RunQuery(schema: Schema, signals: Signals, calls: Callables)
    returns (outcome: Option<Outcome>, tablesUsed: seq<string>, ghost run: Run)
    requires schema.Valid()
    ensures IsRepairRun(Setting(schema, signals.lower, calls, 3, Some(60)), run)
    ensures run.First() == Linked(schema, signals, 20) && run.shown == tablesUsed
    ensures run.First() <= tablesUsed && DistinctTables(schema, tablesUsed)
    ensures outcome.Some? ==>
      Concludes(outcome.value, run, Setting(schema, signals.lower, calls, 3, Some(60)))
    ensures outcome.None? ==> Aborts(run, calls)
  {
    var linked := LinkRelevantTables(schema, signals, MAX_TABLES);
    LinkedAreTables(schema, signals, MAX_TABLES);
    var tables := new LinkedTables(linked);
    var setting := Setting(schema, signals.lower, calls, MAX_ATTEMPTS, Some(MAX_SECONDS));
    outcome, run := tables.RunRepairLoop(setting);
    tablesUsed := tables.linked;
    ShownFromFirst(setting, run);
    ShownStayTables(setting, run);
  }
}
