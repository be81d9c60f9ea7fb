# BoloDB, verified

A model of the parts of BoloDB whose correctness is hardest to see by reading them, with proofs.
`dafny verify dfyconfig.toml` checks the whole project.

## What is modelled

**The cron engine** (`Calendar`, `CronSchedule`, `CronWindow`, `Text`, `CronParser`, `CronMeaning`,
`CronDescribe`, `CronBuilder`). Instants are integer microseconds in UTC and years are unbounded. `CronSchedule` holds the
bounded search over days, hours and minutes; its specification is the least firing time after an instant. The
search bound of 366 * 8 days is proved wide enough for every expression, by the Gregorian leap rule. `CronWindow`
adds the start and end of a schedule. The parser turns text into field sets, and `CronMeaning`
says what each form of entry and the pair of day fields stand for without it; `CronDescribe` says what each summary
phrase claims and proves the claim; `CronBuilder` is the dialog's printer, and what it prints is read back as what
was chosen.

**The scheduled-query protocol** (`ScheduleRows`, `SchedulerProtocol`, `SchedulerSlots`, `SchedulerSafety`,
`SchedulerRetirement`, `SchedulerLosses`, `SchedulerFaults`, `ScheduleStore`, `FailureStreak`, `WorkspaceCap`). The
protocol is a step relation over any number of scheduler processes with their own snapshots, users who read, compute and write,
crashes, lost writes and a shared clock. Three inductive invariants, each resting on the one before, carry the
results over every interleaving: slots move forward and are claimed once (`SchedulerSlots`), a row's slot belongs to
its own cadence (`SchedulerSafety`), and a row has a slot exactly when it has a run left (`SchedulerRetirement`).
`SchedulerLosses` says what at most once costs: which occurrences are never mailed. `SchedulerFaults` shows that each
condition is needed. `ScheduleStore` is the same table as one process updates it,
with the pass of `tick` as a loop.
`WorkspaceCap` splits a create into its statements, so that the advisory lock has something to protect.

**The SQL name checker** (`SqlTree`, `SqlValidate`, `SqlScoping`, `SqlRejections`, `SqlAliases`, `SqlCatches`). `SqlValidate`
is the two-pass checker over a parsed tree. `SqlScoping` resolves names lexically, scope by scope, without
reference to the checker, and the two are compared on every tree.

**Schema linking and repair** (`SchemaGraph`, `TableScore`, `Ranking`, `SchemaLink`, `SchemaLinkGaps`, `SchemaRetry`,
`RepairLoop`).
The foreign-key walk keeps its shared mutable visited set and is compared with reachability. Selection is stated
through ranks and counts. The repair loop runs against arbitrary generators, validators, executors and clocks, and
its list of shown tables is an object that the failure hook extends.

## What the proofs found

The code is modelled as it is, and these are properties of it.

- `next_run` with a `starts_at` that is not on a whole minute returns the start of that minute, which lies
  before the window opens, whenever that minute fires and the window has not closed by then.
  `CronWindow.NextRunExactly` gives the exact family. On it a preview repeats one time, and claiming leaves the slot
  where it was, so the report goes out again. `SchedulerFaults.MailsTwiceExactly`: without edits, a cadence can mail
  an occurrence twice if and only if its start is of this kind and lies before its end. A pass inside that minute leaves such a row due
  (`ScheduleStore.HandledNotDue`).
- An edit is a read, a computation and a write with no lock between. For every schedule there is an
  interleaving in which such an edit puts a claimed slot back and the report is mailed twice
  (`SchedulerFaults.DisturbedEditSendsTwice`). Two crossing edits leave a paused schedule with a slot
  (`PausedRowKeepsSlot`), or a slot at which the row's cron does not fire (`CrossedEditsMisplaceSlot`).
- The write that retires a schedule after its last slot is unconditional, so it undoes every cadence edit that
  landed since the claim and left the schedule active (`SchedulerRetirement.RetirementUndoesEdit`). `RetirementExactly`:
  it takes a run away exactly when the row has a slot again. A schedule that now has no end is retired only after such an
  edit (`OnlyEndedRetire`).
- The comment at `backend/app/services/cron.py:22-24` says the bound covers the four-year leap cycle twice over. Across
  a common century year the gap is 2921 days, which the bound of 2928 clears by one week.
- The comment at `backend/app/services/cron.py:186-187` says a bare value with a step runs to the end of the field.
  The code does so only for a step above 1: `5/1` is just 5 (`CronMeaning.ValueWithStep`).
- "Every n minutes" is true exactly when n divides 60 (`CronDescribe.EveryMinutesIsTrueExactly`).
- The name checker rejects a UNION ordered by one of its own column aliases, and columns whose qualifier stands
  for a base table and also for another table, a derived table or a CTE (`SqlRejections` has one family of statements
  for each). `SqlScoping.RejectedOnlyAtRisk` shows that a statement that resolves is rejected for no other column, and
  `AcceptsResolvedExactly` when these are accepted.
- `docs/04-schema-linking.md:59-67` promises every foreign-key target of a selected table. Two things break this.
  A junction is added for two of the tables its foreign keys lead to, and the others are not added
  (`SchemaLinkGaps.JunctionLosesTable`). The cut-off at `max_tables` + 4 goes by rank and may drop an ancestor of a seed
  (`CutOffLosesParent`). `SchemaLink.ShownClosedExactly` says when neither happens, in terms of the seeds, their ancestors
  and the ranks.
- The same page says a junction's foreign keys point at two selected tables. The code counts everything they lead to, so
  a single foreign key to a seed, or to an ancestor of one, that has an ancestor itself is enough (`SchemaLinkGaps.OneKeyBridges`,
  `ChildTakenForJunction`). `CountsDifferExactly` says when the two counts differ.
- The junction pass goes by the selection as it grows, yet it adds exactly the tables that bridge the selection it
  started from, so the order of the schema does not matter to it (`SchemaLink.JunctionsExactly`).
- Shortlisting a table can drop it from the seeds (`SchemaLinkGaps.ShortlistDropsSeed`), in one situation only: nothing
  matched, and as many table names as there are seeds differ from its name only in case and sort before it
  (`SchemaLink.ShortlistKeepsSeed`).

## Model

| member | source | states |
|---|---|---|
| `Calendar.OrdinalOfDateAt` | backend/app/services/cron.py:108-122 | Stepping day by day from 1 January of year 1 reaches, after n steps, the date whose day number is n, in both directions of time |
| `Calendar.DateAtOfOrdinal` | backend/app/services/cron.py:108-122 | Day numbers and valid dates correspond one to one |
| `Calendar.NextLeapDay` | backend/app/services/cron.py:22-25 | From any day, 29 February is at most 2921 days off |
| `Calendar.MondaysRecur` | backend/app/services/cron.py:86-88 | Every date's weekday, Sunday as 0, counted from 3 August 2026, a Monday |
| `CronSchedule.FiringDayWithinBound` | backend/app/services/cron.py:22-25 | From any day, every expression that can fire has a firing day within 366 * 8 days |
| `CronSchedule.LeapDayGapIsReal` | backend/app/services/cron.py:22-25 | "29 February" does wait 2921 days after 29 February 2096, so no smaller bound would do |
| `CronSchedule.SatisfiableExactly` | backend/app/services/cron.py:78-97 | An expression fires at some time if and only if it restricts the weekday, or leaves the day of the month free, or lists a month long enough for a listed day |
| `CronSchedule.SearchClock` | backend/app/services/cron.py:108-123 | The search over days, hours and minutes returns the first firing clock time from its start on; the filters of the first day skip nothing, and None means no firing in the whole span |
| `CronSchedule.SearchOneDay` | backend/app/services/cron.py:112-121 | The body of the day loop returns the first firing time of its day, or leaves the search with nothing firing up to the next day |
| `CronSchedule.SearchDay` | backend/app/services/cron.py:114-121 | The hour and minute loops return the earliest listed time of the day that is not before the start, or None when there is none |
| `CronSchedule.SearchNextAfter` | backend/app/services/cron.py:99-123 | next_after equals the specification: the least whole-minute time strictly after any instant that matches; None only for an expression that never fires at all |
| `CronSchedule.NextAfter` | backend/app/services/cron.py:99-123 | The specification of next_after: a firing time after the given instant with none between, present exactly for expressions that can fire |
| `CronSchedule.NeverIsIndependentOfNow` | backend/app/services/cron.py:223-235 | Whether an expression ever fires is the same at every instant |
| `CronSchedule.NextAfterMonotone` | backend/app/services/cron.py:99-123 | Asking later never gives an earlier firing time |
| `CronMeaning.EitherDayFires` | backend/app/services/cron.py:86-97 | With both day fields given, an expression fires at exactly the minutes at which it would with a star for the one or with a star for the other |
| `CronMeaning.EitherDayNext` | backend/app/services/cron.py:86-123 | and its next firing time is the earlier of those two |
| `CronMeaning.WeekdaysMean` | backend/app/services/cron.py:69-73 | With the day of the month free, an expression fires on exactly the listed weekdays, counted from a known Monday, 0 and 7 both Sunday |
| `CronWindow.SearchNextRun` | backend/app/services/cron.py:238-263 | next_run's steps compute the function that the exactness results below are about |
| `CronWindow.NextRunExactly` | backend/app/services/cron.py:238-263 | next_run is the least firing time after `after` and inside the window, or None when there is none, if and only if it is not the case that the start lies ahead, off the minute and inside a firing minute that the window's end allows |
| `CronWindow.StartMinuteReturned` | backend/app/services/cron.py:251-256 | On that family the result is the whole minute before starts_at, outside the window |
| `CronWindow.StartMinuteRepeats` | backend/app/services/cron.py:251-256 | On that family every instant before the start gives that same result, so asking again makes no progress |
| `CronWindow.NextRunAdvances` | backend/app/services/cron.py:238-263 | With a clean start, next_run is exact and so lies strictly after `after` |
| `CronWindow.CleanStartExactly` | backend/app/services/cron.py:251-256 | A start is clean, on the minute or in a minute that does not fire or after the window's end, if and only if next_run is exact at every instant |
| `CronWindow.OpenEndedNeverRetires` | backend/app/services/scheduler.py:372-407 | Without an end, next_run is None only for an expression that never fires |
| `CronWindow.NextRuns` | backend/app/services/cron.py:266-284 | The preview lists the first `count` eligible times in increasing order with none missing, and is short only when no more exist; on the failing family it repeats one time outside the window |
| `CronWindow.NextFirings` | backend/app/services/cron.py:125-135 | The same for the form without a window, with no exception |
| `CronParser.ParseField` | backend/app/services/cron.py:146-194 | The entry loop returns the union of the entries' values, or the error of the first bad entry |
| `CronParser.ParseEntry` | backend/app/services/cron.py:158-188 | An accepted entry is a nonempty range inside the field with a positive step |
| `CronParser.ParseValue` | backend/app/services/cron.py:197-213 | An accepted value, named or numeric, lies in the field's range |
| `CronParser.ListMeaning` | backend/app/services/cron.py:157-194 | A field is accepted if and only if every entry is, and stands for exactly the values its entries stand for |
| `CronMeaning.ValueMeans` | backend/app/services/cron.py:197-213 | A number, or a name in any mix of case counted by its place in the list, is accepted if and only if it is in range, and stands for itself alone |
| `CronMeaning.RangeMeans` | backend/app/services/cron.py:178-190 | `a-b` is accepted if and only if low <= a <= b <= high, and stands for exactly the values from a to b |
| `CronMeaning.RangeWithStep` | backend/app/services/cron.py:166-190 | `a-b/k` moreover needs a positive k, and stands for every k-th of them |
| `CronMeaning.StarWithStep` | backend/app/services/cron.py:166-190 | In every field `*/k` is accepted if and only if k is positive, and stands for every k-th value of the whole range |
| `CronMeaning.ValueWithStep` | backend/app/services/cron.py:184-190 | `a/k`: a step of 1 gives a alone, a larger one every k-th value from it to the end of the field |
| `CronMeaning.NegativeStepRefused` | backend/app/services/cron.py:166-174 | A negative step is refused |
| `CronMeaning.ListMeans` | backend/app/services/cron.py:157-190 | `p,q` is accepted if and only if both are, and stands for what either stands for |
| `CronParser.FieldInRange` | backend/app/services/cron.py:146-194 | An accepted field is a nonempty set inside its range |
| `CronParser.Parse` | backend/app/services/cron.py:54-76 | parse and the constructor return the schedule of the five fields, or the first error in their order |
| `CronParser.ParsedIsValid` | backend/app/services/cron.py:54-76 | Whatever parses meets every condition the search relies on: nonempty fields in range, Sunday as 0, a bare star as the whole range |
| `CronParser.Validate` | backend/app/services/cron.py:223-235 | validate accepts if and only if the text parses and fires at some time, whatever the clock reads, and returns the normal form |
| `CronParser.NormalFormMeansTheSame` | backend/app/services/cron.py:64 | The normalised text parses to the same schedule, and normalising twice changes nothing |
| `CronParser.NormalFormIsCanonical` | backend/app/services/cron.py:64 | Two expressions have the same normal form if and only if they have the same words |
| `CronDescribe.DescriptionIsTrue` | backend/app/services/cron.py:298-356 | Every minute, hourly, daily, weekday, monthly and yearly phrase names exactly the minutes the expression matches |
| `CronDescribe.EveryMinutesIsTrueExactly` | backend/app/services/cron.py:316-324 | "Every n minutes" holds, from whatever first minute, if and only if n divides 60 |
| `CronDescribe.SummarisedExactly` | backend/app/services/cron.py:298-356 | A phrase other than the raw expression is given for exactly the shapes with a minute field alone, or with one clock time daily, on weekdays, monthly or yearly |
| `CronBuilder.Clamp` | frontend/src/lib/schedules.ts:24-27 | The result lies in the range, is the low end for a number that is not finite, and otherwise is the truncated number when that is in range |
| `CronBuilder.BuiltCronMeansTheChoice` | frontend/src/lib/schedules.ts:44-61 | Whatever the controls hold, a non-custom expression is accepted as it stands, can fire, is described as what was chosen and fires at exactly the chosen times |
| `CronBuilder.BuiltFiresAsChosen` | frontend/src/lib/schedules.ts:24-61 | A non-custom expression fires at exactly the minutes its controls name: hour and minute are the pieces of the time before and after the first colon, each control the whole number it holds, the nearer end when out of range, the low end when it is no number |
| `CronBuilder.ClockTimeGiven` | frontend/src/lib/schedules.ts:29-35 | "HH:MM" names that hour and minute for every number function that reads two digits, and an empty time names 9:00 |
| `CronBuilder.CustomIsKept` | frontend/src/lib/schedules.ts:45-47 | A custom expression is kept but for the space at its ends |
| `SchedulerSafety.InvKept` | backend/app/services/scheduler.py:349-445 | Every step keeps the consistency invariant, if moreover no edit is overtaken between its read and its write |
| `SchedulerSafety.WinnerSeesCadence` | backend/app/services/scheduler.py:372-395 | A claim that wins finds the cadence its snapshot was read with, and leaves the row consistent |
| `SchedulerSlots.WinningClaim` | backend/app/pgdatabase/schedules.py:161-192 | A claim moves the slot strictly past the tick's clock reading, which is no earlier than the slot claimed |
| `SchedulerSlots.SlotInvKept` | backend/app/services/scheduler.py:349-445 | Every step of any process or user keeps the slot invariant over rows, snapshots, claims, runs and mails, if starts are clean and an edit's slot lies ahead when it lands; edits may otherwise overtake each other |
| `SchedulerSafety.EditedRowOk` | backend/app/controllers/schedules.py:279-299 | An undisturbed edit leaves the row consistent with the cadence it writes |
| `SchedulerSlots.AtMostOnce` | backend/app/pgdatabase/schedules.py:161-192 | Over every such run from the start, no occurrence is claimed twice, no report is mailed twice, only claimed occurrences are mailed, and each claim is for a slot past the clock readings of all earlier claims |
| `SchedulerLosses.LostForGood` | backend/app/services/scheduler.py:372-445 | An occurrence claimed, in no process's hands and not mailed is never mailed, over every further interleaving |
| `SchedulerLosses.CrashLosesRuns` | backend/app/services/scheduler.py:407-445 | The runs a process had claimed and not yet made when it crashed are never mailed |
| `SchedulerLosses.MisfireIsNeverMailed` | backend/app/services/scheduler.py:407-420 | An occurrence claimed when it was older than the grace period is never mailed |
| `SchedulerLosses.DeletedForGood` | backend/app/pgdatabase/schedules.py:119-138 | In any run at all a deleted schedule does not come back and is never claimed again |
| `SchedulerSafety.RowsStayConsistent` | backend/app/services/scheduler.py:303-324 | In every reachable state the next slot is a firing time of the row's current cron in its current window, an inactive row has none, and an active row is below the failure limit |
| `SchedulerRetirement.SlotExactlyWhenLeft` | backend/app/services/scheduler.py:372-405 | In every reachable state an active schedule has a next slot if and only if it fires again in its window, later than any tick that has claimed it |
| `SchedulerRetirement.OpenEndedStaysScheduled` | backend/app/services/scheduler.py:394-405 | In every reachable state an active schedule without an end has a next slot |
| `SchedulerRetirement.RetirementExactly` | backend/app/services/scheduler.py:394-405 | In every reachable state, writing a retirement pauses the schedule; it takes a run away if and only if the row has a slot when the write lands, and then the row's cadence is not the one that was claimed |
| `SchedulerRetirement.OnlyEndedRetire` | backend/app/services/scheduler.py:394-405 | In every reachable state a tick retires only schedules that had an end when it read them; where the row has none now, its cadence has changed since |
| `SchedulerRetirement.AboutToRetireIsReached` | backend/app/services/scheduler.py:372-405 | For every schedule a careful run from the start reaches the point between claiming the last slot and retiring |
| `SchedulerRetirement.RetirementUndoesEdit` | backend/app/services/scheduler.py:394-405 | In any state between claim and retirement of any schedule, every accepted cadence edit that leaves it active is undone: the row takes the edit's cadence, which has a run left, and is paused |
| `SchedulerFaults.UncleanStartSendsTwice` | backend/app/services/cron.py:253-256 | For every schedule whose start is not clean and, if it has an end, lies before it, some run without edits mails one occurrence twice |
| `SchedulerFaults.MailsTwiceExactly` | backend/app/services/cron.py:253-256 | Without edits, schedules of one cadence can mail an occurrence twice, in some interleaving of some number of processes, if and only if the start is not clean and, where there is an end, lies before it |
| `SchedulerFaults.DisturbedEditSendsTwice` | backend/app/controllers/schedules.py:271-299 | For every schedule, an edit that reads before a claim and writes after it lets one occurrence be mailed twice |
| `SchedulerFaults.AtomicEditIsCareful` | backend/app/controllers/schedules.py:271-299 | An edit that gives a clean start, with nothing between its read and its write, meets the conditions of all the safety results |
| `SchedulerFaults.ComputedEditIsAhead` | backend/app/controllers/schedules.py:200-209 | An edit written right after its next run was computed puts its slot ahead, however long ago it read the row |
| `SchedulerFaults.AcceptedEarlier` | backend/app/controllers/schedules.py:279-299 | An edit that still has a run left at a later clock reading had one at every earlier reading, whatever its window |
| `SchedulerFaults.PausedRowKeepsSlot` | backend/app/controllers/schedules.py:271-299 | For every two schedules, a change of cron that crosses a pause leaves a paused schedule with a slot |
| `SchedulerFaults.CrossedEditsMisplaceSlot` | backend/app/controllers/schedules.py:271-299 | A change of cron that crosses a change of the end leaves an active row with a slot at which its cron does not fire |
| `ScheduleStore.Store.ListDue` | backend/app/pgdatabase/schedules.py:140-158 | The oldest `limit` due rows, each once, oldest first; no unlisted due row is older than a listed one |
| `ScheduleStore.Store.ClaimSchedule` | backend/app/pgdatabase/schedules.py:161-192 | Wins if and only if the row is active and still at the expected slot; only then is that one row changed |
| `ScheduleStore.Store.FinishScheduleRun` | backend/app/pgdatabase/schedules.py:195-222 | Writes status and counter to the row if it exists, and clears the slot when it deactivates |
| `ScheduleStore.Store.WriteBackState` | backend/app/services/scheduler.py:303-321 | The counter written is the snapshot's plus one after a failure and zero otherwise; the row is paused if and only if that reaches the limit |
| `ScheduleStore.Store.RunSchedule` | backend/app/services/scheduler.py:186-191 | The outcome of a run is written back if and only if the run was not started by hand |
| `ScheduleStore.Store.ValidatePayload` | backend/app/controllers/schedules.py:121-141 | A payload passes if and only if its cron, if any, fires at some time and its start, if both are given, precedes its end |
| `ScheduleStore.Store.UpdateSchedule` | backend/app/controllers/schedules.py:268-302 | Accepts if and only if the row exists, the payload is valid and an active schedule keeps a run, and then writes what the protocol's edit writes; a refusal changes nothing |
| `ScheduleStore.EditWritesPatch` | backend/app/controllers/schedules.py:279-299 | That write takes exactly the patched fields, gives an active row the exact next run unless its start is not clean and ahead, clears an inactive row's slot and resets the counter on resume |
| `ScheduleStore.EditKeepsRowOk` | backend/app/controllers/schedules.py:279-299 | An edit that gives a clean start keeps a consistent row consistent |
| `ScheduleStore.CreatedAsAsked` | backend/app/controllers/schedules.py:249-262 | A new row holds what was asked for, no failures, and the exact next run unless its start is not clean and lies ahead |
| `ScheduleStore.ClaimIsHandling` | backend/app/services/scheduler.py:372-426 | The protocol's claim of a fresh snapshot, with the retirement that may follow, does to the table what the pass of one process does, and leaves a run exactly within the grace period |
| `ScheduleStore.LateClaimChangesNothing` | backend/app/pgdatabase/schedules.py:161-192 | A claim of a row that is gone, paused or at another slot changes nothing, and the tick goes on with its next row |
| `ScheduleStore.Store.HandleDue` | backend/app/services/scheduler.py:363-426 | One due row is claimed once and retired when nothing follows; its run starts if and only if the slot is within the grace period |
| `ScheduleStore.Store.Tick` | backend/app/services/scheduler.py:349-430 | With no other writer a pass handles the oldest min(50, n) of n due rows, touches no other row and starts exactly the handled rows within grace; still due are exactly the unlisted rows and those whose unclean start traps them |
| `ScheduleStore.HandledNotDue` | backend/app/services/scheduler.py:372-405 | A handled row is still due, however many slots it had missed, if and only if its start is not clean and the pass falls between that minute's beginning and the start |
| `ScheduleStore.PassLeaves` | backend/app/services/scheduler.py:349-430 | After a pass, exactly the due rows that were not listed and the listed ones trapped by an unclean start are due |
| `ScheduleStore.PassProgress` | backend/app/services/scheduler.py:349-430 | When no due row is trapped by an unclean start, n due rows become n - min(50, n) |
| `ScheduleStore.PassKeepsRowsOk` | backend/app/services/scheduler.py:349-430 | A table of consistent rows has no trapped row and is still consistent after a pass |
| `ScheduleStore.InGraceExactly` | backend/app/services/scheduler.py:407-426 | A row's run is started exactly when it was listed and its slot is within the grace period |
| `FailureStreak.Perform` | backend/app/services/scheduler.py:186-191 | The store's own operations, run in the order the source runs them, do to the table what each event of a history does to the row: nothing for a manual run, no counter for a misfire |
| `FailureStreak.CounterIsStreak` | backend/app/services/scheduler.py:303-324 | Over every history of runs, misfires, manual runs and edits of any kind, the counter equals the failed automatic runs since the last other automatic run or resume, and an active schedule is below the limit |
| `FailureStreak.PausedExactly` | backend/app/services/scheduler.py:303-324 | An automatic run that was not the last leaves the schedule paused if and only if that streak has reached the limit |
| `WorkspaceCap.InvKept` | backend/app/pgdatabase/schedules.py:41-72 | Each statement of a create, a commit, a rollback and a delete keep the lock and room invariant |
| `WorkspaceCap.CapHolds` | backend/app/pgdatabase/schedules.py:41-72 | Under every interleaving from a state that keeps the invariant, no workspace ever holds more than 100 schedules |
| `WorkspaceCap.LockComesFree` | backend/app/pgdatabase/schedules.py:41-72 | When a create ends, by commit or rollback, every create waiting for its workspace's lock may take it |
| `WorkspaceCap.QuietStateIsSafe` | backend/app/pgdatabase/schedules.py:12-15 | Every state with no create under way and all workspaces within the cap keeps the invariant |
| `WorkspaceCap.CapNeedsTheLock` | backend/app/pgdatabase/schedules.py:43-48 | Without the lock two creates at 99 both count and both commit, giving 101 |
| `SqlValidate.AliasClause` | backend/app/sqlvalidate.py:42-71 | It finds the nearest enclosing SELECT, and the clause nearest to the column on the way there, or none if a window function lies on that way |
| `SqlValidate.ScopeHasOpaqueSource` | backend/app/sqlvalidate.py:98-119 | True if and only if some enclosing SELECT has a derived table, a CTE or an unknown table among its own sources |
| `SqlValidate.CheckTables` | backend/app/sqlvalidate.py:155-170 | The first pass gives the last-wins alias map, the tables in use and each unknown table once |
| `SqlValidate.CheckColumn` | backend/app/sqlvalidate.py:171-218 | The branches for one column report the problem the specification assigns to it, or none |
| `SqlValidate.ValidateSql` | backend/app/sqlvalidate.py:122-227 | ok if and only if no occurrence has a problem; every problem is reported, once, and nothing else is |
| `SqlScoping.AliasesAreItems` | backend/app/sqlvalidate.py:74-80 | The checker's aliases of a SELECT are the names given to its items, at whatever place |
| `SqlAliases.SelectByAcceptedExactly` | backend/app/sqlvalidate.py:188-218 | For every select list over a table, ORDER BY, GROUP BY or HAVING a name is accepted if and only if the name is a column of the table or, where the clause allows that, is given to an item at any place |
| `SqlScoping.AcceptsResolvedExactly` | backend/app/sqlvalidate.py:8-13 | A statement that resolves lexically is accepted if and only if every column at risk is known somehow or its qualifier's last base table has it |
| `SqlScoping.NoFalseRejection` | backend/app/sqlvalidate.py:8-13 | No false rejection when no name is both a base table's and something else's, no base table the statement uses shares its name with a CTE, and no UNION is ordered |
| `SqlRejections.OrderedUnionRejected` | backend/app/sqlvalidate.py:196-207 | For every table, column and fresh alias, ordering a UNION by the alias resolves and is rejected |
| `SqlRejections.ReusedAliasRejected` | backend/app/sqlvalidate.py:155-185 | One alias for two tables with different columns resolves and is rejected, whichever table the map holds |
| `SqlRejections.NamedLikeTableRejected` | backend/app/sqlvalidate.py:155-185 | A derived table named like the base table it reads resolves and is rejected for a column that only the derived table has |
| `SqlRejections.CteLikeTableRejected` | backend/app/sqlvalidate.py:155-185 | The same for a CTE named like a base table |
| `SqlCatches.InventedColumnCaught` | backend/app/sqlvalidate.py:171-218 | In every statement over base tables, however nested, a column that exists nowhere is reported unless its qualifier names no table |
| `SqlCatches.InventedTableCaught` | backend/app/sqlvalidate.py:155-170 | On any tree a table is reported, as an unknown table, if and only if it is neither in the schema nor the name of a CTE of the statement |
| `SqlTree.WalkMeetsKinds` | backend/app/sqlvalidate.py:147-171 | The walk behind find_all meets exactly the labels of the tree |
| `SqlScoping.RejectedOnlyAtRisk` | backend/app/sqlvalidate.py:8-13 | A statement that resolves lexically is rejected only for columns in the ORDER BY of a UNION or with a shared qualifier |
| `SqlScoping.AliasMapHoldsLast` | backend/app/sqlvalidate.py:155-165 | The alias map sends a name to the last base table, in the order of the walk, that goes by it |
| `SqlScoping.QualifiedExactly` | backend/app/sqlvalidate.py:177-186 | On any tree, a qualified column is accepted if and only if the last base table that goes by its qualifier, if any, has it |
| `SqlScoping.UnqualifiedExactly` | backend/app/sqlvalidate.py:188-218 | On any tree, an unqualified column is accepted if and only if some base table of the statement has it, or there is none, or a SELECT around it reads an unlisted relation, or it sits in a clause that may use the alias it names |
| `SchemaGraph.FkParents` | backend/app/schema_link.py:177-195 | Ends on every schema; marks exactly the tables reachable without passing through one visited before, and returns them without the start |
| `SchemaGraph.FkAncestors` | backend/app/schema_link.py:177-195 | With no visited set: exactly the schema tables one or more foreign keys away, without the start, cycles included |
| `SchemaGraph.AncestorsClosed` | backend/app/schema_link.py:177-183 | A table and its ancestors have no foreign key leading out of them |
| `SchemaGraph.PointsWhereReferred` | backend/app/schema_link.py:189-193 | A table's foreign keys point at exactly the schema tables they refer to: by name alone, or by name, a dot and a column |
| `SchemaGraph.ReferredIsAncestor` | backend/app/schema_link.py:189-194 | A foreign key written "table.column" makes that table an ancestor and refers to no other |
| `TableScore.ScoreTable` | backend/app/schema_link.py:135-162 | The loops compute the points that the lemmas below are about |
| `TableScore.PointsInWords` | backend/app/schema_link.py:135-162 | Three points for a word of the name; for columns a point a word and half a point more in a key, primary or foreign; two for a value that shares a word; columns and values count four at most each |
| `TableScore.PointsGrow` | backend/app/schema_link.py:135-162 | More question words never cost a table points, and points are never negative |
| `TableScore.PointsZero` | backend/app/schema_link.py:135-162 | A table scores zero if and only if the question shares no word with its name, columns or values |
| `TableScore.NameOutweighsWidth` | backend/app/schema_link.py:41-42 | Three more name matches outweigh any number of columns and values |
| `Ranking.RankedRanks` | backend/app/schema_link.py:250-254 | Sorting yields every table once, each ahead of those it outranks |
| `Ranking.RankingUnique` | backend/app/schema_link.py:250-254 | There is only one such ranking |
| `Ranking.AmongFirst` | backend/app/schema_link.py:256 | A table is among the first k if and only if fewer than k tables outrank it |
| `Ranking.TextBeforeExactly` | backend/app/schema_link.py:250 | Names compare by the first place where they differ, a proper prefix first |
| `SchemaLink.RankOrderOrders` | backend/app/schema_link.py:250-254 | Both sort keys order the tables strictly and totally, ties included |
| `SchemaLink.RankedBestFirst` | backend/app/schema_link.py:250-254 | The ranking is by score, ties by name; when nothing matched, by number of rows, ties in the order of the schema |
| `SchemaLink.EachSignalAdds` | backend/app/schema_link.py:237-248 | Without signals a table has its points; a verified, context, catalog or shortlist table adds 5, 8, 6 or 6 to the tables it names, context and shortlist ignoring case, and nothing to others |
| `SchemaLink.ScoreTables` | backend/app/schema_link.py:237-248 | The scoring loop gives every table its points and its bonuses |
| `SchemaLink.AddAncestors` | backend/app/schema_link.py:258-260 | In any order of the seeds, the result is the seeds and all their ancestors |
| `SchemaLink.AddJunctions` | backend/app/schema_link.py:262-268 | One pass in schema order adds the tables whose foreign keys lead to two of those selected so far |
| `SchemaLink.JunctionsExactly` | backend/app/schema_link.py:262-268 | Although it goes by the growing selection, the pass adds exactly the tables whose foreign keys lead to two of those it starts from |
| `SchemaLink.JunctionsIgnoreOrder` | backend/app/schema_link.py:262-268 | Any two orders of the same tables give the same selection |
| `SchemaLink.LinkRelevantTables` | backend/app/schema_link.py:198-280 | The method returns the selection that the lemmas below are about |
| `SchemaLink.LinkedAreTables` | backend/app/schema_link.py:210-211 | Distinct schema tables, at most max_tables + 4 |
| `SchemaLink.LinkedStartsWithSeeds` | backend/app/schema_link.py:256-273 | The selection begins with the max_tables best by rank |
| `SchemaLink.LinkedInRankOrder` | backend/app/schema_link.py:270-273 | The whole selection is in rank order |
| `SchemaLink.SelectedExactly` | backend/app/schema_link.py:256-268 | Before the cut-off the selection is the seeds, their ancestors, and the tables whose foreign keys lead to two of these |
| `SchemaLink.ExtrasConnect` | backend/app/schema_link.py:258-268 | Every further table is an ancestor of a seed or a junction of two tables among the seeds and their ancestors |
| `SchemaLink.ShownExactly` | backend/app/schema_link.py:256-273 | A table is shown if and only if it is a seed, an ancestor of one or a junction of two of these, and fewer than max_tables + 4 such tables outrank it |
| `SchemaLink.SeedsJoinable` | backend/app/schema_link.py:221-224 | Before the cut-off, no foreign key of a seed or of its ancestors leads out of them |
| `SchemaLink.SelectionClosedExactly` | backend/app/schema_link.py:221-224 | Before the cut-off, no foreign key leads out of the selection if and only if each ancestor of each junction of the seeds and their ancestors is one of these or such a junction itself |
| `SchemaLink.ShownClosedExactly` | backend/app/schema_link.py:221-224 | No foreign key leads out of the shown tables if and only if that holds of the junctions whose rank leaves room for them, and there is room for each such ancestor of each table there is room for |
| `SchemaLink.ShownClosedWithRoom` | backend/app/schema_link.py:270-273 | Where the seeds, their ancestors and their junctions are at most max_tables + 4, exactly these are shown, and only the junctions decide |
| `SchemaLink.TwoAncestorsSuffice` | backend/app/schema_link.py:262-268 | Where no table has more than two ancestors, no foreign key leads out of the selection |
| `SchemaLink.LinkedIgnoresOrder` | backend/app/schema_link.py:250-273 | Whenever something matched, the same tables are shown in the same order, whatever the order of the schema |
| `SchemaLink.ShortlistKeepsSeed` | backend/app/schema_link.py:235-250 | Shortlisting a seed keeps it a seed if and only if something matched before, or fewer than max_tables names equal to it ignoring case sort before it |
| `SchemaLink.ShortlistOnlyHelps` | backend/app/schema_link.py:235-250 | With names distinct ignoring case, shortlisting never drops a seed, and makes any table a seed when nothing matched |
| `SchemaLinkGaps.JunctionLosesTable` | backend/app/schema_link.py:262-268 | For every number of seeds, a junction between them that also points at another table is shown without that table, with room to spare |
| `SchemaLinkGaps.CountsDifferExactly` | backend/app/schema_link.py:262-268 | Counting everything a table's foreign keys lead to differs from counting what they name if and only if the selected tables they name are fewer than two and further selected ancestors make up the difference |
| `SchemaLinkGaps.OneKeyBridges` | backend/app/schema_link.py:262-268 | On any schema and question, one foreign key to a seed or ancestor that has an ancestor itself makes a junction |
| `SchemaLinkGaps.ChildTakenForJunction` | backend/app/schema_link.py:262-268 | For every number of seeds, a table with one foreign key into the seeds and their ancestors, to a seed that has an ancestor, is selected as a junction |
| `SchemaLinkGaps.CutOffLosesParent` | backend/app/schema_link.py:258-273 | On every schema and for every number of seeds, a seed with five parents or more among the other tables is shown without one of them when only the seeds were verified before |
| `SchemaLinkGaps.ShortlistDropsSeed` | backend/app/schema_link.py:235-254 | Nothing matched, the largest table is a seed, and shortlisting it makes it a seed no longer, for every number of seeds |
| `SchemaRetry.ExpandLinkedTables` | backend/app/schema_link.py:283-310 | First exactly the real tables the statement named that were not shown, then only their ancestors; no name twice ignoring case, and every wanted name is then shown |
| `SchemaRetry.RealTableIsLast` | backend/app/schema_link.py:297-302 | A name means the last table in the schema's order that equals it ignoring case |
| `SchemaRetry.NoRealTable` | backend/app/schema_link.py:297-302 | A name that equals no table's ignoring case means none |
| `SchemaRetry.NamedTablesShown` | backend/app/schema_link.py:283-310 | Every real table a failed statement named is shown next, with all its ancestors if it was missed |
| `SchemaRetry.NothingAddedExactly` | backend/app/schema_link.py:293-294 | Nothing is added if and only if the statement named no real table that was not shown |
| `SchemaRetry.WidenedExactly` | backend/app/schema_link.py:283-310 | With names distinct ignoring case, the tables shown next are those shown before, the missed ones and their ancestors, and no others |
| `RepairLoop.Judge` | backend/app/repair.py:110-147 | Validation decides first, execution only for what passed; an accepted attempt's rows are those the executor gave for that statement in that attempt without an error, and no other attempt has rows |
| `RepairLoop.LinkedTables.OnFailure` | backend/app/controllers/query.py:240-245 | A failed attempt appends exactly a widening list to the shown tables, or nothing when the hook raises |
| `RepairLoop.LinkedTables.RunRepairLoop` | backend/app/repair.py:98-158 | The loop makes a run of the repair relation from the given list and ends with its first accepted attempt, or with its last at the limit or out of time, handing back that attempt's statement, restatement and rows; or it ends where the generator, the validator, the executor or the hook raised |
| `RepairLoop.AttemptsBounded` | backend/app/repair.py:103-105 | At most max(1, max_iterations) attempts, none but the first started after the time is used up |
| `RepairLoop.OnlyLastAccepted` | backend/app/repair.py:110-147 | Only the last attempt can be an accepted one |
| `RepairLoop.FeedbackShows` | backend/app/repair.py:58-68 | The correction prompt holds the failed statement, and a line for each of its problems |
| `RepairLoop.NextIsTold` | backend/app/repair.py:103-130 | Along every run each later attempt is the candidate given for a prompt that holds the statement that failed before and each of its problems; the first is asked with an empty prompt |
| `RepairLoop.ShownGrows` | backend/app/controllers/query.py:202-245 | Along a whole run the shown tables only grow, by appending |
| `RepairLoop.ShownStayTables` | backend/app/controllers/query.py:202-245 | Along a whole run the shown tables stay distinct tables of the schema |
| `RepairLoop.FailureTeaches` | backend/app/repair.py:28-32 | Every attempt after a failed one is shown each real table that one named, with all its ancestors if it was missed |
| `RepairLoop.RunQuery` | backend/app/controllers/query.py:202-255 | The tables reported as used begin with the linked ones and are distinct schema tables, and the outcome is the loop's |

## Left out

- SchedulerSlots.AtMostOnce: holds for runs whose starts are clean and whose edits, when they land, put the slot ahead; the faults above show that it fails without either.
- SchedulerSafety.RowsStayConsistent: moreover for edits that are not overtaken; the two crossing edits show why.
- ScheduleStore.Store.Tick: assumes no other writer and no failing database call; the protocol modules cover both.
- ScheduleStore.Store.UpdateSchedule: the atomic edit only; the read and the write as separate steps are in the protocol.
- FailureStreak.CounterIsStreak: a single process with no edit during a run in flight and no failed write-back, since otherwise the counter is written from an older snapshot.
- SqlScoping.NoFalseRejection: conditions are on the whole statement; the exact form is AcceptsResolvedExactly.
- Schema columns, identifiers and aliases in SQL are taken as already lower-cased; sqlglot's parsing, the two early answers for empty and unparseable text, and the wording and order of error messages are not modelled.
- FROM and JOIN lists are children of their SELECT in the tree, as the checker walks them; other relation syntax such as lateral or table functions is an ordinary node.
- Database sessions, the SQL text of the queries, and the order of rows with equal slots: each database operation is one step. Two due rows with the same slot may be listed in either order, and in the protocol any due batch may be listed.
- Report execution, delivery conditions, rendering, email, semaphores, timeouts and cancellation: a run ends with any status, and a failed one may have delivered.
- Manual runs in the protocol: they write neither slot nor counter, as ScheduleStore.Store.RunSchedule states.
- The run history and its trimming, recipients, names and the other fields that a payload check covers.
- Timezone conversion, the year limits of Python dates, and the Unicode and underscore forms that int() accepts: instants are UTC, years unbounded and numbers plain ASCII.
- The text of summary phrases: a phrase is the set of facts it prints. JavaScript's Number() is an arbitrary function from text to a number, and its trim() is taken for Python's strip(), from which it differs on the control characters 28 to 31 and outside ASCII.
- Stemming, the glossary, the catalog and the search of verified SQL: the question's words, the stemmer and the sets of boosted tables are parameters. Scores are exact reals; every weight is a multiple of one half.
- Lower-casing in schema linking is an arbitrary function; what names a statement mentions is an arbitrary function of its text.
- The language model, the prompt text, confidence, and what the answer carries besides attempts and tables. Any callable may raise; the messages then shown are not modelled. A candidate that is no mapping counts as one with empty text.
- The streaming form of the loop, permissions, membership, routes, migrations and the rest of the user interface.
