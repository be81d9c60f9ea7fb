/** Firing times inside a schedule's start and end window: next_run and next_runs,
    and exactly when the one-minute step back from starts_at goes wrong. */
module CronWindow {
  import opened Wrappers
  import opened CronSchedule

  /** The start and end of a schedule's active window, either of them open. */
  datatype Window = Window(starts: Option<int>, ends: Option<int>) {
    predicate Holds(t: int) {
      (starts.Some? ==> starts.value <= t) && (ends.Some? ==> t <= ends.value)
    }

    /** What validate_payload asks of a start and an end that are both given. */
    predicate Ordered() {
      starts.Some? && ends.Some? ==> starts.value < ends.value
    }
  }

  /** A firing time after `after` that lies in the window. */
  ghost predicate Eligible(s: Schedule, after: int, w: Window, t: int) {
    after < t && s.FiresAt(t) && w.Holds(t)
  }

  /** What next_run is for: the first eligible time, or None when there is none. */
  ghost predicate IsNextRun(s: Schedule, after: int, w: Window, r: Option<int>) {
    match r
    case None => forall t :: !Eligible(s, after, w, t)
    case Some(t) => Eligible(s, after, w, t) && forall u :: Eligible(s, after, w, u) ==> t <= u
  }

  function Cursor(after: int, w: Window): int {
    if w.starts.Some? && w.starts.value > after then w.starts.value - MICROS_PER_MINUTE else after
  }

  /** What next_run computes. */
  ghost function NextRun(s: Schedule, after: int, w: Window): (r: Option<int>)
    requires s.Valid()
  {
    var upcoming := NextAfter(s, Cursor(after, w));
    if upcoming.Some? && w.ends.Some? && upcoming.value > w.ends.value then None else upcoming
  }

  method SearchNextRun(s: Schedule, after: int, w: Window) returns (r: Option<int>)
    requires s.Valid()
    ensures r == NextRun(s, after, w)
  {
    var cursor := after;
    if w.starts.Some? {
      var begin := w.starts.value;
      if begin > cursor {
        cursor := begin - MICROS_PER_MINUTE;
      }
    }
    var upcoming := SearchNextAfter(s, cursor);
    if upcoming.None? {
      return None;
    }
    if w.ends.Some? && upcoming.value > w.ends.value {
      return None;
    }
    return upcoming;
  }

  function WholeMinute(t: int): int {
    (t / MICROS_PER_MINUTE) * MICROS_PER_MINUTE
  }

  /** The inputs on which the step back overshoots: the start lies ahead and inside
      a firing minute, and the window is still open when that minute begins. */
  predicate StepsBackTooFar(s: Schedule, after: int, w: Window) {
    && w.starts.Some? && after < w.starts.value
    && w.starts.value % MICROS_PER_MINUTE != 0
    && s.FiresAt(WholeMinute(w.starts.value))
    && (w.ends.Some? ==> WholeMinute(w.starts.value) <= w.ends.value)
  }

  /** A start is safe when it is on a whole minute, or its minute does not fire, or the
      window has closed before that minute begins. */
  predicate CleanStart(s: Schedule, w: Window) {
    w.starts.Some? ==>
      || w.starts.value % MICROS_PER_MINUTE == 0
      || !s.FiresAt(WholeMinute(w.starts.value))
      || (w.ends.Some? && w.ends.value < WholeMinute(w.starts.value))
  }

  /** A start is clean exactly when next_run is exact whenever it is asked. */
  lemma CleanStartExactly(s: Schedule, w: Window)
    requires s.Valid()
    ensures CleanStart(s, w) <==> forall after :: IsNextRun(s, after, w, NextRun(s, after, w))
  {
    if CleanStart(s, w) {
      forall after ensures IsNextRun(s, after, w, NextRun(s, after, w)) {
        NextRunExactly(s, after, w);
      }
    } else {
      NextRunExactly(s, w.starts.value - 1, w);
    }
  }

  /** Stepping back one minute from an unaligned start reaches exactly one whole
      minute that precedes the start. */
  lemma OnlyTheStartMinute(start: int, t: int)
    requires t % MICROS_PER_MINUTE == 0
    ensures start - MICROS_PER_MINUTE < t < start ==> start % MICROS_PER_MINUTE != 0 && t == WholeMinute(start)
    ensures start % MICROS_PER_MINUTE != 0 ==> start - MICROS_PER_MINUTE < WholeMinute(start) < start
  {
    if start - MICROS_PER_MINUTE < t < start {
      var k := t / MICROS_PER_MINUTE;
      assert t == k * MICROS_PER_MINUTE;
      assert start / MICROS_PER_MINUTE == k;
    }
  }

  /** The firing times strictly after the cursor are the firing times that are after
      `after` and not before the start, plus the start's own minute when it fires. */
  lemma AfterCursor(s: Schedule, after: int, w: Window, t: int)
    requires s.FiresAt(t)
    ensures Cursor(after, w) < t <==>
      || (after < t && (w.starts.Some? ==> w.starts.value <= t))
      || (w.starts.Some? && after < w.starts.value && w.starts.value % MICROS_PER_MINUTE != 0 && t == WholeMinute(w.starts.value))
  {
    if w.starts.Some? {
      OnlyTheStartMinute(w.starts.value, t);
    }
  }

  /** next_run is exact on every input except the family named by StepsBackTooFar,
      and wrong on every member of that family. */
  lemma NextRunExactly(s: Schedule, after: int, w: Window)
    requires s.Valid()
    ensures IsNextRun(s, after, w, NextRun(s, after, w)) <==> !StepsBackTooFar(s, after, w)
  {
    if StepsBackTooFar(s, after, w) {
      StartMinuteReturned(s, after, w);
    } else {
      NextRunExact(s, after, w);
    }
  }

  /** On the failing family next_run returns the whole minute before the start. */
  lemma StartMinuteReturned(s: Schedule, after: int, w: Window)
    requires s.Valid() && StepsBackTooFar(s, after, w)
    ensures NextRun(s, after, w) == Some(WholeMinute(w.starts.value))
    ensures WholeMinute(w.starts.value) < w.starts.value
  {
    var f := WholeMinute(w.starts.value);
    OnlyTheStartMinute(w.starts.value, f);
    NeverIsIndependentOfNow(s, Cursor(after, w), Cursor(after, w));
    var u := NextAfter(s, Cursor(after, w)).value;
    assert u <= f;
    OnlyTheStartMinute(w.starts.value, u);
  }

  lemma NextRunExact(s: Schedule, after: int, w: Window)
    requires s.Valid() && !StepsBackTooFar(s, after, w)
    ensures IsNextRun(s, after, w, NextRun(s, after, w))
  {
    var cursor := Cursor(after, w);
    var upcoming := NextAfter(s, cursor);
    NeverIsIndependentOfNow(s, cursor, cursor);
    forall t | Eligible(s, after, w, t) ensures upcoming.Some? && upcoming.value <= t {
      AfterCursor(s, after, w, t);
    }
    if upcoming.Some? {
      AfterCursor(s, after, w, upcoming.value);
    }
  }

  /** Asking again from the time just returned gives the same time: on the failing
      family a preview repeats one time, and a claim leaves the slot where it was. */
  lemma StartMinuteRepeats(s: Schedule, after: int, w: Window)
    requires s.Valid() && StepsBackTooFar(s, after, w)
    ensures var t := NextRun(s, after, w).value;
      NextRun(s, after, w).Some? && forall later :: later < w.starts.value ==> NextRun(s, later, w) == Some(t)
    ensures NextRun(s, after, w).value < w.starts.value
  {
    StartMinuteReturned(s, after, w);
    forall later | later < w.starts.value
      ensures NextRun(s, later, w) == NextRun(s, after, w)
    {
      StartMinuteReturned(s, later, w);
    }
  }

  /** With a clean start, next_run lands strictly after `after` and in the window. */
  lemma NextRunAdvances(s: Schedule, after: int, w: Window)
    requires s.Valid() && CleanStart(s, w)
    ensures IsNextRun(s, after, w, NextRun(s, after, w))
  {
    NextRunExactly(s, after, w);
  }

  /** A schedule that can fire and has no end always has a next run. */
  lemma OpenEndedNeverRetires(s: Schedule, after: int, w: Window)
    requires s.Valid()
    ensures w.ends.None? ==> (NextRun(s, after, w).Some? <==> exists t :: s.FiresAt(t))
  {
    NeverIsIndependentOfNow(s, Cursor(after, w), after);
    if NextAfter(s, after).Some? {
      assert s.FiresAt(NextAfter(s, after).value);
    }
  }

  function Max(a: int, b: int): int {
    if a < b then b else a
  }

  /** The list holds the first `count` eligible times, oldest first, none missing,
      and is short only when there are no more. */
  ghost predicate FirstEligible(s: Schedule, count: int, after: int, w: Window, out: seq<int>) {
    && |out| <= Max(0, count)
    && (forall i, j :: 0 <= i < j < |out| ==> out[i] < out[j])
    && (forall t :: t in out ==> Eligible(s, after, w, t))
    && (forall t :: Eligible(s, after, w, t) && t !in out ==> |out| == Max(0, count) && forall u :: u in out ==> u < t)
  }

  /** next_runs. On the failing family the list is instead `count` copies of one
      time that lies before the window opens. */
  method NextRuns(s: Schedule, count: int, after: int, w: Window) returns (out: seq<int>)
    requires s.Valid()
    ensures !StepsBackTooFar(s, after, w) ==> FirstEligible(s, count, after, w, out)
    ensures StepsBackTooFar(s, after, w) ==>
      |out| == Max(0, count) && forall t :: t in out ==> t == WholeMinute(w.starts.value) && !w.Holds(t)
  {
    var cursor := after;
    out := [];
    for i := 0 to Max(0, count)
      invariant |out| == i && StepsBackTooFar(s, cursor, w) == StepsBackTooFar(s, after, w)
      invariant StepsBackTooFar(s, after, w) ==>
        forall t :: t in out ==> t == WholeMinute(w.starts.value) && !w.Holds(t)
      invariant !StepsBackTooFar(s, after, w) ==> ListedUpTo(s, after, w, out, cursor)
    {
      var upcoming := SearchNextRun(s, cursor, w);
      if StepsBackTooFar(s, after, w) {
        StartMinuteReturned(s, cursor, w);
      } else {
        NextRunExactly(s, cursor, w);
      }
      if upcoming.None? {
        assert forall t :: !Eligible(s, cursor, w, t);
        break;
      }
      if !StepsBackTooFar(s, after, w) {
        ListOneMore(s, after, w, out, cursor, upcoming.value);
      }
      out := out + [upcoming.value];
      cursor := upcoming.value;
    }
  }

  /** The list holds every eligible time up to the cursor, in order. */
  ghost predicate ListedUpTo(s: Schedule, after: int, w: Window, out: seq<int>, cursor: int) {
    && after <= cursor
    && (forall p, q :: 0 <= p < q < |out| ==> out[p] < out[q])
    && (forall t :: t in out <==> Eligible(s, after, w, t) && t <= cursor)
  }

  lemma ListOneMore(s: Schedule, after: int, w: Window, out: seq<int>, cursor: int, next: int)
    requires ListedUpTo(s, after, w, out, cursor)
    requires IsNextRun(s, cursor, w, Some(next))
    ensures ListedUpTo(s, after, w, out + [next], next)
  {
    forall t ensures t in out + [next] <==> Eligible(s, after, w, t) && t <= next {
      if Eligible(s, after, w, t) && t <= next && t !in out {
        assert Eligible(s, cursor, w, t);
      }
    }
    assert forall p :: 0 <= p < |out| ==> out[p] in out;
  }

  const ALWAYS := Window(None, None)

  /** The next_runs method of a schedule, which knows no window. */
  method NextFirings(s: Schedule, count: int, after: int) returns (out: seq<int>)
    requires s.Valid()
    ensures FirstEligible(s, count, after, ALWAYS, out)
  {
    var cursor := after;
    out := [];
    for i := 0 to Max(0, count)
      invariant |out| == i && ListedUpTo(s, after, ALWAYS, out, cursor)
    {
      var upcoming := SearchNextAfter(s, cursor);
      if upcoming.None? {
        break;
      }
      ListOneMore(s, after, ALWAYS, out, cursor, upcoming.value);
      out := out + [upcoming.value];
      cursor := upcoming.value;
    }
  }
}
