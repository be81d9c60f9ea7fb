/** A parsed cron expression and the bounded search for its next firing time.

    Instants are integer microseconds in UTC, counted so that day number n starts
    at n * MICROS_PER_MINUTE * MINUTES_PER_DAY. `minute k` is the whole minute
    starting at instant k * MICROS_PER_MINUTE. */
module CronSchedule {
  import opened Calendar
  import opened Wrappers

  const MICROS_PER_MINUTE := 60_000_000
  const MINUTES_PER_DAY := 1440
  const MAX_SEARCH_DAYS := 366 * 8

  datatype Schedule = Schedule(
    minutes: set<int>,
    hours: set<int>,
    days: set<int>,
    months: set<int>,
    weekdays: set<int>,
    domRestricted: bool,
    dowRestricted: bool)
  {
    /** What parsing guarantees: every field is a nonempty set inside its range,
        Sunday is spelled 0, and a bare * means the whole range. */
    ghost predicate Valid() {
      && (exists v :: v in minutes) && (forall v :: v in minutes ==> 0 <= v <= 59)
      && (exists v :: v in hours) && (forall v :: v in hours ==> 0 <= v <= 23)
      && (exists v :: v in days) && (forall v :: v in days ==> 1 <= v <= 31)
      && (exists v :: v in months) && (forall v :: v in months ==> 1 <= v <= 12)
      && (exists v :: v in weekdays) && (forall v :: v in weekdays ==> 0 <= v <= 6)
      && (!domRestricted ==> forall v :: 1 <= v <= 31 ==> v in days)
      && (!dowRestricted ==> forall v :: 0 <= v <= 6 ==> v in weekdays)
    }

    /** Vixie cron's day rule: with both fields restricted, either may hit. */
    predicate DayMatches(d: Date)
      requires d.Valid()
    {
      var domHit := d.day in days;
      var dowHit := d.CronWeekday() in weekdays;
      if domRestricted && dowRestricted then domHit || dowHit
      else if domRestricted then domHit
      else if dowRestricted then dowHit
      else true
    }

    predicate FiresOn(d: Date)
      requires d.Valid()
    {
      d.month in months && DayMatches(d)
    }

    /** Whether minute k is a firing minute. */
    predicate MatchesMinute(k: int) {
      FiresAtClock(DayOf(k), HourOf(k), MinuteOf(k))
    }

    predicate FiresAtClock(day: int, hour: int, minute: int) {
      FiresOn(DateAt(day)) && hour in hours && minute in minutes
    }

    /** Whether the minute holding an instant is a firing minute; seconds are ignored. */
    predicate Matches(t: int) {
      MatchesMinute(t / MICROS_PER_MINUTE)
    }

    /** A firing time: a whole minute that matches. */
    predicate FiresAt(t: int) {
      t % MICROS_PER_MINUTE == 0 && Matches(t)
    }
  }

  function DayOf(k: int): int {
    k / MINUTES_PER_DAY
  }

  function HourOf(k: int): (h: int)
    ensures 0 <= h <= 23
  {
    (k % MINUTES_PER_DAY) / 60
  }

  function MinuteOf(k: int): (m: int)
    ensures 0 <= m <= 59
  {
    (k % MINUTES_PER_DAY) % 60
  }

  function MinuteAt(day: int, hour: int, minute: int): int {
    day * MINUTES_PER_DAY + hour * 60 + minute
  }

  lemma MinuteAtParts(day: int, hour: int, minute: int)
    requires 0 <= hour <= 23 && 0 <= minute <= 59
    ensures var k := MinuteAt(day, hour, minute);
      DayOf(k) == day && HourOf(k) == hour && MinuteOf(k) == minute
  {
    var k := MinuteAt(day, hour, minute);
    DayParts(day, hour * 60 + minute);
    HourParts(hour, minute);
  }

  lemma DayParts(day: int, rest: int)
    requires 0 <= rest < 1440
    ensures (day * 1440 + rest) / 1440 == day && (day * 1440 + rest) % 1440 == rest
  {
  }

  lemma HourParts(hour: int, minute: int)
    requires 0 <= minute < 60
    ensures (hour * 60 + minute) / 60 == hour && (hour * 60 + minute) % 60 == minute
  {
  }

  lemma MinuteAtOfParts(k: int)
    ensures MinuteAt(DayOf(k), HourOf(k), MinuteOf(k)) == k
  {
    var rest := k % MINUTES_PER_DAY;
    assert rest == 60 * (rest / 60) + rest % 60;
    assert k == MINUTES_PER_DAY * (k / MINUTES_PER_DAY) + rest;
  }

  // ── When an expression can fire at all ─────────────────────────────

  function LongestMonth(month: int): int {
    if month == 2 then 29
    else if month == 4 || month == 6 || month == 9 || month == 11 then 30
    else 31
  }

  /** Readable off the parsed fields alone: only an expression that restricts the
      day of the month and nothing else can be impossible, and then only when no
      listed month is ever long enough for a listed day. */
  ghost predicate Satisfiable(s: Schedule) {
    s.domRestricted && !s.dowRestricted ==>
      exists month, day :: month in s.months && day in s.days && day <= LongestMonth(month)
  }

  lemma MonthFitsYear(year: int, month: int)
    requires 1 <= month <= 12
    ensures DaysInMonth(year, month) == if month == 2 && !IsLeap(year) then 28 else LongestMonth(month)
  {
  }

  /** A date in the year after next's start is at most two years off. */
  lemma NextYearDate(n: int, month: int, day: int) returns (d: Date)
    requires 1 <= month <= 12 && 1 <= day
    requires forall y :: day <= DaysInMonth(y, month)
    ensures d.Valid() && d.month == month && d.day == day
    ensures n < Ordinal(d) <= n + 732
  {
    OrdinalOfDateAt(n);
    var y := DateAt(n).year;
    DayOfYear(DateAt(n));
    d := Date(y + 1, month, day);
    assert day <= DaysInMonth(y + 1, month);
    DayOfYear(d);
    YearsMonotone(y, y + 1);
    YearsMonotone(y + 1, y + 2);
  }

  /** A day of the month within a month that can hold it recurs within 2921 days. */
  lemma DayOfMonthRecurs(n: int, month: int, day: int) returns (d: Date)
    requires 1 <= month <= 12 && 1 <= day <= LongestMonth(month)
    ensures d.Valid() && d.month == month && d.day == day
    ensures n < Ordinal(d) <= n + 2921
  {
    if month == 2 && day == 29 {
      var year := NextLeapDay(n);
      d := Date(year, 2, 29);
    } else {
      forall y ensures day <= DaysInMonth(y, month) {
        MonthFitsYear(y, month);
      }
      d := NextYearDate(n, month, day);
    }
  }

  /** The day numbers from n on reach a weekday after this many steps. */
  function DaysUntil(n: int, weekday: int): (r: int)
    ensures 0 <= r <= 6
  {
    (weekday - n) % 7
  }

  lemma WeekdayReached(n: int, weekday: int)
    requires 0 <= weekday <= 6
    ensures (Weekday(n + DaysUntil(n, weekday)) + 1) % 7 == weekday
  {
    var q := (weekday - n) / 7;
    var m := n + DaysUntil(n, weekday);
    assert m == 7 * (-q) + weekday;
    var shifted := if weekday == 0 then 6 else weekday - 1;
    DivMod7(m + 6, if weekday == 0 then -q else -q + 1, shifted);
    DivMod7(shifted + 1, if weekday == 0 then 1 else 0, weekday);
  }

  lemma DivMod7(n: int, q: int, r: int)
    requires n == 7 * q + r && 0 <= r < 7
    ensures n / 7 == q && n % 7 == r
  {
  }

  /** Every weekday falls in the first seven days of every month. */
  lemma WeekdayRecurs(n: int, month: int, weekday: int) returns (d: Date)
    requires 1 <= month <= 12 && 0 <= weekday <= 6
    ensures d.Valid() && d.month == month && d.CronWeekday() == weekday
    ensures n < Ordinal(d) <= n + 740
  {
    var first := NextYearDate(n, month, 1);
    d := InFirstWeek(first, weekday);
  }

  lemma InFirstWeek(first: Date, weekday: int) returns (d: Date)
    requires first.Valid() && first.day == 1 && 0 <= weekday <= 6
    ensures d.Valid() && d.month == first.month && d.CronWeekday() == weekday
    ensures Ordinal(first) <= Ordinal(d) <= Ordinal(first) + 6
  {
    var shift := DaysUntil(Ordinal(first), weekday);
    d := Date(first.year, first.month, 1 + shift);
    assert Ordinal(d) == Ordinal(first) + shift;
    WeekdayReached(Ordinal(first), weekday);
  }

  ghost function AnyOf(values: set<int>): (v: int)
    requires exists v :: v in values
    ensures v in values
  {
    var v :| v in values;
    v
  }

  /** The search bound is wide enough: from any day, a satisfiable expression has
      a firing day within the 366 * 8 days the search is willing to look. */
  lemma FiringDayWithinBound(s: Schedule, n: int) returns (d: Date)
    requires s.Valid() && Satisfiable(s)
    ensures d.Valid() && s.FiresOn(d)
    ensures n < Ordinal(d) <= n + MAX_SEARCH_DAYS
  {
    var month := AnyOf(s.months);
    if s.dowRestricted {
      var weekday := AnyOf(s.weekdays);
      d := WeekdayRecurs(n, month, weekday);
    } else if s.domRestricted {
      var m, day :| m in s.months && day in s.days && day <= LongestMonth(m);
      d := DayOfMonthRecurs(n, m, day);
    } else {
      d := DayOfMonthRecurs(n, month, 1);
    }
  }

  /** The bound cannot be shrunk below 2921 days: 29 February across 2100. */
  lemma LeapDayGapIsReal(s: Schedule, d: Date)
    requires s.Valid() && s.days == {29} && s.months == {2} && !s.dowRestricted && s.domRestricted
    requires d.Valid() && s.FiresOn(d) && Ordinal(Date(2096, 2, 29)) < Ordinal(d)
    ensures Ordinal(d) >= Ordinal(Date(2096, 2, 29)) + 2921
  {
    assert d.month == 2 && d.day == 29 && IsLeap(d.year);
    var e := Date(2096, 2, 29);
    MonthTable(d.year);
    MonthTable(2096);
    if d.year < 2104 {
      if d.year <= 2096 {
        YearsMonotone(d.year, 2096);
      }
      assert false;
    }
    YearsMonotone(2104, d.year);
    assert DaysBeforeYear(2104) == DaysBeforeYear(2096) + 2921;
  }

  /** From every instant a satisfiable expression has a later firing minute. */
  lemma FiresEventually(s: Schedule, k: int) returns (next: int)
    requires s.Valid() && Satisfiable(s)
    ensures k <= next && s.MatchesMinute(next)
    ensures DayOf(k) < DayOf(next) <= DayOf(k) + MAX_SEARCH_DAYS
  {
    var d := FiringDayWithinBound(s, DayOf(k));
    var hour := AnyOf(s.hours);
    var minute := AnyOf(s.minutes);
    next := MinuteAt(Ordinal(d), hour, minute);
    MinuteAtParts(Ordinal(d), hour, minute);
    DateAtOfOrdinal(d);
    MinuteAtOfParts(k);
  }

  /** Satisfiable is exact: an expression fires at some time if and only if its
      fields say so. */
  lemma SatisfiableExactly(s: Schedule)
    requires s.Valid()
    ensures Satisfiable(s) <==> exists k :: s.MatchesMinute(k)
  {
    if Satisfiable(s) {
      var k := FiresEventually(s, 0);
    }
    if k :| s.MatchesMinute(k) {
      var d := DateAt(DayOf(k));
      MonthFitsYear(d.year, d.month);
      assert s.domRestricted && !s.dowRestricted ==>
          d.month in s.months && d.day in s.days && d.day <= LongestMonth(d.month);
    }
  }

  // ── The next firing time, as a specification ───────────────────────

  ghost function FirstBetween(s: Schedule, k: int, last: int): (r: int)
    requires k <= last && s.MatchesMinute(last)
    ensures k <= r <= last && s.MatchesMinute(r)
    ensures forall j :: k <= j < r ==> !s.MatchesMinute(j)
    decreases last - k
  {
    if s.MatchesMinute(k) then k else FirstBetween(s, k + 1, last)
  }

  /** t is the first firing time strictly after `after`. */
  ghost predicate IsFirstAfter(s: Schedule, after: int, t: int) {
    && after < t && s.FiresAt(t)
    && forall u :: after < u < t ==> !s.FiresAt(u)
  }

  function MinuteAfter(after: int): int {
    after / MICROS_PER_MINUTE + 1
  }

  /** The first firing time strictly after `after`, or None when there is none. */
  ghost function NextAfter(s: Schedule, after: int): (r: Option<int>)
    requires s.Valid()
    ensures r.Some? <==> Satisfiable(s)
    ensures r.Some? ==> IsFirstAfter(s, after, r.value)
  {
    if Satisfiable(s) then
      SatisfiableExactly(s);
      assert exists last :: MinuteAfter(after) <= last && s.MatchesMinute(last) by {
        var last := FiresEventually(s, MinuteAfter(after));
      }
      var last :| MinuteAfter(after) <= last && s.MatchesMinute(last);
      var k := FirstBetween(s, MinuteAfter(after), last);
      FirstMinuteIsFirstTime(s, after, k);
      Some(k * MICROS_PER_MINUTE)
    else None
  }

  lemma FirstMinuteIsFirstTime(s: Schedule, after: int, k: int)
    requires MinuteAfter(after) <= k && s.MatchesMinute(k)
    requires forall j :: MinuteAfter(after) <= j < k ==> !s.MatchesMinute(j)
    ensures IsFirstAfter(s, after, k * MICROS_PER_MINUTE)
  {
    var t := k * MICROS_PER_MINUTE;
    assert t / MICROS_PER_MINUTE == k;
    forall u | after < u < t ensures !s.FiresAt(u) {
      if u % MICROS_PER_MINUTE == 0 {
        var j := u / MICROS_PER_MINUTE;
        assert MinuteAfter(after) <= j < k;
      }
    }
  }

  lemma FirstAfterUnique(s: Schedule, after: int, t: int, u: int)
    requires IsFirstAfter(s, after, t) && IsFirstAfter(s, after, u)
    ensures t == u
  {
    assert t < u ==> !(after < t);
    assert u < t ==> !(after < u);
  }

  /** A later start point never yields an earlier firing time. */
  lemma NextAfterMonotone(s: Schedule, a: int, b: int)
    requires s.Valid() && Satisfiable(s) && a <= b
    ensures NextAfter(s, a).value <= NextAfter(s, b).value
  {
  }

  // ── The search itself ──────────────────────────────────────────────

  /** sorted(): the members of a set of numbers in a known range, in ascending order. */
  method Sorted(values: set<int>, low: int, high: int) returns (r: seq<int>)
    requires low <= high + 1 && forall v :: v in values ==> low <= v <= high
    ensures forall v :: v in r <==> v in values
    ensures forall i, j :: 0 <= i < j < |r| ==> r[i] < r[j]
  {
    r := [];
    for next := low to high + 1
      invariant forall v :: v in r <==> v < next && v in values
      invariant forall i, j :: 0 <= i < j < |r| ==> r[i] < r[j]
    {
      if next in values {
        assert forall i :: 0 <= i < |r| ==> r[i] in r;
        r := r + [next];
      }
    }
  }

  /** A day number, an hour and a minute. */
  datatype Clock = Clock(day: int, hour: int, minute: int) {
    predicate Before(other: Clock) {
      || day < other.day
      || (day == other.day && hour < other.hour)
      || (day == other.day && hour == other.hour && minute < other.minute)
    }
  }

  /** Nothing fires from `start` on and before `end`. */
  ghost predicate Quiet(s: Schedule, start: Clock, end: Clock) {
    forall c: Clock :: s.FiresAtClock(c.day, c.hour, c.minute) && c.Before(end) ==> c.Before(start)
  }

  /** The body of the day loop: the first firing time of day number `n`, or the news
      that the day holds none from `start` on. */
  method SearchOneDay(s: Schedule, start: Clock, first: Date, day: Date, n: int) returns (r: Option<Clock>)
    requires s.Valid() && first == DateAt(start.day) && day == DateAt(n) && start.day <= n
    requires Quiet(s, start, Clock(n, 0, 0))
    ensures r.Some? ==>
      var c := r.value; s.FiresAtClock(c.day, c.hour, c.minute) && !c.Before(start) && Quiet(s, start, c)
    ensures r.None? ==> Quiet(s, start, Clock(n + 1, 0, 0))
  {
    r := None;
    if s.FiresOn(day) {
      DateAtOrder(n, start.day);
      r := SearchDay(s.hours, s.minutes, start, n, day == first);
      if r.Some? {
        HitIsFirst(s, start, r.value);
        return;
      }
    }
    TomorrowQuiet(s, start, n);
  }

  /** The search over days, then hours, then minutes, with the first day's hours and
      minutes filtered by the starting clock time. `n` is the day's number. */
  method SearchClock(s: Schedule, start: Clock) returns (r: Option<Clock>)
    requires s.Valid()
    ensures r.Some? ==>
      var c := r.value; s.FiresAtClock(c.day, c.hour, c.minute) && !c.Before(start) && Quiet(s, start, c)
    ensures r.None? ==> Quiet(s, start, Clock(start.day + MAX_SEARCH_DAYS + 1, 0, 0))
  {
    QuietAtStart(s, start);
    var first, n, last := DateAt(start.day), start.day, start.day + MAX_SEARCH_DAYS;
    var day, limit := first, DateAt(last);
    while !limit.Before(day)
      invariant day == DateAt(n) && start.day <= n <= last + 1
      invariant Quiet(s, start, Clock(n, 0, 0))
      decreases last - n
    {
      DateAtOrder(last, n);
      r := SearchOneDay(s, start, first, day, n);
      if r.Some? {
        return;
      }
      DateAtNext(n);
      day, n := day.Succ(), n + 1;
    }
    DateAtOrder(last, n);
    r := None;
  }

  lemma QuietAtStart(s: Schedule, start: Clock)
    requires s.Valid()
    ensures Quiet(s, start, Clock(start.day, 0, 0))
  {
  }

  ghost predicate HourPast(minutes: set<int>, start: Clock, day: int, hour: int) {
    forall m :: m in minutes ==> Clock(day, hour, m).Before(start)
  }

  /** The hour and minute loops for one day: the first clock time of the day, drawn
      from the two sets, that is not before `start`. */
  method SearchDay(hours: set<int>, minutes: set<int>, start: Clock, today: int, firstDay: bool)
    returns (r: Option<Clock>)
    requires forall h :: h in hours ==> 0 <= h <= 23
    requires forall m :: m in minutes ==> 0 <= m <= 59
    requires start.day <= today && (firstDay <==> today == start.day)
    ensures r.Some? ==> var c := r.value;
      && c.day == today && c.hour in hours && c.minute in minutes && !c.Before(start)
      && forall h, m :: h in hours && m in minutes && Clock(today, h, m).Before(c) ==> Clock(today, h, m).Before(start)
    ensures r.None? ==> forall h, m :: h in hours && m in minutes ==> Clock(today, h, m).Before(start)
  {
    var sortedHours := Sorted(hours, 0, 23);
    var sortedMinutes := Sorted(minutes, 0, 59);
    for i := 0 to |sortedHours|
      invariant forall p :: 0 <= p < i ==> HourPast(minutes, start, today, sortedHours[p])
    {
      var hour := sortedHours[i];
      if firstDay && hour < start.hour {
        assert HourPast(minutes, start, today, hour);
        continue;
      }
      for j := 0 to |sortedMinutes|
        invariant j > 0 ==> firstDay && hour == start.hour
        invariant forall q :: 0 <= q < j ==> sortedMinutes[q] < start.minute
      {
        var minute := sortedMinutes[j];
        if firstDay && hour == start.hour && minute < start.minute {
          continue;
        }
        assert hour in sortedHours && minute in sortedMinutes;
        FirstHit(hours, minutes, start, today, sortedHours, i, sortedMinutes, j);
        return Some(Clock(today, hour, minute));
      }
      assert HourPast(minutes, start, today, hour) by {
        assert forall m :: m in minutes ==> m in sortedMinutes;
      }
    }
    assert forall h :: h in hours ==> h in sortedHours;
    return None;
  }

  lemma FirstHit(hours: set<int>, minutes: set<int>, start: Clock, today: int, hs: seq<int>, i: nat,
    ms: seq<int>, j: nat)
    requires i < |hs| && (forall h :: h in hours ==> h in hs)
    requires j < |ms| && (forall m :: m in minutes ==> m in ms)
    requires forall p, q :: 0 <= p < q < |hs| ==> hs[p] < hs[q]
    requires forall p, q :: 0 <= p < q < |ms| ==> ms[p] < ms[q]
    requires forall p :: 0 <= p < i ==> HourPast(minutes, start, today, hs[p])
    requires j > 0 ==> today == start.day && hs[i] == start.hour
    requires forall q :: 0 <= q < j ==> ms[q] < start.minute
    ensures forall h, m :: h in hours && m in minutes && Clock(today, h, m).Before(Clock(today, hs[i], ms[j])) ==>
      Clock(today, h, m).Before(start)
  {
    forall h, m | h in hours && m in minutes && Clock(today, h, m).Before(Clock(today, hs[i], ms[j]))
      ensures Clock(today, h, m).Before(start)
    {
      var p :| 0 <= p < |hs| && hs[p] == h;
      var q :| 0 <= q < |ms| && ms[q] == m;
      if p < i {
        assert HourPast(minutes, start, today, hs[p]);
      }
    }
  }

  lemma HitIsFirst(s: Schedule, start: Clock, c: Clock)
    requires s.FiresOn(DateAt(c.day)) && c.hour in s.hours && c.minute in s.minutes
    requires Quiet(s, start, Clock(c.day, 0, 0)) && s.Valid()
    requires forall h, m :: h in s.hours && m in s.minutes && Clock(c.day, h, m).Before(c) ==>
      Clock(c.day, h, m).Before(start)
    ensures s.FiresAtClock(c.day, c.hour, c.minute) && Quiet(s, start, c)
  {
    forall e: Clock | s.FiresAtClock(e.day, e.hour, e.minute) && e.Before(c) ensures e.Before(start) {
      if e.day < c.day {
        assert e.Before(Clock(c.day, 0, 0));
      }
    }
  }

  lemma TomorrowQuiet(s: Schedule, start: Clock, today: int)
    requires Quiet(s, start, Clock(today, 0, 0))
    requires s.Valid()
    requires s.FiresOn(DateAt(today)) ==>
      forall h, m :: h in s.hours && m in s.minutes ==> Clock(today, h, m).Before(start)
    ensures Quiet(s, start, Clock(today + 1, 0, 0))
  {
    forall c: Clock | s.FiresAtClock(c.day, c.hour, c.minute) && c.Before(Clock(today + 1, 0, 0))
      ensures c.Before(start)
    {
      if c.day < today {
        assert c.Before(Clock(today, 0, 0));
      }
    }
  }

  function ClockOf(k: int): Clock {
    Clock(DayOf(k), HourOf(k), MinuteOf(k))
  }

  /** Minute numbers are ordered as clock times are. */
  lemma ClockOrder(j: int, k: int)
    ensures j < k <==> ClockOf(j).Before(ClockOf(k))
  {
    MinuteAtOfParts(j);
    MinuteAtOfParts(k);
  }

  /** The first firing time strictly after `after`, found by the bounded search. It
      gives up only for an expression that never fires at any time whatever. */
  method SearchNextAfter(s: Schedule, after: int) returns (r: Option<int>)
    requires s.Valid()
    ensures r == NextAfter(s, after)
    ensures r.None? ==> forall t :: !s.FiresAt(t)
  {
    var moment := MinuteAfter(after);
    var found := SearchClock(s, ClockOf(moment));
    SatisfiableExactly(s);
    match found
    case None =>
      if Satisfiable(s) {
        ghost var next := FiresEventually(s, moment);
        MinuteAtOfParts(next);
        ClockOrder(next, moment);
        assert false;
      }
      r := None;
    case Some(c) =>
      var k := MinuteAt(c.day, c.hour, c.minute);
      MinuteAtParts(c.day, c.hour, c.minute);
      ClockOrder(k, moment);
      forall j | moment <= j < k ensures !s.MatchesMinute(j) {
        ClockOrder(j, k);
        ClockOrder(j, moment);
      }
      FirstMinuteIsFirstTime(s, after, k);
      r := Some(k * MICROS_PER_MINUTE);
      FirstAfterUnique(s, after, r.value, NextAfter(s, after).value);
  }

  /** Whether an expression ever fires does not depend on when one asks. */
  lemma NeverIsIndependentOfNow(s: Schedule, a: int, b: int)
    requires s.Valid()
    ensures NextAfter(s, a).None? <==> NextAfter(s, b).None?
    ensures NextAfter(s, a).None? <==> forall t :: !s.FiresAt(t)
  {
    SatisfiableExactly(s);
    if NextAfter(s, a).None? {
      forall t ensures !s.FiresAt(t) {
      }
    }
  }
}
