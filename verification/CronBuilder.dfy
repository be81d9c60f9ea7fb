/** The schedule dialog's buildCron, the printer that pairs with the cron parser. */
module CronBuilder {
  import opened Text
  import opened Calendar
  import opened CronSchedule
  import opened CronParser
  import opened CronDescribe

  /** A JavaScript number: a finite value, or NaN or an infinity. */
  datatype Number = Finite(value: real) | NotFinite

  datatype Frequency = HourlyRun | DailyRun | WeeklyRun | MonthlyRun | Custom

  datatype CronParts = CronParts(
    frequency: Frequency,
    timeOfDay: string,
    minuteOfHour: Number,
    weekday: Number,
    dayOfMonth: Number,
    customCron: string)

  /** Math.trunc: towards zero. */
  function Trunc(x: real): (t: int)
    ensures x >= 0.0 ==> t as real <= x < t as real + 1.0
    ensures x < 0.0 ==> t as real - 1.0 < x <= t as real
  {
    if x >= 0.0 then x.Floor else -((-x).Floor)
  }

  function Clamp(value: Number, low: nat, high: nat): (r: nat)
    requires low <= high
    ensures low <= r <= high
    ensures value.NotFinite? ==> r == low
    ensures value.Finite? && low <= Trunc(value.value) <= high ==> r == Trunc(value.value)
  {
    if value.NotFinite? then low
    else
      var t := Trunc(value.value);
      var atLeast := if t < low then low else t;
      if atLeast > high then high else atLeast
  }

  /** The hour and minute of a "HH:MM" text. `number` is JavaScript's Number(); a piece
      that is missing converts to NaN. */
  function SplitTime(timeOfDay: string, number: string -> Number): (r: (nat, nat))
    ensures r.0 <= 23 && r.1 <= 59
  {
    var pieces := SplitOn(if timeOfDay == "" then "09:00" else timeOfDay, ':');
    var minute := if |pieces| > 1 then number(pieces[1]) else NotFinite;
    (Clamp(number(pieces[0]), 0, 23), Clamp(minute, 0, 59))
  }

  function Fields(parts: CronParts, number: string -> Number): seq<string>
    requires !parts.frequency.Custom?
    ensures |Fields(parts, number)| == 5
  {
    var time := SplitTime(parts.timeOfDay, number);
    var hour, minute := Decimal(time.0), Decimal(time.1);
    match parts.frequency
    case HourlyRun => [Decimal(Clamp(parts.minuteOfHour, 0, 59)), "*", "*", "*", "*"]
    case DailyRun => [minute, hour, "*", "*", "*"]
    case WeeklyRun => [minute, hour, "*", "*", Decimal(Clamp(parts.weekday, 0, 6))]
    case MonthlyRun => [minute, hour, Decimal(Clamp(parts.dayOfMonth, 1, 28)), "*", "*"]
  }

  function BuildCron(parts: CronParts, number: string -> Number): string {
    if parts.frequency.Custom? then Trim(parts.customCron) else Join(Fields(parts, number), ' ')
  }

  /** What the dialog's controls say, as a phrase. */
  function Chosen(parts: CronParts, number: string -> Number): Phrase
    requires !parts.frequency.Custom?
  {
    var time := SplitTime(parts.timeOfDay, number);
    match parts.frequency
    case HourlyRun => Hourly(Clamp(parts.minuteOfHour, 0, 59))
    case DailyRun => Daily(time.0, time.1)
    case WeeklyRun => OnWeekdays({Clamp(parts.weekday, 0, 6)}, time.0, time.1)
    case MonthlyRun => Monthly(Clamp(parts.dayOfMonth, 1, 28), time.0, time.1)
  }

  /** A field the printer writes: a star, or a number in the field's range. */
  ghost predicate Printed(text: string, f: Field) {
    text == "*" || (IsDigits(text) && f.Low() <= DigitsValue(text) <= f.High())
  }

  lemma PrintedParses(text: string, f: Field)
    requires Printed(text, f)
    ensures NoSpaces(text) && text != "" && FieldValues(text, f).Ok?
  {
    if text == "*" {
      StarField(f);
    } else {
      DigitsHaveNoSpaces(text);
      NumberField(text, f);
    }
  }

  lemma PrintedFieldsParse(fields: seq<string>)
    requires |fields| == 5
    requires Printed(fields[0], MinuteField) && Printed(fields[1], HourField) && Printed(fields[2], DayField)
    requires Printed(fields[3], MonthField) && Printed(fields[4], WeekdayField)
    ensures Words(Join(fields, ' ')) == fields && Parsed(Join(fields, ' ')) == ParseFields(fields)
    ensures ParseFields(fields).Ok?
    ensures forall i :: 0 <= i < 5 ==> NoSpaces(fields[i])
  {
    FiveFieldsParse(fields);
    EveryFieldIsAWord(fields);
    JoinedIsParsed(fields);
  }

  lemma EveryFieldIsAWord(fields: seq<string>)
    requires |fields| == 5
    requires Printed(fields[0], MinuteField) && Printed(fields[1], HourField) && Printed(fields[2], DayField)
    requires Printed(fields[3], MonthField) && Printed(fields[4], WeekdayField)
    ensures forall i :: 0 <= i < 5 ==> fields[i] != "" && NoSpaces(fields[i])
  {
    forall i | 0 <= i < 5 ensures fields[i] != "" && NoSpaces(fields[i]) {
      var f := [MinuteField, HourField, DayField, MonthField, WeekdayField][i];
      PrintedParses(fields[i], f);
    }
  }

  lemma FiveFieldsParse(fields: seq<string>)
    requires |fields| == 5
    requires Printed(fields[0], MinuteField) && Printed(fields[1], HourField) && Printed(fields[2], DayField)
    requires Printed(fields[3], MonthField) && Printed(fields[4], WeekdayField)
    ensures ParseFields(fields).Ok?
  {
    PrintedParses(fields[0], MinuteField);
    PrintedParses(fields[1], HourField);
    PrintedParses(fields[2], DayField);
    PrintedParses(fields[3], MonthField);
    PrintedParses(fields[4], WeekdayField);
  }

  lemma NumberIsPrinted(n: nat, f: Field)
    requires f.Low() <= n <= f.High()
    ensures Printed(Decimal(n), f) && DigitsValue(Decimal(n)) == n && Decimal(n) != "*"
  {
    DecimalValue(n);
    DigitsHaveNoSpaces(Decimal(n));
  }

  /** Every field is either a star or the number the control was clamped to. */
  lemma FieldsArePrinted(parts: CronParts, number: string -> Number)
    requires !parts.frequency.Custom?
    ensures var fields := Fields(parts, number);
      && Printed(fields[0], MinuteField) && Printed(fields[1], HourField) && Printed(fields[2], DayField)
      && Printed(fields[3], MonthField) && Printed(fields[4], WeekdayField)
  {
    var time := SplitTime(parts.timeOfDay, number);
    if parts.frequency.HourlyRun? {
      NumberIsPrinted(Clamp(parts.minuteOfHour, 0, 59), MinuteField);
    } else {
      NumberIsPrinted(time.0, HourField);
      NumberIsPrinted(time.1, MinuteField);
      if parts.frequency.WeeklyRun? {
        NumberIsPrinted(Clamp(parts.weekday, 0, 6), WeekdayField);
      } else if parts.frequency.MonthlyRun? {
        NumberIsPrinted(Clamp(parts.dayOfMonth, 1, 28), DayField);
      }
    }
  }

  /** The weekday the printer writes is read back as itself. */
  lemma WeekdayReadsBack(fields: seq<string>, day: nat)
    requires |fields| == 5 && ParseFields(fields).Ok? && day <= 6 && fields[4] == Decimal(day)
    ensures ParseFields(fields).value.weekdays == {day}
  {
    NumberIsPrinted(day, WeekdayField);
    NumberField(Decimal(day), WeekdayField);
  }

  lemma ChosenIsDescribed(parts: CronParts, number: string -> Number, weekdays: set<int>)
    requires !parts.frequency.Custom?
    requires parts.frequency.WeeklyRun? ==> weekdays == {Clamp(parts.weekday, 0, 6)}
    ensures DescribeFields(Fields(parts, number), weekdays) == Chosen(parts, number)
  {
    var time := SplitTime(parts.timeOfDay, number);
    NumberIsPrinted(time.0, HourField);
    NumberIsPrinted(time.1, MinuteField);
    match parts.frequency
    case HourlyRun => NumberIsPrinted(Clamp(parts.minuteOfHour, 0, 59), MinuteField);
    case DailyRun =>
    case WeeklyRun =>
      var day := Clamp(parts.weekday, 0, 6);
      NumberIsPrinted(day, WeekdayField);
      assert (if day == 1 then 2 else 1) in {1, 2, 3, 4, 5} && (if day == 1 then 2 else 1) !in weekdays;
    case MonthlyRun => NumberIsPrinted(Clamp(parts.dayOfMonth, 1, 28), DayField);
    case Custom =>
  }

  /** No month is shorter than the 28 days the monthly control is capped at. */
  lemma BuiltCanFire(parts: CronParts, number: string -> Number, s: Schedule)
    requires !parts.frequency.Custom? && Reads(Fields(parts, number), s)
    ensures Satisfiable(s)
  {
    if parts.frequency.MonthlyRun? {
      var day := Clamp(parts.dayOfMonth, 1, 28);
      NumberIsPrinted(day, DayField);
      assert 1 in s.months && day in s.days && day <= LongestMonth(1);
    }
  }

  /** Whatever the controls hold, a non-custom expression is accepted as it stands, is
      described as what was chosen, and fires at exactly the chosen times. */
  lemma BuiltCronMeansTheChoice(parts: CronParts, number: string -> Number)
    requires !parts.frequency.Custom?
    ensures var expression := BuildCron(parts, number);
      && Parsed(expression).Ok? && Normalised(expression) == expression
      && (exists t :: Parsed(expression).value.FiresAt(t))
      && Describe(expression) == Chosen(parts, number)
      && Truthful(Chosen(parts, number), Parsed(expression).value)
  {
    var fields := Fields(parts, number);
    var expression := BuildCron(parts, number);
    FieldsArePrinted(parts, number);
    PrintedFieldsParse(fields);
    var s := Parsed(expression).value;
    ParsedReads(fields);
    ParsedIsValid(fields);
    if parts.frequency.WeeklyRun? {
      WeekdayReadsBack(fields, Clamp(parts.weekday, 0, 6));
    }
    ChosenIsDescribed(parts, number, s.weekdays);
    DescriptionIsTrue(expression);
    BuiltCanFire(parts, number, s);
    assert s.FiresAt(NextAfter(s, 0).value);
  }

  // ── The chosen times, read off the controls themselves ─────────────

  /** The whole number a control stands for: the nearer end when out of range, the low end
      when it is no number. */
  ghost predicate Nearest(number: Number, low: nat, high: nat, n: nat) {
    && low <= n <= high
    && match number
      case NotFinite => n == low
      case Finite(x) =>
        && (x <= low as real ==> n == low)
        && (x >= high as real ==> n == high)
        && (low as real < x < high as real ==> n as real <= x < n as real + 1.0)
  }

  lemma ClampIsNearest(number: Number, low: nat, high: nat, n: nat)
    requires low <= high
    ensures Nearest(number, low, high, n) <==> n == Clamp(number, low, high)
  {
  }

  /** The pieces of a time: the hour, then the minute if it is given, then anything. */
  ghost predicate TimeGiven(timeOfDay: string, pieces: seq<string>, number: string -> Number, h: nat, m: nat) {
    && pieces != [] && (forall i :: 0 <= i < |pieces| ==> ':' !in pieces[i])
    && Join(pieces, ':') == (if timeOfDay == "" then "09:00" else timeOfDay)
    && Nearest(number(pieces[0]), 0, 23, h)
    && Nearest(if |pieces| > 1 then number(pieces[1]) else NotFinite, 0, 59, m)
  }

  lemma TimeIsSplit(timeOfDay: string, pieces: seq<string>, number: string -> Number, h: nat, m: nat)
    requires TimeGiven(timeOfDay, pieces, number, h, m)
    ensures SplitTime(timeOfDay, number) == (h, m)
  {
    SplitOfJoin(pieces, ':');
    ClampIsNearest(number(pieces[0]), 0, 23, h);
    ClampIsNearest(if |pieces| > 1 then number(pieces[1]) else NotFinite, 0, 59, m);
  }

  /** The minutes a choice names: h and m from its time, and d from its third control. */
  ghost predicate ChosenMinute(frequency: Frequency, h: nat, m: nat, d: nat, k: int) {
    match frequency
    case HourlyRun => MinuteOf(k) == d
    case DailyRun => HourOf(k) == h && MinuteOf(k) == m
    case WeeklyRun => HourOf(k) == h && MinuteOf(k) == m && DateAt(DayOf(k)).CronWeekday() == d
    case MonthlyRun => HourOf(k) == h && MinuteOf(k) == m && DateAt(DayOf(k)).day == d
    case Custom => false
  }

  ghost predicate ThirdControl(parts: CronParts, d: nat) {
    match parts.frequency
    case HourlyRun => Nearest(parts.minuteOfHour, 0, 59, d)
    case WeeklyRun => Nearest(parts.weekday, 0, 6, d)
    case MonthlyRun => Nearest(parts.dayOfMonth, 1, 28, d)
    case _ => true
  }

  lemma ChosenClaims(parts: CronParts, pieces: seq<string>, number: string -> Number, h: nat, m: nat, d: nat, k: int)
    requires !parts.frequency.Custom? && TimeGiven(parts.timeOfDay, pieces, number, h, m) && ThirdControl(parts, d)
    ensures Claims(Chosen(parts, number), k) <==> ChosenMinute(parts.frequency, h, m, d, k)
  {
    TimeIsSplit(parts.timeOfDay, pieces, number, h, m);
    match parts.frequency
    case HourlyRun => ClampIsNearest(parts.minuteOfHour, 0, 59, d);
    case WeeklyRun => ClampIsNearest(parts.weekday, 0, 6, d);
    case MonthlyRun => ClampIsNearest(parts.dayOfMonth, 1, 28, d);
    case DailyRun =>
    case Custom =>
  }

  /** Every non-custom expression fires at exactly the minutes its controls name. */
  lemma BuiltFiresAsChosen(parts: CronParts, pieces: seq<string>, number: string -> Number, h: nat, m: nat, d: nat, k: int)
    requires !parts.frequency.Custom? && TimeGiven(parts.timeOfDay, pieces, number, h, m) && ThirdControl(parts, d)
    ensures var parsed := Parsed(BuildCron(parts, number));
      parsed.Ok? && (parsed.value.MatchesMinute(k) <==> ChosenMinute(parts.frequency, h, m, d, k))
  {
    BuiltCronMeansTheChoice(parts, number);
    ChosenClaims(parts, pieces, number, h, m, d, k);
  }

  /** A number from 0 to 59 as a clock shows it. */
  function TwoDigits(n: nat): string
    requires n <= 59
  {
    [DigitChar(n / 10), DigitChar(n % 10)]
  }

  /** "HH:MM" means that hour and minute, and no text at all means 9:00, for every number
      function that reads two digits as what they say. */
  lemma ClockTimeGiven(number: string -> Number, h: nat, m: nat)
    requires h <= 23 && m <= 59 && forall n :: 0 <= n <= 59 ==> number(TwoDigits(n)) == Finite(n as real)
    ensures TimeGiven(TwoDigits(h) + ":" + TwoDigits(m), [TwoDigits(h), TwoDigits(m)], number, h, m)
    ensures TimeGiven("", [TwoDigits(9), TwoDigits(0)], number, 9, 0)
  {
    forall n | 0 <= n <= 59 ensures ':' !in TwoDigits(n) {
      assert !IsDigit(':');
    }
    assert Join([TwoDigits(m)], ':') == TwoDigits(m) && Join([TwoDigits(0)], ':') == TwoDigits(0);
    assert [TwoDigits(h), TwoDigits(m)][1..] == [TwoDigits(m)];
    assert [TwoDigits(9), TwoDigits(0)][1..] == [TwoDigits(0)];
    assert TwoDigits(9) + ":" + TwoDigits(0) == "09:00";
  }

  /** A custom expression is taken as it stands, the space around it apart. */
  lemma CustomIsKept(parts: CronParts, number: string -> Number) returns (left: string, right: string)
    requires parts.frequency.Custom?
    ensures parts.customCron == left + BuildCron(parts, number) + right && AllSpaces(left) && AllSpaces(right)
    ensures var built := BuildCron(parts, number); built != "" ==> !IsSpace(built[0]) && !IsSpace(built[|built| - 1])
  {
    left, right := TrimExactly(parts.customCron);
  }
}
