/** describe(): the summary phrase of an expression, and whether it tells the truth. */
module CronDescribe {
  import opened Text
  import opened Calendar
  import opened CronSchedule
  import opened CronParser

  /** The phrases describe() can produce; Raw falls back to the expression's text. */
  datatype Phrase =
    | EveryMinute
    | EveryMinutes(n: nat)
    | Hourly(minute: nat)
    | Daily(hour: nat, minute: nat)
    | EveryWeekday(hour: nat, minute: nat)
    | OnWeekdays(days: set<int>, hour: nat, minute: nat)
    | Monthly(day: nat, hour: nat, minute: nat)
    | Yearly(day: nat, month: nat, hour: nat, minute: nat)
    | Raw

  predicate IsStarStep(field: string) {
    |field| >= 2 && field[..2] == "*/" && IsDigits(field[2..])
  }

  function DescribeFields(fields: seq<string>, weekdays: set<int>): Phrase
    requires |fields| == 5
  {
    var minute, hour, dom, month, dow := fields[0], fields[1], fields[2], fields[3], fields[4];
    if minute == "*" && hour == "*" && dom == "*" && month == "*" && dow == "*" then EveryMinute
    else if IsStarStep(minute) && hour == "*" && dom == "*" && month == "*" && dow == "*" then
      EveryMinutes(DigitsValue(minute[2..]))
    else if !IsDigits(minute) then Raw
    else if hour == "*" && dom == "*" && month == "*" && dow == "*" then Hourly(DigitsValue(minute))
    else if !IsDigits(hour) then Raw
    else
      var h, m := DigitsValue(hour), DigitsValue(minute);
      if dom == "*" && month == "*" && dow == "*" then Daily(h, m)
      else if dom == "*" && month == "*" && dow != "*" then
        if weekdays == {1, 2, 3, 4, 5} then EveryWeekday(h, m) else OnWeekdays(weekdays, h, m)
      else if dom != "*" && dow == "*" && month == "*" && IsDigits(dom) then Monthly(DigitsValue(dom), h, m)
      else if dom != "*" && dow == "*" && month != "*" && IsDigits(dom) && IsDigits(month) then
        Yearly(DigitsValue(dom), DigitsValue(month), h, m)
      else Raw
  }

  function Describe(expression: string): Phrase {
    var parsed := Parsed(expression);
    if parsed.Err? || |Words(expression)| != 5 then Raw
    else DescribeFields(Words(expression), parsed.value.weekdays)
  }

  /** The minutes a phrase claims the schedule fires in. */
  ghost predicate Claims(phrase: Phrase, k: int) {
    var date := DateAt(DayOf(k));
    match phrase
    case EveryMinute => true
    case EveryMinutes(n) => n > 0 && k % n == 0
    case Hourly(minute) => MinuteOf(k) == minute
    case Daily(hour, minute) => HourOf(k) == hour && MinuteOf(k) == minute
    case EveryWeekday(hour, minute) => 1 <= date.CronWeekday() <= 5 && HourOf(k) == hour && MinuteOf(k) == minute
    case OnWeekdays(days, hour, minute) => date.CronWeekday() in days && HourOf(k) == hour && MinuteOf(k) == minute
    case Monthly(day, hour, minute) => date.day == day && HourOf(k) == hour && MinuteOf(k) == minute
    case Yearly(day, month, hour, minute) =>
      date.day == day && date.month == month && HourOf(k) == hour && MinuteOf(k) == minute
    case Raw => false
  }

  ghost predicate Truthful(phrase: Phrase, s: Schedule) {
    forall k :: s.MatchesMinute(k) <==> Claims(phrase, k)
  }

  /** A star is the whole range, a plain number is itself. */
  ghost predicate ReadsField(text: string, f: Field, values: set<int>) {
    && (text == "*" ==> forall v :: v in values <==> f.Low() <= v <= f.High())
    && (IsDigits(text) ==> values == {DigitsValue(text)})
  }

  /** What a star or a plain number in each position says about the schedule. */
  ghost predicate Reads(fields: seq<string>, s: Schedule) {
    && |fields| == 5
    && ReadsField(fields[0], MinuteField, s.minutes) && ReadsField(fields[1], HourField, s.hours)
    && ReadsField(fields[2], DayField, s.days) && ReadsField(fields[3], MonthField, s.months)
    && s.domRestricted == (fields[2] != "*") && s.dowRestricted == (fields[4] != "*")
  }

  lemma SimpleField(text: string, f: Field)
    requires FieldValues(text, f).Ok?
    ensures ReadsField(text, f, FieldValues(text, f).value)
  {
    if text == "*" {
      StarField(f);
    }
    if IsDigits(text) {
      NumberField(text, f);
    }
  }

  lemma ParsedReads(fields: seq<string>)
    requires |fields| == 5 && ParseFields(fields).Ok?
    requires forall i :: 0 <= i < 5 ==> NoSpaces(fields[i])
    ensures Reads(fields, ParseFields(fields).value)
  {
    SimpleField(fields[0], MinuteField);
    SimpleField(fields[1], HourField);
    SimpleField(fields[2], DayField);
    SimpleField(fields[3], MonthField);
    TrimNoSpaces(fields[2]);
    TrimNoSpaces(fields[4]);
  }

  lemma DayPart(s: Schedule, d: Date)
    requires s.Valid() && d.Valid()
    ensures !s.domRestricted && !s.dowRestricted ==> s.DayMatches(d)
    ensures !s.domRestricted && s.dowRestricted ==> (s.DayMatches(d) <==> d.CronWeekday() in s.weekdays)
    ensures s.domRestricted && !s.dowRestricted ==> (s.DayMatches(d) <==> d.day in s.days)
  {
  }

  /** The value a star or a plain number in a position allows. */
  predicate AsWritten(text: string, v: int) {
    text == "*" || (IsDigits(text) && v == DigitsValue(text))
  }

  lemma ReadsAsWritten(text: string, f: Field, values: set<int>, v: int)
    requires ReadsField(text, f, values) && (text == "*" || IsDigits(text)) && f.Low() <= v <= f.High()
    ensures v in values <==> AsWritten(text, v)
  {
  }

  /** A phrase is given only for stars and plain numbers, with one of the two day fields a
      star, and claims what is written. */
  lemma ClaimsAsWritten(fields: seq<string>, weekdays: set<int>, k: int)
    requires |fields| == 5
    requires var phrase := DescribeFields(fields, weekdays); !phrase.Raw? && !phrase.EveryMinutes?
    ensures forall i :: 0 <= i < 4 ==> fields[i] == "*" || IsDigits(fields[i])
    ensures fields[2] == "*" || fields[4] == "*"
    ensures var date := DateAt(DayOf(k));
      Claims(DescribeFields(fields, weekdays), k) <==>
        && AsWritten(fields[0], MinuteOf(k)) && AsWritten(fields[1], HourOf(k))
        && AsWritten(fields[2], date.day) && AsWritten(fields[3], date.month)
        && (fields[4] == "*" || date.CronWeekday() in weekdays)
  {
  }

  lemma PhraseAt(fields: seq<string>, s: Schedule, k: int)
    requires Reads(fields, s) && s.Valid()
    requires var phrase := DescribeFields(fields, s.weekdays); !phrase.Raw? && !phrase.EveryMinutes?
    ensures s.MatchesMinute(k) <==> Claims(DescribeFields(fields, s.weekdays), k)
  {
    var date := DateAt(DayOf(k));
    ClaimsAsWritten(fields, s.weekdays, k);
    DayPart(s, date);
    ReadsAsWritten(fields[0], MinuteField, s.minutes, MinuteOf(k));
    ReadsAsWritten(fields[1], HourField, s.hours, HourOf(k));
    ReadsAsWritten(fields[2], DayField, s.days, date.day);
    ReadsAsWritten(fields[3], MonthField, s.months, date.month);
  }

  /** Every phrase other than the "every n minutes" one names exactly the times the
      expression matches. */
  lemma DescriptionIsTrue(expression: string)
    requires Parsed(expression).Ok?
    requires !Describe(expression).Raw? && !Describe(expression).EveryMinutes?
    ensures Truthful(Describe(expression), Parsed(expression).value)
  {
    var fields := Words(expression);
    ParsedReads(fields);
    ParsedIsValid(fields);
    forall k ensures Parsed(expression).value.MatchesMinute(k) <==> Claims(Describe(expression), k) {
      PhraseAt(fields, Parsed(expression).value, k);
    }
  }

  /** The minutes of an hour that are multiples of n. */
  ghost predicate MultiplesOf(n: nat, minutes: set<int>) {
    n >= 1 && forall v :: v in minutes <==> 0 <= v <= 59 && v % n == 0
  }

  /** The shapes a summary is given for: a minute field alone, or one clock time, daily or
      on some weekdays, monthly or yearly on one date. */
  predicate HasSummary(fields: seq<string>)
    requires |fields| == 5
  {
    || (fields[1] == "*" && fields[2] == "*" && fields[3] == "*" && fields[4] == "*"
        && (fields[0] == "*" || IsStarStep(fields[0]) || IsDigits(fields[0])))
    || (IsDigits(fields[0]) && IsDigits(fields[1]) && fields[2] == "*" && fields[3] == "*")
    || (IsDigits(fields[0]) && IsDigits(fields[1]) && IsDigits(fields[2]) && fields[4] == "*"
        && (fields[3] == "*" || IsDigits(fields[3])))
  }

  lemma FieldsSummarised(fields: seq<string>, weekdays: set<int>)
    requires |fields| == 5
    ensures !DescribeFields(fields, weekdays).Raw? <==> HasSummary(fields)
    ensures DescribeFields(fields, weekdays).OnWeekdays? ==> DescribeFields(fields, weekdays).days != {1, 2, 3, 4, 5}
  {
    forall i | 0 <= i < 5 && IsDigits(fields[i]) ensures fields[i] != "*" {
      DigitsHaveNoSpaces(fields[i]);
    }
  }

  /** Exactly these get a phrase, and Monday to Friday is "every weekday". */
  lemma SummarisedExactly(expression: string)
    ensures !Describe(expression).Raw? <==>
      Parsed(expression).Ok? && |Words(expression)| == 5 && HasSummary(Words(expression))
    ensures Describe(expression).OnWeekdays? ==> Describe(expression).days != {1, 2, 3, 4, 5}
  {
    if Parsed(expression).Ok? && |Words(expression)| == 5 {
      FieldsSummarised(Words(expression), Parsed(expression).value.weekdays);
    }
  }

  lemma StarStepValues(text: string)
    requires IsStarStep(text) && FieldValues(text, MinuteField).Ok?
    ensures MultiplesOf(DigitsValue(text[2..]), FieldValues(text, MinuteField).value)
  {
    var digits := text[2..];
    DigitsHaveNoSpaces(digits);
    assert text == "*/" + digits;
    TrimNoSpaces(digits);
    assert text[1..][1..] == digits && text[0] == '*' && text[1] == '/';
    assert NoSpaces(text) && ',' !in text by {
      forall i | 0 <= i < |text| ensures !IsSpace(text[i]) && text[i] != ',' {
        if i >= 2 {
          assert text[i] == digits[i - 2];
        }
      }
    }
    assert Behind(text, '/') == digits;
    assert Before(text, '/') == "*";
    TrimNoSpaces(text);
    TrimNoSpaces("*");
    OneEntry(text, MinuteField);
  }

  lemma {:induction false} ModOfMultiple(n: nat, c: nat, b: int)
    requires n > 0
    ensures (n * c + b) % n == b % n
    decreases c
  {
    if c > 0 {
      ModOfMultiple(n, c - 1, b);
      ModShift(n, n * (c - 1) + b);
      assert n * c + b == n + (n * (c - 1) + b);
    }
  }

  lemma ModShift(n: nat, b: int)
    requires n > 0
    ensures (n + b) % n == b % n
  {
    var q, r := b / n, b % n;
    assert b == n * q + r;
    assert n + b == n * (q + 1) + r;
    ModUnique(n, q + 1, r);
  }

  lemma ModUnique(n: nat, q: int, r: nat)
    requires r < n
    ensures (n * q + r) % n == r
  {
    var x := n * q + r;
    UniqueRemainder(n, q, r, x / n, x % n);
  }

  lemma UniqueRemainder(n: nat, q: int, r: nat, q': int, r': nat)
    requires n * q + r == n * q' + r' && r < n && r' < n
    ensures r == r'
  {
    Distribute(n, q, q');
    if q > q' {
      MultipleAtLeast(n, q - q');
    } else if q < q' {
      MultipleAtLeast(n, q' - q);
    }
  }

  lemma Distribute(n: nat, a: int, b: int)
    ensures n * a == n * b + n * (a - b)
    ensures n * b == n * a + n * (b - a)
  {
  }

  lemma {:induction false} MultipleAtLeast(n: nat, d: nat)
    requires d >= 1
    ensures n * d >= n
    decreases d
  {
    if d > 1 {
      MultipleAtLeast(n, d - 1);
      assert n * d == n * (d - 1) + n;
    }
  }

  /** Reducing modulo a divisor of 60 can be done on the minute of the hour. */
  lemma ModByDivisorOfSixty(n: nat, k: int)
    requires n > 0 && 60 % n == 0
    ensures k % n == (k % 60) % n
  {
    var q, c := 60 / n, k / 60;
    assert 60 == n * q;
    assert k == 60 * c + k % 60;
    if c >= 0 {
      assert 60 * c == n * (q * c);
      ModOfMultiple(n, q * c, k % 60);
    } else {
      var d := -c;
      assert 60 * d == n * (q * d);
      ModOfMultiple(n, q * d, k);
    }
  }

  /** The schedule fires every n minutes, r past. */
  ghost predicate Evenly(s: Schedule, n: nat, r: int) {
    n > 0 && forall k :: s.MatchesMinute(k) <==> k % n == r
  }

  lemma StarStepAt(fields: seq<string>, s: Schedule, k: int, n: nat)
    requires Reads(fields, s) && s.Valid() && MultiplesOf(n, s.minutes)
    requires fields[1] == "*" && fields[2] == "*" && fields[3] == "*" && fields[4] == "*"
    ensures s.MatchesMinute(k) <==> MinuteOf(k) % n == 0
  {
    DayPart(s, DateAt(DayOf(k)));
  }

  lemma StarStepShape(fields: seq<string>, weekdays: set<int>)
    requires |fields| == 5 && DescribeFields(fields, weekdays).EveryMinutes?
    ensures IsStarStep(fields[0]) && DescribeFields(fields, weekdays).n == DigitsValue(fields[0][2..])
    ensures fields[1] == "*" && fields[2] == "*" && fields[3] == "*" && fields[4] == "*"
  {
  }

  lemma MinutesParsed(fields: seq<string>)
    requires |fields| == 5 && ParseFields(fields).Ok?
    ensures FieldValues(fields[0], MinuteField).Ok?
    ensures ParseFields(fields).value.minutes == FieldValues(fields[0], MinuteField).value
  {
  }

  lemma EvenExactly(s: Schedule, n: nat)
    requires n >= 1
    requires forall k :: s.MatchesMinute(k) <==> MinuteOf(k) % n == 0
    ensures (exists r :: Evenly(s, n, r)) <==> 60 % n == 0
    ensures 60 % n == 0 ==> Evenly(s, n, 0)
  {
    if 60 % n == 0 {
      forall k ensures s.MatchesMinute(k) <==> k % n == 0 {
        ModByDivisorOfSixty(n, k);
        MinuteOfHour(k);
      }
      assert Evenly(s, n, 0);
    }
    if r :| Evenly(s, n, r) {
      MinuteOfHour(0);
      MinuteOfHour(60);
      assert s.MatchesMinute(0) && s.MatchesMinute(60);
    }
  }

  /** "Every n minutes" is true, for any choice of when the first of them falls, if and
      only if n divides 60: otherwise the last gap of every hour is a short one. */
  lemma EveryMinutesIsTrueExactly(expression: string)
    requires Parsed(expression).Ok? && Describe(expression).EveryMinutes?
    ensures var s := Parsed(expression).value; var n := Describe(expression).n;
      && n >= 1
      && ((exists r :: Evenly(s, n, r)) <==> 60 % n == 0)
      && (60 % n == 0 ==> Truthful(Describe(expression), s))
  {
    var fields := Words(expression);
    var s := Parsed(expression).value;
    var n := Describe(expression).n;
    StarStepShape(fields, s.weekdays);
    ParsedReads(fields);
    ParsedIsValid(fields);
    MinutesParsed(fields);
    StarStepValues(fields[0]);
    forall k ensures s.MatchesMinute(k) <==> MinuteOf(k) % n == 0 {
      StarStepAt(fields, s, k, n);
    }
    EvenExactly(s, n);
  }

  lemma MinuteOfHour(k: int)
    ensures MinuteOf(k) == k % 60
  {
    var day, rest := k / MINUTES_PER_DAY, k % MINUTES_PER_DAY;
    assert k == 60 * (24 * day + rest / 60) + rest % 60;
    HourParts(24 * day + rest / 60, rest % 60);
  }
}
