/** What the entries of a field and a whole expression stand for, said without the
    parser's own steps. */
module CronMeaning {
  import opened Wrappers
  import opened Text
  import opened Calendar
  import opened CronSchedule
  import opened CronParser

  // ── Values ─────────────────────────────────────────────────────────

  const MONTHS: seq<string> :=
    ["JAN", "FEB", "MAR", "APR", "MAY", "JUN", "JUL", "AUG", "SEP", "OCT", "NOV", "DEC"]

  const WEEKDAYS: seq<string> := ["SUN", "MON", "TUE", "WED", "THU", "FRI", "SAT"]

  /** The names a field knows, in order from the field's lowest value. */
  function NameList(f: Field): seq<string> {
    if f.MonthField? then MONTHS else if f.WeekdayField? then WEEKDAYS else []
  }

  predicate IsCapital(c: char) {
    'A' <= c <= 'Z'
  }

  /** The same letters, in capitals or not. */
  predicate SameLetters(text: string, name: string) {
    && |text| == |name|
    && forall i :: 0 <= i < |text| ==> text[i] == name[i] || text[i] as int == name[i] as int + 32
  }

  /** A name of the field in any mix of case. */
  ghost predicate IsName(text: string, f: Field, v: int) {
    exists i :: 0 <= i < |NameList(f)| && SameLetters(text, NameList(f)[i]) && v == f.Low() + i
  }

  /** A number, with or without a plus sign. */
  predicate IsNumber(text: string, v: int) {
    || (IsDigits(text) && v == DigitsValue(text))
    || (text != "" && text[0] == '+' && IsDigits(text[1..]) && v == DigitsValue(text[1..]))
  }

  /** A text that writes one value: a number or a name. */
  ghost predicate Spells(text: string, f: Field, v: int) {
    IsNumber(text, v) || IsName(text, f, v)
  }

  lemma NameAt(f: Field, i: nat)
    requires i < |NameList(f)|
    ensures var name := NameList(f)[i];
      && name in f.Names() && f.Names()[name] == f.Low() + i
      && |name| == 3 && IsCapital(name[0]) && IsCapital(name[1]) && IsCapital(name[2])
  {
  }

  lemma LetterInAnyCase(c: char, capital: char)
    requires IsCapital(capital) && (c == capital || c as int == capital as int + 32)
    ensures UpperChar(c) == capital && !IsSpace(c) && c != ',' && c != '/' && c != '-' && c != '*'
  {
  }

  lemma NameInAnyCase(text: string, f: Field, i: nat)
    requires i < |NameList(f)| && SameLetters(text, NameList(f)[i])
    ensures Upper(text) == NameList(f)[i]
    ensures IsEntry(text) && '-' !in text && text != "*"
  {
    var name := NameList(f)[i];
    NameAt(f, i);
    forall j | 0 <= j < |text|
      ensures UpperChar(text[j]) == name[j] && !IsSpace(text[j])
      ensures text[j] != ',' && text[j] != '/' && text[j] != '-' && text[j] != '*'
    {
      assert j == 0 || j == 1 || j == 2;
      LetterInAnyCase(text[j], name[j]);
    }
    assert text[0] != '*';
  }

  /** One entry of a list, without a step. */
  predicate IsEntry(text: string) {
    text != "" && NoSpaces(text) && ',' !in text && '/' !in text
  }

  lemma NamesAreLetters(f: Field, name: string)
    requires name in f.Names()
    ensures name != "" && name[0] != '+'
  {
  }

  lemma PlusSigned(text: string, f: Field)
    requires text != "" && text[0] == '+' && IsDigits(text[1..])
    ensures IsEntry(text) && '-' !in text && text != "*" && !IsDigits(text)
    ensures Upper(text) !in f.Names()
  {
    DigitsHaveNoSpaces(text[1..]);
    assert forall i :: 0 < i < |text| ==> text[i] == text[1..][i - 1];
    if Upper(text) in f.Names() {
      NamesAreLetters(f, Upper(text));
    }
  }

  lemma NumberValue(text: string, f: Field, v: int)
    requires IsNumber(text, v)
    ensures ParseValue(text, f) == if f.Low() <= v <= f.High() then Ok(v) else Err(OutOfRange(f))
    ensures IsEntry(text) && '-' !in text && text != "*"
  {
    if IsDigits(text) {
      DigitsHaveNoSpaces(text);
      DigitsAreNotNames(text, f);
    } else {
      PlusSigned(text, f);
    }
    TrimNoSpaces(text);
  }

  lemma NameValue(text: string, f: Field, v: int)
    requires IsName(text, f, v)
    ensures ParseValue(text, f) == Ok(v) && f.Low() <= v <= f.High()
    ensures IsEntry(text) && '-' !in text && text != "*"
  {
    var i :| 0 <= i < |NameList(f)| && SameLetters(text, NameList(f)[i]) && v == f.Low() + i;
    NameAt(f, i);
    NameInAnyCase(text, f, i);
    TrimNoSpaces(text);
    NamesInRange(f, Upper(text));
  }

  lemma SpelledValue(text: string, f: Field, v: int)
    requires Spells(text, f, v)
    ensures ParseValue(text, f) == if f.Low() <= v <= f.High() then Ok(v) else Err(OutOfRange(f))
    ensures IsEntry(text) && '-' !in text && text != "*"
  {
    if IsName(text, f, v) {
      NameValue(text, f, v);
    } else {
      NumberValue(text, f, v);
    }
  }

  // ── Entries ────────────────────────────────────────────────────────

  lemma {:induction false} PartitionAround(a: string, c: char, b: string)
    requires c !in a
    ensures Before(a + [c] + b, c) == a && Behind(a + [c] + b, c) == b
    decreases |a|
  {
    var text := a + [c] + b;
    if a == "" {
      assert text[0] == c && text[1..] == b;
    } else {
      assert text[0] == a[0] && a[0] != c;
      assert text[1..] == a[1..] + [c] + b;
      PartitionAround(a[1..], c, b);
    }
  }

  lemma RangeText(a: string, b: string)
    requires IsEntry(a) && IsEntry(b) && '-' !in a
    ensures var part := a + "-" + b;
      && IsEntry(part) && '-' in part && part != "*" && Before(part, '-') == a && Behind(part, '-') == b
  {
    var part := a + "-" + b;
    assert part[|a|] == '-';
    forall i | 0 <= i < |part| ensures !IsSpace(part[i]) && part[i] != ',' && part[i] != '/' {
      if i < |a| {
        assert part[i] == a[i];
      } else if i > |a| {
        assert part[i] == b[i - |a| - 1];
      }
    }
    PartitionAround(a, '-', b);
  }

  lemma StepText(part: string, k: string)
    requires IsEntry(part) && NoSpaces(k) && ',' !in k
    ensures var text := part + "/" + k;
      && NoSpaces(text) && text != "" && ',' !in text && '/' in text
      && Before(text, '/') == part && Behind(text, '/') == k
  {
    var text := part + "/" + k;
    assert text[|part|] == '/';
    forall i | 0 <= i < |text| ensures !IsSpace(text[i]) && text[i] != ',' {
      if i < |part| {
        assert text[i] == part[i];
      } else if i > |part| {
        assert text[i] == k[i - |part| - 1];
      }
    }
    PartitionAround(part, '/', k);
  }

  predicate WholeSteps(from: int, step: int, v: int)
    requires step >= 1
  {
    (v - from) % step == 0
  }

  /** Every step-th value of a range. */
  function Every(step: int, from: int, to: int): set<int>
    requires step >= 1
  {
    set v | from <= v <= to && WholeSteps(from, step, v)
  }

  lemma EveryAlone(x: int)
    ensures Every(1, x, x) == {x}
  {
    SameMembers(Every(1, x, x), {x});
  }

  lemma EntryIsEvery(e: Entry, f: Field)
    requires e.Valid(f)
    ensures EntryValues(e, f) == Every(e.step, e.start, e.end)
  {
    SameMembers(EntryValues(e, f), Every(e.step, e.start, e.end));
  }

  /** A field of one entry, with or without a step, stands for what its bounds give. */
  lemma EntryAlone(part: string, f: Field)
    requires IsEntry(part)
    ensures var bounds, values := ParseBounds(part, 1, f), FieldValues(part, f);
      && (values.Ok? <==> bounds.Ok?)
      && (values.Ok? ==> values.value == Every(bounds.value.step, bounds.value.start, bounds.value.end))
  {
    TrimNoSpaces(part);
    OneEntry(part, f);
    if ParseEntry(part, f).Ok? {
      EntryIsEvery(ParseEntry(part, f).value, f);
    }
  }

  lemma StepRead(k: string, f: Field)
    requires IsDigits(k)
    ensures ParseStep(k, f) == if DigitsValue(k) < 1 then Err(StepTooSmall(f)) else Ok(DigitsValue(k))
  {
    DigitsHaveNoSpaces(k);
    TrimNoSpaces(k);
  }

  lemma EntryWithStep(part: string, k: string, f: Field)
    requires IsEntry(part) && IsDigits(k)
    ensures var values, step := FieldValues(part + "/" + k, f), DigitsValue(k);
      && (values.Ok? <==> step >= 1 && ParseBounds(part, step, f).Ok?)
      && (values.Ok? ==> var e := ParseBounds(part, step, f).value; values.value == Every(e.step, e.start, e.end))
  {
    var text := part + "/" + k;
    DigitsHaveNoSpaces(k);
    StepText(part, k);
    StepRead(k, f);
    TrimNoSpaces(text);
    TrimNoSpaces(part);
    OneEntry(text, f);
    if ParseEntry(text, f).Ok? {
      EntryIsEvery(ParseEntry(text, f).value, f);
    }
  }

  lemma RangeBounds(a: string, b: string, step: int, x: int, y: int, f: Field)
    requires Spells(a, f, x) && Spells(b, f, y) && step >= 1
    ensures var bounds := ParseBounds(a + "-" + b, step, f);
      && (bounds.Ok? <==> f.Low() <= x <= y <= f.High())
      && (bounds.Ok? ==> bounds.value == Entry(x, y, step))
  {
    SpelledValue(a, f, x);
    SpelledValue(b, f, y);
    RangeText(a, b);
  }

  // ── The five forms of an entry, and lists ──────────────────────────

  /** `a`: a number or a name. */
  lemma ValueMeans(a: string, x: int, f: Field)
    requires Spells(a, f, x)
    ensures FieldValues(a, f).Ok? <==> f.Low() <= x <= f.High()
    ensures FieldValues(a, f).Ok? ==> FieldValues(a, f).value == {x}
  {
    SpelledValue(a, f, x);
    EntryAlone(a, f);
    EveryAlone(x);
  }

  /** `a-b`: the values from a to b. */
  lemma RangeMeans(a: string, b: string, x: int, y: int, f: Field)
    requires Spells(a, f, x) && Spells(b, f, y)
    ensures FieldValues(a + "-" + b, f).Ok? <==> f.Low() <= x <= y <= f.High()
    ensures FieldValues(a + "-" + b, f).Ok? ==>
      forall v :: v in FieldValues(a + "-" + b, f).value <==> x <= v <= y
  {
    RangeBounds(a, b, 1, x, y, f);
    SpelledValue(a, f, x);
    SpelledValue(b, f, y);
    RangeText(a, b);
    EntryAlone(a + "-" + b, f);
  }

  /** `a-b/k`: every k-th of them, from a on. */
  lemma RangeWithStep(a: string, b: string, k: string, x: int, y: int, f: Field)
    requires Spells(a, f, x) && Spells(b, f, y) && IsDigits(k)
    ensures var values, step := FieldValues(a + "-" + b + "/" + k, f), DigitsValue(k);
      && (values.Ok? <==> f.Low() <= x <= y <= f.High() && step >= 1)
      && (values.Ok? ==> values.value == Every(step, x, y))
  {
    SpelledValue(a, f, x);
    SpelledValue(b, f, y);
    RangeText(a, b);
    EntryWithStep(a + "-" + b, k, f);
    if DigitsValue(k) >= 1 {
      RangeBounds(a, b, DigitsValue(k), x, y, f);
    }
  }

  /** `*` with a step: every k-th value of the whole range. */
  lemma StarWithStep(k: string, f: Field)
    requires IsDigits(k)
    ensures var values, step := FieldValues("*/" + k, f), DigitsValue(k);
      && (values.Ok? <==> step >= 1)
      && (values.Ok? ==> values.value == Every(step, f.Low(), f.High()))
  {
    var star := "*";
    assert IsEntry(star);
    EntryWithStep(star, k, f);
    assert star + "/" + k == "*/" + k;
  }

  /** `a/k`: a step of 1 leaves the value alone, and only a larger one runs on to the end of
      the field. */
  lemma ValueWithStep(a: string, k: string, x: int, f: Field)
    requires Spells(a, f, x) && IsDigits(k)
    ensures var values, step := FieldValues(a + "/" + k, f), DigitsValue(k);
      && (values.Ok? <==> f.Low() <= x <= f.High() && step >= 1)
      && (values.Ok? ==> values.value == if step == 1 then {x} else Every(step, x, f.High()))
  {
    SpelledValue(a, f, x);
    EntryWithStep(a, k, f);
    EveryAlone(x);
  }

  /** A negative step is refused. */
  lemma NegativeStepRefused(part: string, k: string, f: Field)
    requires IsEntry(part) && IsDigits(k)
    ensures FieldValues(part + "/-" + k, f).Err?
  {
    var step := "-" + k;
    DigitsHaveNoSpaces(k);
    forall i | 0 <= i < |step| ensures !IsSpace(step[i]) && step[i] != ',' {
      assert i > 0 ==> step[i] == k[i - 1];
    }
    assert part + "/" + step == part + "/-" + k;
    StepText(part, step);
    TrimNoSpaces(step);
    assert step[1..] == k && !IsDigits(step);
    TrimNoSpaces(part + "/" + step);
    OneEntry(part + "/" + step, f);
  }

  lemma NoSpacesAround(text: string, c: char, rest: string)
    requires NoSpaces(text) && NoSpaces(rest) && !IsSpace(c)
    ensures NoSpaces(text + [c] + rest)
  {
    var s := text + [c] + rest;
    forall i | 0 <= i < |s| ensures !IsSpace(s[i]) {
      if i < |text| {
        assert s[i] == text[i];
      } else if i > |text| {
        assert s[i] == rest[i - |text| - 1];
      }
    }
  }

  lemma {:induction false} CollectMore(first: string, rest: seq<string>, f: Field)
    ensures Collect([first] + rest, f).Ok? <==> Collect([first], f).Ok? && Collect(rest, f).Ok?
    ensures Collect([first] + rest, f).Ok? ==>
      Collect([first] + rest, f).value == Collect([first], f).value + Collect(rest, f).value
  {
    ListMeaning([first] + rest, f);
    ListMeaning([first], f);
    ListMeaning(rest, f);
    assert first in [first];
    if Collect([first] + rest, f).Ok? {
      SameMembers(Collect([first] + rest, f).value, Collect([first], f).value + Collect(rest, f).value);
    }
  }

  /** `p,q`: what either stands for. */
  lemma ListMeans(p: string, q: string, f: Field)
    requires NoSpaces(p) && NoSpaces(q) && p != "" && q != "" && ',' !in p
    ensures var values := FieldValues(p + "," + q, f);
      && (values.Ok? <==> FieldValues(p, f).Ok? && FieldValues(q, f).Ok?)
      && (values.Ok? ==> values.value == FieldValues(p, f).value + FieldValues(q, f).value)
  {
    var text := p + "," + q;
    NoSpacesAround(p, ',', q);
    TrimNoSpaces(text);
    TrimNoSpaces(p);
    TrimNoSpaces(q);
    SplitAround(p, ',', q);
    SplitWithout(p, ',');
    CollectMore(p, SplitOn(q, ','), f);
  }

  // ── The day of the week ────────────────────────────────────────────

  /** Day n falls on a cron weekday, on which 0 and 7 are both Sunday. */
  predicate FallsOn(n: int, weekday: int) {
    (n - MONDAY_NUMBER - (weekday - 1)) % 7 == 0
  }

  lemma WeekdayMod(n: int, weekday: int)
    requires 0 <= weekday <= 7
    ensures FallsOn(n, weekday) <==> (n - MONDAY_NUMBER + 1) % 7 == (if weekday == 7 then 0 else weekday)
  {
    var m := n - MONDAY_NUMBER + 1;
    SevenDivides(m, weekday);
  }

  lemma SevenDivides(m: int, weekday: int)
    requires 0 <= weekday <= 7
    ensures (m - weekday) % 7 == 0 <==> m % 7 == (if weekday == 7 then 0 else weekday)
  {
  }

  lemma WeekdayOfDay(n: int, weekday: int)
    requires 0 <= weekday <= 7
    ensures FallsOn(n, weekday) <==> DateAt(n).CronWeekday() == if weekday == 7 then 0 else weekday
  {
    OrdinalOfDateAt(n);
    MondaysRecur(DateAt(n));
    WeekdayMod(n, weekday);
  }

  lemma WeekdaysMatch(n: int, weekdays: set<int>)
    requires forall v :: v in weekdays ==> 0 <= v <= 7
    ensures DateAt(n).CronWeekday() in WithSundayAsZero(weekdays) <==>
      exists v :: v in weekdays && FallsOn(n, v)
  {
    var today := DateAt(n).CronWeekday();
    forall v | v in weekdays ensures FallsOn(n, v) <==> today == if v == 7 then 0 else v {
      WeekdayOfDay(n, v);
    }
    SundayTwice(today, weekdays);
  }

  lemma SundayTwice(today: int, weekdays: set<int>)
    requires 0 <= today <= 6
    ensures today in WithSundayAsZero(weekdays) <==> today in weekdays || (today == 0 && 7 in weekdays)
  {
  }

  /** With the day of the month free, an expression fires on the weekdays its last field
      lists, counted from a known Monday. */
  lemma WeekdaysMean(fields: seq<string>, k: int)
    requires |fields| == 5 && ParseFields(fields).Ok? && Trim(fields[2]) == "*"
    ensures var s := ParseFields(fields).value;
      FieldValues(fields[4], WeekdayField).Ok?
      && (s.MatchesMinute(k) <==>
        && DateAt(DayOf(k)).month in s.months && HourOf(k) in s.hours && MinuteOf(k) in s.minutes
        && exists v :: v in FieldValues(fields[4], WeekdayField).value && FallsOn(DayOf(k), v))
  {
    var s, weekdays := ParseFields(fields).value, FieldValues(fields[4], WeekdayField).value;
    ParsedIsValid(fields);
    FieldInRange(fields[4], WeekdayField);
    WeekdaysMatch(DayOf(k), weekdays);
    assert DateAt(DayOf(k)).CronWeekday() in s.weekdays || s.dowRestricted;
  }

  // ── Both day fields ────────────────────────────────────────────────

  /** Five words, as an expression is written. */
  function Written(fields: seq<string>): string {
    Join(fields, ' ')
  }

  predicate AreWords(fields: seq<string>) {
    |fields| == 5 && forall i :: 0 <= i < 5 ==> fields[i] != "" && NoSpaces(fields[i])
  }

  lemma WithStar(fields: seq<string>, i: nat)
    requires AreWords(fields) && (i == 2 || i == 4) && ParseFields(fields).Ok?
    ensures AreWords(fields[i := "*"]) && ParseFields(fields[i := "*"]).Ok?
    ensures var s, t := ParseFields(fields).value, ParseFields(fields[i := "*"]).value;
      && t.minutes == s.minutes && t.hours == s.hours && t.months == s.months
      && (if i == 2 then t.weekdays == s.weekdays && !t.domRestricted && t.dowRestricted == s.dowRestricted
          else t.days == s.days && !t.dowRestricted && t.domRestricted == s.domRestricted)
  {
    StarField(DayField);
    StarField(WeekdayField);
    TrimNoSpaces("*");
  }

  lemma BothRestricted(fields: seq<string>)
    requires AreWords(fields) && fields[2] != "*" && fields[4] != "*" && ParseFields(fields).Ok?
    ensures ParseFields(fields).value.domRestricted && ParseFields(fields).value.dowRestricted
  {
    TrimNoSpaces(fields[2]);
    TrimNoSpaces(fields[4]);
  }

  /** When both day fields are given, the expression fires exactly when it would with one
      of them or with the other. */
  lemma EitherDayFires(fields: seq<string>, k: int)
    requires AreWords(fields) && fields[2] != "*" && fields[4] != "*" && Parsed(Written(fields)).Ok?
    ensures var byDate, byWeekday := Parsed(Written(fields[4 := "*"])), Parsed(Written(fields[2 := "*"]));
      && byDate.Ok? && byWeekday.Ok?
      && (Parsed(Written(fields)).value.MatchesMinute(k) <==>
        byDate.value.MatchesMinute(k) || byWeekday.value.MatchesMinute(k))
  {
    JoinedIsParsed(fields);
    WithStar(fields, 2);
    WithStar(fields, 4);
    JoinedIsParsed(fields[2 := "*"]);
    JoinedIsParsed(fields[4 := "*"]);
    BothRestricted(fields);
  }

  /** The earlier of two firing times, either of which may be missing. */
  function Earlier(a: Option<int>, b: Option<int>): Option<int> {
    if a.None? then b else if b.None? then a else if a.value <= b.value then a else b
  }

  /** So its next firing time is the earlier of the two. */
  lemma EitherDayNext(fields: seq<string>, after: int)
    requires AreWords(fields) && fields[2] != "*" && fields[4] != "*" && Parsed(Written(fields)).Ok?
    ensures var both, byDate, byWeekday :=
        Parsed(Written(fields)), Parsed(Written(fields[4 := "*"])), Parsed(Written(fields[2 := "*"]));
      && byDate.Ok? && byWeekday.Ok? && both.value.Valid() && byDate.value.Valid() && byWeekday.value.Valid()
      && NextAfter(both.value, after) == Earlier(NextAfter(byDate.value, after), NextAfter(byWeekday.value, after))
  {
    EitherDayFires(fields, 0);
    JoinedIsParsed(fields);
    JoinedIsParsed(fields[2 := "*"]);
    JoinedIsParsed(fields[4 := "*"]);
    ParsedIsValid(fields);
    ParsedIsValid(fields[2 := "*"]);
    ParsedIsValid(fields[4 := "*"]);
    var both, byDate, byWeekday :=
      Parsed(Written(fields)).value, Parsed(Written(fields[4 := "*"])).value, Parsed(Written(fields[2 := "*"])).value;
    forall t ensures both.FiresAt(t) <==> byDate.FiresAt(t) || byWeekday.FiresAt(t) {
      EitherDayFires(fields, t / MICROS_PER_MINUTE);
    }
    EarlierIsFirst(both, byDate, byWeekday, after);
  }

  lemma EarlierIsFirst(both: Schedule, a: Schedule, b: Schedule, after: int)
    requires both.Valid() && a.Valid() && b.Valid()
    requires forall t :: both.FiresAt(t) <==> a.FiresAt(t) || b.FiresAt(t)
    ensures NextAfter(both, after) == Earlier(NextAfter(a, after), NextAfter(b, after))
  {
    NeverIsIndependentOfNow(both, after, after);
    NeverIsIndependentOfNow(a, after, after);
    NeverIsIndependentOfNow(b, after, after);
    var first := Earlier(NextAfter(a, after), NextAfter(b, after));
    if first.Some? {
      assert both.FiresAt(first.value) && NextAfter(both, after).Some?;
      FirstAfterUnique(both, after, NextAfter(both, after).value, first.value);
    }
  }
}
