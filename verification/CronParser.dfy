/** Five-field cron expressions: parsing, validation and normalisation. */
module CronParser {
  import opened Wrappers
  import opened Text
  import opened CronSchedule

  const MONTH_NAMES: map<string, int> := map[
    "JAN" := 1, "FEB" := 2, "MAR" := 3, "APR" := 4, "MAY" := 5, "JUN" := 6,
    "JUL" := 7, "AUG" := 8, "SEP" := 9, "OCT" := 10, "NOV" := 11, "DEC" := 12]

  const DAY_NAMES: map<string, int> := map[
    "SUN" := 0, "MON" := 1, "TUE" := 2, "WED" := 3, "THU" := 4, "FRI" := 5, "SAT" := 6]

  datatype Field = MinuteField | HourField | DayField | MonthField | WeekdayField {
    function Low(): int {
      if DayField? || MonthField? then 1 else 0
    }

    function High(): int {
      match this
      case MinuteField => 59
      case HourField => 23
      case DayField => 31
      case MonthField => 12
      case WeekdayField => 7
    }

    function Names(): map<string, int> {
      if MonthField? then MONTH_NAMES else if WeekdayField? then DAY_NAMES else map[]
    }
  }

  datatype CronError =
    | Required
    | WrongFieldCount(count: nat)
    | EmptyField(field: Field)
    | EmptyEntry(field: Field)
    | BadStep(field: Field)
    | StepTooSmall(field: Field)
    | RunsBackwards(field: Field)
    | EmptyValue(field: Field)
    | Unrecognised(field: Field)
    | OutOfRange(field: Field)
    | NeverOccurs

  lemma NamesInRange(f: Field, name: string)
    requires name in f.Names()
    ensures f.Low() <= f.Names()[name] <= f.High()
  {
  }

  function ParseValue(raw: string, f: Field): (r: Result<int, CronError>)
    ensures r.Ok? ==> f.Low() <= r.value <= f.High()
  {
    var token := Trim(raw);
    if token == "" then Err(EmptyValue(f))
    else if Upper(token) in f.Names() then
      NamesInRange(f, Upper(token));
      Ok(f.Names()[Upper(token)])
    else
      match ParseInt(token)
      case None => Err(Unrecognised(f))
      case Some(value) => if f.Low() <= value <= f.High() then Ok(value) else Err(OutOfRange(f))
  }

  /** One entry of a field's list, as range(start, end + 1, step). */
  datatype Entry = Entry(start: int, end: int, step: int) {
    predicate Valid(f: Field) {
      f.Low() <= start <= end <= f.High() && step >= 1
    }

    predicate Has(v: int)
      requires step >= 1
    {
      start <= v <= end && (v - start) % step == 0
    }
  }

  function ParseStep(raw: string, f: Field): (r: Result<int, CronError>)
    ensures r.Ok? ==> r.value >= 1
  {
    match ParseInt(raw)
    case None => Err(BadStep(f))
    case Some(step) => if step < 1 then Err(StepTooSmall(f)) else Ok(step)
  }

  function ParseBounds(part: string, step: int, f: Field): (r: Result<Entry, CronError>)
    requires step >= 1
    ensures r.Ok? ==> r.value.Valid(f)
  {
    if part == "*" then Ok(Entry(f.Low(), f.High(), step))
    else if '-' in part then
      var start :- ParseValue(Before(part, '-'), f);
      var end :- ParseValue(Behind(part, '-'), f);
      if start > end then Err(RunsBackwards(f)) else Ok(Entry(start, end, step))
    else
      var start :- ParseValue(part, f);
      Ok(Entry(start, if step > 1 then f.High() else start, step))
  }

  function ParseEntry(raw: string, f: Field): (r: Result<Entry, CronError>)
    ensures r.Ok? ==> r.value.Valid(f)
  {
    var part := Trim(raw);
    if part == "" then Err(EmptyEntry(f))
    else if '/' in part then
      var step :- ParseStep(Behind(part, '/'), f);
      ParseBounds(Trim(Before(part, '/')), step, f)
    else ParseBounds(part, 1, f)
  }

  function EntryValues(e: Entry, f: Field): (r: set<int>)
    requires e.Valid(f)
    ensures forall v :: v in r <==> e.Has(v)
  {
    set v | e.start <= v <= e.end && e.Has(v)
  }

  /** The values of the entries so far, or the first entry that does not parse. */
  function Collect(parts: seq<string>, f: Field): Result<set<int>, CronError>
    decreases |parts|
  {
    if parts == [] then Ok({})
    else
      var before :- Collect(parts[..|parts| - 1], f);
      var entry :- ParseEntry(parts[|parts| - 1], f);
      Ok(before + EntryValues(entry, f))
  }

  /** What a field parses to. */
  function FieldValues(raw: string, f: Field): Result<set<int>, CronError> {
    if Trim(raw) == "" then Err(EmptyField(f)) else Collect(SplitOn(Trim(raw), ','), f)
  }

  /** _parse_field: the loop over the comma-separated entries. */
  method ParseField(raw: string, f: Field) returns (r: Result<set<int>, CronError>)
    ensures r == FieldValues(raw, f)
  {
    var text := Trim(raw);
    if text == "" {
      return Err(EmptyField(f));
    }
    var values: set<int> := {};
    var parts := SplitOn(text, ',');
    for i := 0 to |parts|
      invariant Collect(parts[..i], f) == Ok(values)
    {
      assert parts[..i + 1] == parts[..i] + [parts[i]];
      CollectStep(parts[..i], parts[i], f);
      var entry := ParseEntry(parts[i], f);
      if entry.Err? {
        FirstErrorStands(parts, i + 1, f);
        return Err(entry.error);
      }
      values := values + EntryValues(entry.value, f);
    }
    assert parts[..|parts|] == parts;
    return Ok(values);
  }

  lemma {:induction false} FirstErrorStands(parts: seq<string>, i: nat, f: Field)
    requires i <= |parts| && Collect(parts[..i], f).Err?
    ensures Collect(parts, f) == Collect(parts[..i], f)
    decreases |parts|
  {
    if i < |parts| {
      var front, last := parts[..|parts| - 1], parts[|parts| - 1];
      assert front[..i] == parts[..i] && parts == front + [last];
      FirstErrorStands(front, i, f);
      CollectStep(front, last, f);
    } else {
      assert parts[..i] == parts;
    }
  }

  ghost predicate Accepted(part: string, f: Field) {
    ParseEntry(part, f).Ok?
  }

  ghost predicate StandsFor(part: string, f: Field, v: int) {
    ParseEntry(part, f).Ok? && ParseEntry(part, f).value.Has(v)
  }

  /** Whether v is one of the values some entry of a list stands for. */
  ghost predicate Listed(parts: seq<string>, f: Field, v: int) {
    exists part :: part in parts && StandsFor(part, f, v)
  }

  lemma CollectStep(front: seq<string>, last: string, f: Field)
    ensures Collect(front + [last], f).Ok? <==> Collect(front, f).Ok? && Accepted(last, f)
    ensures Collect(front + [last], f).Ok? ==>
      && Collect(front + [last], f).value == Collect(front, f).value + EntryValues(ParseEntry(last, f).value, f)
      && forall v :: v in Collect(front + [last], f).value <==> v in Collect(front, f).value || StandsFor(last, f, v)
    ensures Collect(front, f).Err? ==> Collect(front + [last], f) == Collect(front, f)
    ensures Collect(front, f).Ok? && !Accepted(last, f) ==>
      Collect(front + [last], f) == Err(ParseEntry(last, f).error)
  {
    var parts := front + [last];
    assert parts[..|parts| - 1] == front;
  }

  lemma {:induction false} ListAccepted(parts: seq<string>, f: Field)
    ensures Collect(parts, f).Ok? <==> forall part :: part in parts ==> Accepted(part, f)
    decreases |parts|
  {
    if parts != [] {
      var front, last := parts[..|parts| - 1], parts[|parts| - 1];
      assert parts == front + [last];
      ListAccepted(front, f);
      CollectStep(front, last, f);
    }
  }

  lemma {:induction false} ListValues(parts: seq<string>, f: Field)
    requires Collect(parts, f).Ok?
    ensures forall v :: v in Collect(parts, f).value <==> Listed(parts, f, v)
    decreases |parts|
  {
    if parts != [] {
      var front, last := parts[..|parts| - 1], parts[|parts| - 1];
      assert parts == front + [last];
      CollectStep(front, last, f);
      ListValues(front, f);
      forall v ensures Listed(parts, f, v) <==> Listed(front, f, v) || StandsFor(last, f, v) {
        assert last in parts;
      }
    }
  }

  /** A list of entries is accepted when every entry is, it then stands for exactly the
      values its entries stand for, and they all lie in the field's range. */
  lemma ListMeaning(parts: seq<string>, f: Field)
    ensures Collect(parts, f).Ok? <==> forall part :: part in parts ==> Accepted(part, f)
    ensures Collect(parts, f).Ok? ==> forall v :: v in Collect(parts, f).value <==> Listed(parts, f, v)
    ensures Collect(parts, f).Ok? ==> forall v :: v in Collect(parts, f).value ==> f.Low() <= v <= f.High()
  {
    ListAccepted(parts, f);
    if Collect(parts, f).Ok? {
      ListValues(parts, f);
    }
  }

  /** An accepted field is a nonempty set inside its range; a bare * is all of it. */
  lemma FieldInRange(raw: string, f: Field)
    requires FieldValues(raw, f).Ok?
    ensures exists v :: v in FieldValues(raw, f).value
    ensures forall v :: v in FieldValues(raw, f).value ==> f.Low() <= v <= f.High()
  {
    var parts := SplitOn(Trim(raw), ',');
    ListMeaning(parts, f);
    assert parts[0] in parts && Accepted(parts[0], f);
    assert StandsFor(parts[0], f, ParseEntry(parts[0], f).value.start);
    assert Listed(parts, f, ParseEntry(parts[0], f).value.start);
  }

  lemma OneEntry(text: string, f: Field)
    requires NoSpaces(text) && text != "" && ',' !in text
    ensures FieldValues(text, f).Ok? <==> ParseEntry(text, f).Ok?
    ensures FieldValues(text, f).Ok? ==> FieldValues(text, f).value == EntryValues(ParseEntry(text, f).value, f)
  {
    TrimNoSpaces(text);
    SplitWithout(text, ',');
    assert [text][..0] == [];
    assert Collect([text][..0], f) == Ok({});
  }

  lemma StarField(f: Field)
    ensures FieldValues("*", f).Ok?
    ensures forall v :: v in FieldValues("*", f).value <==> f.Low() <= v <= f.High()
  {
    TrimNoSpaces("*");
    OneEntry("*", f);
  }

  /** A field that is a plain number stands for that number alone. */
  lemma NumberField(text: string, f: Field)
    requires IsDigits(text)
    ensures FieldValues(text, f).Ok? <==> f.Low() <= DigitsValue(text) <= f.High()
    ensures FieldValues(text, f).Ok? ==> FieldValues(text, f).value == {DigitsValue(text)}
  {
    DigitsHaveNoSpaces(text);
    TrimNoSpaces(text);
    OneEntry(text, f);
    DigitsAreNotNames(text, f);
    if FieldValues(text, f).Ok? {
      var n := DigitsValue(text);
      assert forall v :: v in FieldValues(text, f).value <==> v == n;
      SameMembers(FieldValues(text, f).value, {n});
    }
  }

  lemma DigitsAreNotNames(text: string, f: Field)
    requires IsDigits(text)
    ensures Upper(text) !in f.Names()
  {
    assert IsDigit(text[0]) && Upper(text)[0] == text[0];
    assert forall name :: name in MONTH_NAMES || name in DAY_NAMES ==> |name| == 3 && !IsDigit(name[0]);
  }

  // ── Whole expressions ──────────────────────────────────────────────

  function WithSundayAsZero(weekdays: set<int>): set<int> {
    if 7 in weekdays then (weekdays - {7}) + {0} else weekdays
  }

  /** The schedule the five fields stand for, or the first error. */
  function ParseFields(fields: seq<string>): Result<Schedule, CronError> {
    if |fields| != 5 then Err(WrongFieldCount(|fields|))
    else
      var minutes :- FieldValues(fields[0], MinuteField);
      var hours :- FieldValues(fields[1], HourField);
      var days :- FieldValues(fields[2], DayField);
      var months :- FieldValues(fields[3], MonthField);
      var weekdays :- FieldValues(fields[4], WeekdayField);
      Ok(Schedule(minutes, hours, days, months, WithSundayAsZero(weekdays), Trim(fields[2]) != "*", Trim(fields[4]) != "*"))
  }

  function Parsed(expression: string): Result<Schedule, CronError> {
    if Trim(expression) == "" then Err(Required) else ParseFields(Words(expression))
  }

  /** parse() and the constructor of CronSchedule. */
  method Parse(expression: string) returns (r: Result<Schedule, CronError>)
    ensures r == Parsed(expression)
  {
    if Trim(expression) == "" {
      return Err(Required);
    }
    var fields := Words(expression);
    if |fields| != 5 {
      return Err(WrongFieldCount(|fields|));
    }
    var minutes := ParseField(fields[0], MinuteField);
    if minutes.Err? { return Err(minutes.error); }
    var hours := ParseField(fields[1], HourField);
    if hours.Err? { return Err(hours.error); }
    var days := ParseField(fields[2], DayField);
    if days.Err? { return Err(days.error); }
    var months := ParseField(fields[3], MonthField);
    if months.Err? { return Err(months.error); }
    var weekdays := ParseField(fields[4], WeekdayField);
    if weekdays.Err? { return Err(weekdays.error); }
    var normal := weekdays.value;
    if 7 in normal {
      normal := (normal - {7}) + {0};
    }
    return Ok(Schedule(
      minutes.value, hours.value, days.value, months.value, normal,
      Trim(fields[2]) != "*", Trim(fields[4]) != "*"));
  }

  /** Everything that parses is fit for the search: this is what lets the search's
      results hold for every accepted expression. */
  lemma ParsedIsValid(fields: seq<string>)
    requires ParseFields(fields).Ok?
    ensures ParseFields(fields).value.Valid()
  {
    FieldInRange(fields[0], MinuteField);
    FieldInRange(fields[1], HourField);
    FieldInRange(fields[2], DayField);
    FieldInRange(fields[3], MonthField);
    FieldInRange(fields[4], WeekdayField);
    WeekdaysInRange(FieldValues(fields[4], WeekdayField).value);
    if Trim(fields[2]) == "*" {
      StarAfterTrim(fields[2], DayField);
    }
    if Trim(fields[4]) == "*" {
      StarAfterTrim(fields[4], WeekdayField);
    }
  }

  lemma WeekdaysInRange(weekdays: set<int>)
    requires exists v :: v in weekdays
    requires forall v :: v in weekdays ==> 0 <= v <= 7
    ensures exists v :: v in WithSundayAsZero(weekdays)
    ensures forall v :: v in WithSundayAsZero(weekdays) ==> 0 <= v <= 6
  {
    var v :| v in weekdays;
    assert (if 7 in weekdays then 0 else v) in WithSundayAsZero(weekdays);
  }

  lemma StarAfterTrim(raw: string, f: Field)
    requires Trim(raw) == "*"
    ensures FieldValues(raw, f).Ok?
    ensures forall v :: f.Low() <= v <= f.High() ==> v in FieldValues(raw, f).value
  {
    TrimNoSpaces("*");
    StarField(f);
  }

  /** The normalised expression: the fields joined by single spaces. */
  function Normalised(expression: string): string {
    Join(Words(expression), ' ')
  }

  /** validate(): accepts an expression exactly when it parses and can ever fire, which
      does not depend on the clock, and returns its normal form. */
  method Validate(expression: string, now: int) returns (r: Result<string, CronError>)
    ensures r.Ok? <==> Parsed(expression).Ok? && exists t :: Parsed(expression).value.FiresAt(t)
    ensures r.Ok? ==> r.value == Normalised(expression)
    ensures Parsed(expression).Err? ==> r == Err(Parsed(expression).error)
    ensures Parsed(expression).Ok? && r.Err? ==> r.error == NeverOccurs
  {
    var parsed := Parse(expression);
    if parsed.Err? {
      return Err(parsed.error);
    }
    ParsedIsValid(Words(expression));
    var next := SearchNextAfter(parsed.value, now);
    if next.None? {
      return Err(NeverOccurs);
    }
    assert parsed.value.FiresAt(next.value);
    return Ok(Normalised(expression));
  }

  lemma WordsMeanNotBlank(s: string)
    ensures Words(s) == [] <==> Trim(s) == ""
  {
    LeftTrimKeepsWords(s);
    var t := TrimLeft(s);
    if t != "" {
      FirstCharStays(t);
    }
  }

  lemma {:induction false} LeftTrimKeepsWords(s: string)
    ensures Words(TrimLeft(s)) == Words(s)
    ensures TrimLeft(s) != "" ==> !IsSpace(TrimLeft(s)[0])
    decreases |s|
  {
    if s != "" && IsSpace(s[0]) {
      LeftTrimKeepsWords(s[1..]);
    }
  }

  lemma {:induction false} FirstCharStays(s: string)
    requires s != "" && !IsSpace(s[0])
    ensures TrimRight(s) != ""
    decreases |s|
  {
    if IsSpace(s[|s| - 1]) {
      FirstCharStays(s[..|s| - 1]);
    }
  }

  lemma JoinedIsParsed(fields: seq<string>)
    requires fields != [] && forall i :: 0 <= i < |fields| ==> fields[i] != "" && NoSpaces(fields[i])
    ensures Words(Join(fields, ' ')) == fields && Parsed(Join(fields, ' ')) == ParseFields(fields)
  {
    WordsOfJoin(fields);
    WordsMeanNotBlank(Join(fields, ' '));
  }

  /** Two expressions have the same normal form exactly when they have the same words. */
  lemma NormalFormIsCanonical(a: string, b: string)
    ensures Normalised(a) == Normalised(b) <==> Words(a) == Words(b)
  {
    WordsOfJoin(Words(a));
    WordsOfJoin(Words(b));
  }

  /** Normalising does not change what an expression means, and is done in one go. */
  lemma NormalFormMeansTheSame(expression: string)
    ensures Parsed(Normalised(expression)) == Parsed(expression)
    ensures Normalised(Normalised(expression)) == Normalised(expression)
  {
    WordsOfJoin(Words(expression));
    WordsMeanNotBlank(expression);
    WordsMeanNotBlank(Normalised(expression));
  }
}
