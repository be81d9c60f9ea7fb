/** The proleptic Gregorian calendar the cron engine walks: leap years, month
    lengths, the day number of a date, and the successor of a day. Years are
    unbounded in both directions. */
module Calendar {

  predicate IsLeap(year: int) {
    year % 4 == 0 && (year % 100 != 0 || year % 400 == 0)
  }

  function DaysInMonth(year: int, month: int): (n: int)
    requires 1 <= month <= 12
    ensures 28 <= n <= 31
  {
    if month == 2 then (if IsLeap(year) then 29 else 28)
    else if month == 4 || month == 6 || month == 9 || month == 11 then 30
    else 31
  }

  datatype Date = Date(year: int, month: int, day: int) {
    predicate Valid() {
      1 <= month <= 12 && 1 <= day <= DaysInMonth(year, month)
    }

    /** One day later: what adding timedelta(days=1) does. */
    function Succ(): Date
      requires Valid()
    {
      if day < DaysInMonth(year, month) then Date(year, month, day + 1)
      else if month < 12 then Date(year, month + 1, 1)
      else Date(year + 1, 1, 1)
    }

    function Pred(): Date
      requires Valid()
    {
      if day > 1 then Date(year, month, day - 1)
      else if month > 1 then Date(year, month - 1, DaysInMonth(year, month - 1))
      else Date(year - 1, 12, 31)
    }

    /** Python's `<` on dates. */
    predicate Before(other: Date) {
      || year < other.year
      || (year == other.year && month < other.month)
      || (year == other.year && month == other.month && day < other.day)
    }

    /** Cron's day of the week, Sunday = 0, from Python's Monday = 0. */
    function CronWeekday(): (w: int)
      requires Valid()
      ensures 0 <= w <= 6
    {
      (Weekday(Ordinal(this)) + 1) % 7
    }
  }

  function DaysBeforeYear(year: int): int {
    var y := year - 1;
    y * 365 + y / 4 - y / 100 + y / 400
  }

  function DaysBeforeMonth(year: int, month: int): int
    requires 1 <= month <= 12
    decreases month
  {
    if month == 1 then 0 else DaysBeforeMonth(year, month - 1) + DaysInMonth(year, month - 1)
  }

  /** Day number of a date; 1 January of year 1 is day 1. */
  function Ordinal(d: Date): int
    requires d.Valid()
  {
    DaysBeforeYear(d.year) + DaysBeforeMonth(d.year, d.month) + d.day
  }

  /** Python's weekday() of a day number: Monday = 0. */
  function Weekday(n: int): int {
    (n + 6) % 7
  }

  /** 3 August 2026 is a Monday. */
  const A_MONDAY := Date(2026, 8, 3)
  const MONDAY_NUMBER := 739831

  lemma JulyEnds(year: int)
    requires !IsLeap(year)
    ensures DaysBeforeMonth(year, 8) == 212
  {
    assert DaysBeforeMonth(year, 4) == 90;
    assert DaysBeforeMonth(year, 6) == 151;
  }

  lemma MondayOrdinal()
    ensures A_MONDAY.Valid() && Ordinal(A_MONDAY) == MONDAY_NUMBER
  {
    var year := 2026;
    DivMod4(year, 506, 2);
    JulyEnds(year);
    DivMod4(year - 1, 506, 1);
    DivMod100(year - 1, 20, 25);
    DivMod400(year - 1, 5, 25);
    assert DaysBeforeYear(year) == 739616;
  }

  lemma WeekdayShift(n: int)
    ensures ((n + 6) % 7 + 1) % 7 == (n - MONDAY_NUMBER + 1) % 7
  {
  }

  /** Weekdays follow each other from that Monday in both directions. */
  lemma MondaysRecur(d: Date)
    requires d.Valid()
    ensures d.CronWeekday() == (Ordinal(d) - MONDAY_NUMBER + 1) % 7
  {
    WeekdayShift(Ordinal(d));
  }

  /** The date with a given day number, reached by stepping from day 1. */
  function DateAt(n: int): (d: Date)
    ensures d.Valid()
    decreases if n > 1 then n - 1 else 1 - n
  {
    if n == 1 then Date(1, 1, 1)
    else if n > 1 then DateAt(n - 1).Succ()
    else DateAt(n + 1).Pred()
  }

  lemma YearLength(y: int)
    ensures DaysBeforeYear(y + 1) == DaysBeforeYear(y) + (if IsLeap(y) then 366 else 365)
  {
    DivByFour(y);
    DivByHundred(y);
    DivByFourHundred(y);
  }

  /** Quotient and remainder are determined by n == d * q + r. */
  lemma DivMod4(n: int, q: int, r: int)
    requires n == 4 * q + r && 0 <= r < 4
    ensures n / 4 == q && n % 4 == r
  {
  }

  lemma DivMod100(n: int, q: int, r: int)
    requires n == 100 * q + r && 0 <= r < 100
    ensures n / 100 == q && n % 100 == r
  {
  }

  lemma DivMod400(n: int, q: int, r: int)
    requires n == 400 * q + r && 0 <= r < 400
    ensures n / 400 == q && n % 400 == r
  {
  }

  lemma DivByFour(y: int)
    ensures y / 4 == (y - 1) / 4 + (if y % 4 == 0 then 1 else 0)
  {
    var q, r := y / 4, y % 4;
    if r == 0 {
      DivMod4(y - 1, q - 1, 3);
    } else {
      DivMod4(y - 1, q, r - 1);
    }
  }

  lemma DivByHundred(y: int)
    ensures y / 100 == (y - 1) / 100 + (if y % 100 == 0 then 1 else 0)
    ensures y % 100 == 0 ==> y % 4 == 0
  {
    var q, r := y / 100, y % 100;
    if r == 0 {
      DivMod100(y - 1, q - 1, 99);
      DivMod4(y, 25 * q, 0);
    } else {
      DivMod100(y - 1, q, r - 1);
    }
  }

  lemma DivByFourHundred(y: int)
    ensures y / 400 == (y - 1) / 400 + (if y % 400 == 0 then 1 else 0)
    ensures y % 400 == 0 ==> y % 100 == 0
  {
    var q, r := y / 400, y % 400;
    if r == 0 {
      DivMod400(y - 1, q - 1, 399);
      DivMod100(y, 4 * q, 0);
    } else {
      DivMod400(y - 1, q, r - 1);
    }
  }

  lemma MonthTable(y: int)
    ensures var l := if IsLeap(y) then 1 else 0;
      && DaysBeforeMonth(y, 1) == 0 && DaysBeforeMonth(y, 2) == 31
      && DaysBeforeMonth(y, 3) == 59 + l && DaysBeforeMonth(y, 4) == 90 + l
      && DaysBeforeMonth(y, 5) == 120 + l && DaysBeforeMonth(y, 6) == 151 + l
      && DaysBeforeMonth(y, 7) == 181 + l && DaysBeforeMonth(y, 8) == 212 + l
      && DaysBeforeMonth(y, 9) == 243 + l && DaysBeforeMonth(y, 10) == 273 + l
      && DaysBeforeMonth(y, 11) == 304 + l && DaysBeforeMonth(y, 12) == 334 + l
  {
    var l := if IsLeap(y) then 1 else 0;
    assert DaysBeforeMonth(y, 3) == 59 + l;
    assert DaysBeforeMonth(y, 5) == 120 + l;
    assert DaysBeforeMonth(y, 7) == 181 + l;
    assert DaysBeforeMonth(y, 9) == 243 + l;
    assert DaysBeforeMonth(y, 11) == 304 + l;
  }

  /** Stepping a date forward steps its day number by one, across month ends,
      year ends and leap days alike. */
  lemma SuccOrdinal(d: Date)
    requires d.Valid()
    ensures d.Succ().Valid() && Ordinal(d.Succ()) == Ordinal(d) + 1
  {
    if d.day == DaysInMonth(d.year, d.month) {
      if d.month == 12 {
        DecemberEnds(d.year);
      } else {
        MonthEnds(d.year, d.month);
      }
    }
  }

  lemma MonthEnds(y: int, month: int)
    requires 1 <= month < 12
    ensures DaysBeforeMonth(y, month) + DaysInMonth(y, month) == DaysBeforeMonth(y, month + 1)
  {
  }

  lemma DecemberEnds(y: int)
    ensures DaysBeforeYear(y) + DaysBeforeMonth(y, 12) + 31 == DaysBeforeYear(y + 1)
  {
    MonthTable(y);
    YearLength(y);
  }

  lemma PredOrdinal(d: Date)
    requires d.Valid()
    ensures d.Pred().Valid() && Ordinal(d.Pred()) == Ordinal(d) - 1
  {
    SuccOrdinal(d.Pred());
    assert d.Pred().Succ() == d;
  }

  lemma {:induction false} OrdinalOfDateAt(n: int)
    ensures Ordinal(DateAt(n)) == n
    decreases if n > 1 then n - 1 else 1 - n
  {
    if n > 1 {
      OrdinalOfDateAt(n - 1);
      SuccOrdinal(DateAt(n - 1));
    } else if n < 1 {
      OrdinalOfDateAt(n + 1);
      PredOrdinal(DateAt(n + 1));
    }
  }

  /** Day number of a date within its year. */
  lemma DayOfYear(d: Date)
    requires d.Valid()
    ensures DaysBeforeYear(d.year) < Ordinal(d) <= DaysBeforeYear(d.year + 1)
  {
    MonthTable(d.year);
    YearLength(d.year);
  }

  lemma {:induction false} YearsMonotone(a: int, b: int)
    requires a <= b
    ensures DaysBeforeYear(a) + 365 * (b - a) <= DaysBeforeYear(b) <= DaysBeforeYear(a) + 366 * (b - a)
    decreases b - a
  {
    if a < b {
      YearsMonotone(a, b - 1);
      YearLength(b - 1);
    }
  }

  lemma {:induction false} MonthsMonotone(year: int, a: int, b: int)
    requires 1 <= a < b <= 12
    ensures DaysBeforeMonth(year, a) + DaysInMonth(year, a) <= DaysBeforeMonth(year, b)
    decreases b - a
  {
    if a + 1 < b {
      MonthsMonotone(year, a, b - 1);
    }
  }

  lemma BeforeMeansLess(a: Date, b: Date)
    requires a.Valid() && b.Valid() && a.Before(b)
    ensures Ordinal(a) < Ordinal(b)
  {
    if a.year < b.year {
      DayOfYear(a);
      DayOfYear(b);
      YearsMonotone(a.year + 1, b.year);
    } else if a.month < b.month {
      MonthsMonotone(a.year, a.month, b.month);
    }
  }

  /** Dates are ordered as their day numbers are. */
  lemma DateOrder(a: Date, b: Date)
    requires a.Valid() && b.Valid()
    ensures a.Before(b) <==> Ordinal(a) < Ordinal(b)
    ensures a == b <==> Ordinal(a) == Ordinal(b)
  {
    if a.Before(b) {
      BeforeMeansLess(a, b);
    } else if b.Before(a) {
      BeforeMeansLess(b, a);
    }
  }

  /** DateAt and Ordinal are inverse, so day numbers and dates are the same thing. */
  lemma DateAtOfOrdinal(d: Date)
    requires d.Valid()
    ensures DateAt(Ordinal(d)) == d
  {
    OrdinalOfDateAt(Ordinal(d));
    DateOrder(DateAt(Ordinal(d)), d);
  }

  /** The dates of two day numbers are ordered as the numbers are. */
  lemma DateAtOrder(n: int, m: int)
    ensures DateAt(n).Before(DateAt(m)) <==> n < m
    ensures DateAt(n) == DateAt(m) <==> n == m
  {
    OrdinalOfDateAt(n);
    OrdinalOfDateAt(m);
    DateOrder(DateAt(n), DateAt(m));
  }

  lemma DateAtNext(n: int)
    ensures DateAt(n).Succ() == DateAt(n + 1)
  {
    OrdinalOfDateAt(n);
    SuccOrdinal(DateAt(n));
    DateAtOfOrdinal(DateAt(n).Succ());
  }

  /** The next 29 February strictly after day `n` is at most 2921 days away. The
      bound is met by the gap across a century year that is not a leap year. */
  lemma NextLeapDay(n: int) returns (year: int)
    ensures IsLeap(year)
    ensures n < Ordinal(Date(year, 2, 29)) <= n + 2921
  {
    OrdinalOfDateAt(n);
    var d := DateAt(n);
    var y := d.year;
    DayOfYear(d);
    if IsLeap(y) && n < Ordinal(Date(y, 2, 29)) {
      year := y;
    } else {
      var a := y + 4 - y % 4;
      year := if IsLeap(a) then a else a + 4;
      LeapSpacing(y, a, year);
    }
    MonthTable(year);
  }

  lemma LeapSpacing(y: int, a: int, year: int)
    requires a == y + 4 - y % 4
    requires year == if IsLeap(a) then a else a + 4
    ensures IsLeap(year) && y < year
    ensures year <= y + 7 || (year == y + 8 && IsLeap(y))
    ensures DaysBeforeYear(year) <= DaysBeforeYear(y) + 366 * (year - y)
    ensures year == y + 8 ==> DaysBeforeYear(year) == DaysBeforeYear(y) + 2921
  {
    assert a % 4 == 0;
    if !IsLeap(a) {
      AfterSkippedLeap(a);
    }
    YearsMonotone(y, year);
    if year == y + 8 {
      BeforeSkippedLeap(a);
      CommonYears(y);
      CommonYears(y + 4);
      YearLength(y);
      YearLength(y + 4);
    }
  }

  lemma AfterSkippedLeap(a: int)
    requires a % 4 == 0 && !IsLeap(a)
    ensures IsLeap(a + 4)
  {
    DivMod4(a + 4, a / 4 + 1, 0);
    DivMod100(a + 4, a / 100, 4);
  }

  lemma BeforeSkippedLeap(a: int)
    requires a % 4 == 0 && !IsLeap(a)
    ensures IsLeap(a - 4)
  {
    DivMod4(a - 4, a / 4 - 1, 0);
    DivMod100(a - 4, a / 100 - 1, 96);
  }

  /** Three common years follow every year divisible by four. */
  lemma CommonYears(y: int)
    requires y % 4 == 0
    ensures DaysBeforeYear(y + 4) == DaysBeforeYear(y + 1) + 3 * 365
  {
    NotDivisible(y);
    YearLength(y + 1);
    YearLength(y + 2);
    YearLength(y + 3);
  }

  lemma NotDivisible(y: int)
    requires y % 4 == 0
    ensures !IsLeap(y + 1) && !IsLeap(y + 2) && !IsLeap(y + 3)
  {
    var q := y / 4;
    DivMod4(y + 1, q, 1);
    DivMod4(y + 2, q, 2);
    DivMod4(y + 3, q, 3);
  }
}
