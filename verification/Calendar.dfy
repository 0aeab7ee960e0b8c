/** The proleptic Gregorian calendar: civil dates, the day numbers of ECMAScript dates, and the way back. */
module Calendar {

  datatype Date = Date(year: int, month: int, day: int)

  predicate Leap(year: int) {
    year % 4 == 0 && (year % 100 != 0 || year % 400 == 0)
  }

  function DaysInMonth(year: int, month: int): int {
    if month == 2 then (if Leap(year) then 29 else 28)
    else if month == 4 || month == 6 || month == 9 || month == 11 then 30
    else 31
  }

  predicate Valid(date: Date) {
    1 <= date.month <= 12 && 1 <= date.day <= DaysInMonth(date.year, date.month)
  }

  predicate LastOfMonth(date: Date) {
    date.day == DaysInMonth(date.year, date.month)
  }

  // ---------------------------------------------------------------- the civil calendar

  function NextDay(date: Date): (next: Date)
    requires Valid(date)
    ensures Valid(next)
  {
    if date.day < DaysInMonth(date.year, date.month) then Date(date.year, date.month, date.day + 1)
    else if date.month < 12 then Date(date.year, date.month + 1, 1)
    else Date(date.year + 1, 1, 1)
  }

  function PreviousDay(date: Date): (previous: Date)
    requires Valid(date)
    ensures Valid(previous)
  {
    if date.day > 1 then Date(date.year, date.month, date.day - 1)
    else if date.month > 1 then Date(date.year, date.month - 1, DaysInMonth(date.year, date.month - 1))
    else Date(date.year - 1, 12, 31)
  }

  predicate Earlier(a: Date, b: Date) {
    a.year < b.year || (a.year == b.year && (a.month < b.month || (a.month == b.month && a.day < b.day)))
  }

  // ---------------------------------------------------------------- day numbers

  /** The number of the first day of a year, 1 January 1970 being day 0. */
  function DayFromYear(year: int): int {
    365 * (year - 1970) + (year - 1969) / 4 - (year - 1901) / 100 + (year - 1601) / 400
  }

  function DaysBeforeMonth(year: int, month: int): int
    requires 1 <= month <= 13
    decreases month
  {
    if month == 1 then 0 else DaysBeforeMonth(year, month - 1) + DaysInMonth(year, month - 1)
  }

  /** The day of a date as ECMAScript counts it. */
  function DayNumber(date: Date): int
    requires 1 <= date.month <= 12
  {
    DayFromYear(date.year) + DaysBeforeMonth(date.year, date.month) + date.day - 1
  }

  /** A year has as many days as its months. */
  lemma YearLength(year: int)
    ensures DayFromYear(year + 1) - DayFromYear(year) == DaysBeforeMonth(year, 13)
    ensures DaysBeforeMonth(year, 13) == if Leap(year) then 366 else 365
  {
    assert (year - 1968) / 4 - (year - 1969) / 4 == if year % 4 == 0 then 1 else 0;
    assert (year - 1900) / 100 - (year - 1901) / 100 == if year % 100 == 0 then 1 else 0;
    assert (year - 1600) / 400 - (year - 1601) / 400 == if year % 400 == 0 then 1 else 0;
    MonthStarts(year);
  }

  lemma MonthStarts(year: int)
    ensures DaysBeforeMonth(year, 2) == 31
    ensures DaysBeforeMonth(year, 13) == 337 + DaysInMonth(year, 2)
  {
    assert DaysBeforeMonth(year, 4) == 62 + DaysInMonth(year, 2);
    assert DaysBeforeMonth(year, 7) == 153 + DaysInMonth(year, 2);
    assert DaysBeforeMonth(year, 10) == 245 + DaysInMonth(year, 2);
  }

  /** The day after a date has the next number. */
  lemma NextDayCounts(date: Date)
    requires Valid(date)
    ensures DayNumber(NextDay(date)) == DayNumber(date) + 1
  {
    if LastOfMonth(date) && date.month == 12 {
      YearLength(date.year);
    }
  }

  lemma PreviousDayCounts(date: Date)
    requires Valid(date)
    ensures NextDay(PreviousDay(date)) == date
    ensures DayNumber(PreviousDay(date)) == DayNumber(date) - 1
  {
    NextDayCounts(PreviousDay(date));
  }

  lemma {:induction false} MonthsInOrder(year: int, a: int, b: int)
    requires 1 <= a < b <= 13
    ensures DaysBeforeMonth(year, a) + DaysInMonth(year, a) <= DaysBeforeMonth(year, b)
    decreases b
  {
    if a < b - 1 {
      MonthsInOrder(year, a, b - 1);
    }
  }

  lemma {:induction false} YearsInOrder(a: int, b: int)
    requires a < b
    ensures DayFromYear(a) + DaysBeforeMonth(a, 13) <= DayFromYear(b)
    decreases b - a
  {
    YearLength(b - 1);
    if a < b - 1 {
      YearsInOrder(a, b - 1);
    }
  }

  lemma WithinYear(date: Date)
    requires Valid(date)
    ensures DayFromYear(date.year) <= DayNumber(date) < DayFromYear(date.year) + DaysBeforeMonth(date.year, 13)
  {
    MonthsInOrder(date.year, date.month, 13);
    if date.month > 1 {
      MonthsInOrder(date.year, 1, date.month);
    }
  }

  lemma EarlierHasSmallerNumber(a: Date, b: Date)
    requires Valid(a) && Valid(b) && Earlier(a, b)
    ensures DayNumber(a) < DayNumber(b)
  {
    if a.year < b.year {
      YearsInOrder(a.year, b.year);
      WithinYear(a);
      WithinYear(b);
    } else if a.month < b.month {
      MonthsInOrder(a.year, a.month, b.month);
    }
  }

  /** Day numbers order dates as the calendar does, and no two dates share one. */
  lemma DayNumbersOrderDates(a: Date, b: Date)
    requires Valid(a) && Valid(b)
    ensures DayNumber(a) < DayNumber(b) <==> Earlier(a, b)
    ensures DayNumber(a) == DayNumber(b) <==> a == b
  {
    if Earlier(a, b) {
      EarlierHasSmallerNumber(a, b);
    } else if Earlier(b, a) {
      EarlierHasSmallerNumber(b, a);
    } else {
      assert a == b;
    }
  }

  // ---------------------------------------------------------------- and back

  /** The year of a day: an estimate from the mean length of a year, one off at most. */
  function YearFromDay(n: int): int {
    var guess := 1970 + n * 400 / 146097;
    if DayFromYear(guess) > n then guess - 1
    else if DayFromYear(guess + 1) <= n then guess + 1
    else guess
  }

  lemma YearFromDayIsRight(n: int)
    ensures DayFromYear(YearFromDay(n)) <= n < DayFromYear(YearFromDay(n) + 1)
  {
    var c := n * 400 / 146097;
    var r := n * 400 % 146097;
    assert n * 400 == c * 146097 + r;
    YearNearMean(1970 + c - 1);
    YearNearMean(1970 + c + 2);
  }

  /** The first day of a year is within two days of its mean place. */
  lemma YearNearMean(year: int)
    ensures 146097 * (year - 1970) - 800 <= 400 * DayFromYear(year) <= 146097 * (year - 1970) + 800
  {
    var a, b, c := (year - 1969) / 4, (year - 1901) / 100, (year - 1601) / 400;
    assert 4 * a <= year - 1969 <= 4 * a + 3;
    assert 100 * b <= year - 1901 <= 100 * b + 99;
    assert 400 * c <= year - 1601 <= 400 * c + 399;
  }

  function MonthFromDay(year: int, n: int, month: int): (m: int)
    requires 1 <= month <= 12 && DaysBeforeMonth(year, month) <= n < DaysBeforeMonth(year, 13)
    ensures month <= m <= 12 && DaysBeforeMonth(year, m) <= n < DaysBeforeMonth(year, m + 1)
    decreases 12 - month
  {
    if n < DaysBeforeMonth(year, month + 1) then month else MonthFromDay(year, n, month + 1)
  }

  function DateFromDay(n: int): (date: Date)
    ensures Valid(date) && DayNumber(date) == n
  {
    var year := YearFromDay(n);
    YearFromDayIsRight(n);
    YearLength(year);
    var rest := n - DayFromYear(year);
    var month := MonthFromDay(year, rest, 1);
    Date(year, month, rest - DaysBeforeMonth(year, month) + 1)
  }

  /** Numbering dates and reading numbers back are inverse to each other. */
  lemma DateRoundTrip(date: Date)
    requires Valid(date)
    ensures DateFromDay(DayNumber(date)) == date
  {
    DayNumbersOrderDates(DateFromDay(DayNumber(date)), date);
  }

  lemma FourCenturies(year: int)
    ensures DayFromYear(year + 400) == DayFromYear(year) + 146_097
  {
    assert (year + 400 - 1969) / 4 == (year - 1969) / 4 + 100;
    assert (year + 400 - 1901) / 100 == (year - 1901) / 100 + 4;
  }

  lemma EpochDay()
    ensures DayNumber(Date(1970, 1, 1)) == 0
  {
    assert DaysBeforeMonth(1970, 1) == 0;
    assert DayFromYear(1970) == 0;
  }

  lemma ThirtyDays(year: int, month: int)
    ensures Valid(Date(year, month, 30)) && !Valid(Date(year, month, 31)) <==> month in {4, 6, 9, 11}
  {
  }

  /** Day 0 is 1 January 1970; 29 February is a date of the leap years of the Gregorian calendar, and 400 years have 146097 days. */
  lemma GregorianDays(year: int)
    ensures DayNumber(Date(1970, 1, 1)) == 0
    ensures Valid(Date(year, 2, 29)) <==> year % 4 == 0 && (year % 100 != 0 || year % 400 == 0)
    ensures DayNumber(Date(year + 400, 1, 1)) == DayNumber(Date(year, 1, 1)) + 146_097
    ensures forall month :: Valid(Date(year, month, 30)) && !Valid(Date(year, month, 31)) <==> month in {4, 6, 9, 11}
  {
    EpochDay();
    FourCenturies(year);
    assert DaysBeforeMonth(year, 1) == DaysBeforeMonth(year + 400, 1) == 0;
    forall month
      ensures Valid(Date(year, month, 30)) && !Valid(Date(year, month, 31)) <==> month in {4, 6, 9, 11}
    {
      ThirtyDays(year, month);
    }
  }
}
