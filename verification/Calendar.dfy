/** Days counted from 1970-01-01 and the Gregorian calendar months they fall in, counted from January of year 0. */
module Calendar {
  type Date = int

  predicate IsLeap(year: int) { year % 4 == 0 && (year % 100 != 0 || year % 400 == 0) }

  function DaysInMonth(month: int): nat {
    match month % 12
    case 1 => if IsLeap(month / 12) then 29 else 28
    case 3 => 30
    case 5 => 30
    case 8 => 30
    case 10 => 30
    case _ => 31
  }

  /** 1 March of a year; the leap day, if any, comes just before. */
  function MarchFirst(year: int): Date { 365 * year + year / 4 - year / 100 + year / 400 - 719468 }

  /** Days from 1 March to the first of the n-th month after it. */
  function DaysSinceMarch(n: nat): nat { (153 * n + 2) / 5 }

  /** The first day of a month. */
  function FirstDay(month: int): Date { MarchFirst((month - 2) / 12) + DaysSinceMarch((month - 2) % 12) }

  predicate InMonth(day: Date, month: int) { FirstDay(month) <= day < FirstDay(month + 1) }

  /** The year, begun in March, of a day counted from 1 March of year 0, within a 400-year cycle, and the day in it. */
  function YearInCycle(day: nat): (r: (nat, nat))
    requires day < 146097
    ensures r.0 < 400 && day == 365 * r.0 + r.0 / 4 - r.0 / 100 + r.1
    ensures r.1 <= 365 && (r.1 == 365 ==> IsLeap(r.0 + 1))
  {
    var century := if day / 36524 > 3 then 3 else day / 36524;
    var inCentury := day - 36524 * century;
    var four := inCentury / 1461;
    var inFour := inCentury % 1461;
    var year := if inFour / 365 > 3 then 3 else inFour / 365;
    SplitYear(century, four, year);
    (100 * century + 4 * four + year, inFour - 365 * year)
  }

  lemma SplitYear(century: nat, four: nat, year: nat)
    requires century < 4 && four < 25 && year < 4
    ensures var y := 100 * century + 4 * four + year;
      && y < 400 && y / 4 == 25 * century + four && y / 100 == century
      && ((y + 1) % 4 == 0 <==> year == 3) && ((y + 1) % 100 == 0 <==> four == 24 && year == 3)
      && ((y + 1) % 400 == 0 <==> century == 3 && four == 24 && year == 3)
  {
  }

  function MonthOf(day: Date): int {
    var z := day + 719468;
    var (year, dayOfYear) := YearInCycle(z % 146097);
    12 * (400 * (z / 146097) + year) + (5 * dayOfYear + 2) / 153 + 2
  }

  // ---------------------------------------------------------------- the calendar

  lemma QuarterStep(y: int)
    ensures y / 4 == (y - 1) / 4 + if y % 4 == 0 then 1 else 0
  {
  }

  lemma CenturyStep(y: int)
    ensures y / 100 == (y - 1) / 100 + if y % 100 == 0 then 1 else 0
  {
  }

  lemma CycleStep(y: int)
    ensures y / 400 == (y - 1) / 400 + if y % 400 == 0 then 1 else 0
  {
  }

  lemma CenturyIsRound(y: int)
    requires y % 100 == 0
    ensures y % 4 == 0
  {
    assert y == 4 * (25 * (y / 100));
  }

  lemma CycleIsRound(y: int)
    requires y % 400 == 0
    ensures y % 100 == 0
  {
    assert y == 100 * (4 * (y / 400));
  }

  lemma YearLength(year: int)
    ensures MarchFirst(year) == MarchFirst(year - 1) + if IsLeap(year) then 366 else 365
  {
    QuarterStep(year);
    CenturyStep(year);
    CycleStep(year);
    if year % 100 == 0 { CenturyIsRound(year); }
    if year % 400 == 0 { CycleIsRound(year); }
  }

  lemma MonthAt(year: int, n: nat)
    requires n < 12
    ensures FirstDay(12 * year + n + 2) == MarchFirst(year) + DaysSinceMarch(n)
  {
    assert (12 * year + n) / 12 == year && (12 * year + n) % 12 == n;
  }

  lemma LengthOutOfWinter(year: int, n: nat)
    requires n < 10
    ensures DaysSinceMarch(n + 1) == DaysSinceMarch(n) + DaysInMonth(12 * year + n + 2)
  {
    assert n == 0 || n == 1 || n == 2 || n == 3 || n == 4 || n == 5 || n == 6 || n == 7 || n == 8 || n == 9;
  }

  lemma LengthOfEarlyMonth(year: int, n: nat, month: int)
    requires n < 10 && month == 12 * year + n + 2
    ensures FirstDay(month + 1) == FirstDay(month) + DaysInMonth(month)
  {
    MonthAt(year, n);
    MonthAt(year, n + 1);
    LengthOutOfWinter(year, n);
  }

  lemma LengthOfFebruary(year: int, month: int)
    requires month == 12 * year + 13
    ensures FirstDay(month + 1) == FirstDay(month) + DaysInMonth(month)
  {
    calc {
      FirstDay(month + 1);
    ==  { MonthAt(year + 1, 0); }
      MarchFirst(year + 1);
    ==  { YearLength(year + 1); }
      MarchFirst(year) + 337 + if IsLeap(year + 1) then 29 else 28;
    ==  { MonthAt(year, 11); }
      FirstDay(month) + if IsLeap(year + 1) then 29 else 28;
    ==
      FirstDay(month) + DaysInMonth(month);
    }
  }

  lemma EpochIsDayZero()
    ensures FirstDay(12 * 1970) == 0
  {
  }

  /** Months follow one another, each as long as the calendar says. */
  lemma MonthsFollow(month: int)
    ensures FirstDay(month + 1) == FirstDay(month) + DaysInMonth(month)
  {
    var year, n := (month - 2) / 12, (month - 2) % 12;
    if n < 10 {
      LengthOfEarlyMonth(year, n, month);
    } else if n == 10 {
    } else {
      LengthOfFebruary(year, month);
    }
  }

  lemma {:induction false} LaterMonthsBeginLater(month: int, later: int)
    requires month <= later
    ensures FirstDay(month) <= FirstDay(later)
    decreases later - month
  {
    if month < later {
      LaterMonthsBeginLater(month, later - 1);
      MonthsFollow(later - 1);
    }
  }

  lemma QuarterShift(cycle: int, y: int)
    ensures (400 * cycle + y) / 4 == 100 * cycle + y / 4 && (400 * cycle + y) % 4 == y % 4
  {
  }

  lemma CenturyShift(cycle: int, y: int)
    ensures (400 * cycle + y) / 100 == 4 * cycle + y / 100 && (400 * cycle + y) % 100 == y % 100
  {
  }

  lemma CycleShift(cycle: int, y: int)
    ensures (400 * cycle + y) / 400 == cycle + y / 400 && (400 * cycle + y) % 400 == y % 400
  {
  }

  /** 400 years are one cycle. */
  lemma CycleYear(cycle: int, year: nat)
    requires year < 400
    ensures MarchFirst(400 * cycle + year) == 146097 * cycle + 365 * year + year / 4 - year / 100 - 719468
  {
    QuarterShift(cycle, year);
    CenturyShift(cycle, year);
    CycleShift(cycle, year);
  }

  lemma CycleLeap(cycle: int, year: nat)
    ensures IsLeap(400 * cycle + year + 1) <==> IsLeap(year + 1)
  {
    QuarterShift(cycle, year + 1);
    CenturyShift(cycle, year + 1);
    CycleShift(cycle, year + 1);
  }

  /** The month a day of the March year belongs to. */
  lemma DayInYear(year: int, dayOfYear: nat, n: nat)
    requires dayOfYear <= 365 && (dayOfYear == 365 ==> IsLeap(year + 1)) && n == (5 * dayOfYear + 2) / 153
    ensures FirstDay(12 * year + n + 2) <= MarchFirst(year) + dayOfYear < FirstDay(12 * year + n + 3)
  {
    MonthAt(year, n);
    if n < 11 {
      MonthAt(year, n + 1);
    } else {
      MonthAt(year + 1, 0);
      YearLength(year + 1);
    }
  }

  lemma DayInCycle(cycle: int, year: nat, dayOfYear: nat, n: nat, day: Date, month: int)
    requires year < 400 && dayOfYear <= 365 && (dayOfYear == 365 ==> IsLeap(year + 1))
    requires day + 719468 == 146097 * cycle + 365 * year + year / 4 - year / 100 + dayOfYear
    requires n == (5 * dayOfYear + 2) / 153 && month == 12 * (400 * cycle + year) + n + 2
    ensures FirstDay(month) <= day < FirstDay(month + 1)
  {
    CycleYear(cycle, year);
    CycleLeap(cycle, year);
    DayInYear(400 * cycle + year, dayOfYear, n);
  }

  lemma MonthContainsDay(day: Date)
    ensures InMonth(day, MonthOf(day))
  {
    var z := day + 719468;
    var (year, dayOfYear) := YearInCycle(z % 146097);
    DayInCycle(z / 146097, year, dayOfYear, (5 * dayOfYear + 2) / 153, day, MonthOf(day));
  }

  lemma NotInLaterMonth(day: Date, month: int, later: int)
    requires InMonth(day, month) && month < later
    ensures !InMonth(day, later)
  {
    LaterMonthsBeginLater(month + 1, later);
  }

  /** A day's month is the one whose days it lies among. */
  lemma MonthOfIsCalendarMonth(day: Date, month: int)
    ensures MonthOf(day) == month <==> InMonth(day, month)
  {
    MonthContainsDay(day);
    if month < MonthOf(day) && InMonth(day, month) { NotInLaterMonth(day, month, MonthOf(day)); }
    if MonthOf(day) < month { NotInLaterMonth(day, MonthOf(day), month); }
  }
}
