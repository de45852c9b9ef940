/** The proleptic Gregorian day count of src/evt/render.rs (`parse_iso8601_timestamp`, `is_leap_year`). */
module Calendar {
  import opened Wrappers

  predicate IsLeapYear(year: int) {
    (year % 4 == 0 && year % 100 != 0) || year % 400 == 0
  }

  const DAYS_IN_MONTH: seq<nat> := [31, 28, 31, 30, 31, 30, 31, 31, 30, 31, 30, 31]

  /** Days the month loop adds for month m: February gains the leap day. */
  function DaysIn(year: int, month: nat): (d: nat)
    requires 1 <= month <= 12
    ensures 28 <= d <= 31
  {
    match month
    case 2 => if IsLeapYear(year) then 29 else 28
    case 4 => 30
    case 6 => 30
    case 9 => 30
    case 11 => 30
    case _ => 31
  }

  function YearLength(year: int): (d: nat)
  {
    if IsLeapYear(year) then 366 else 365
  }

  /** Days of the complete years from 1970 up to `year`; none before 1970. */
  function DaysBeforeYear(year: int): (d: nat)
    decreases year
  {
    if year <= 1970 then 0 else DaysBeforeYear(year - 1) + YearLength(year - 1)
  }

  /** Days of the complete months before `month`. */
  function DaysBeforeMonth(year: int, month: nat): (d: nat)
    requires month <= 13
  {
    if month <= 1 then 0 else DaysBeforeMonth(year, month - 1) + DaysIn(year, month - 1)
  }

  function DayNumber(year: int, month: nat, day: nat): (d: nat)
    requires month <= 13 && day >= 1
  {
    DaysBeforeYear(year) + DaysBeforeMonth(year, month) + (day - 1)
  }

  // ----- the Gregorian calendar in numbers -----

  /**
   The days from 1970-01-01 to the first of January: 365 a year, one more for every fourth, one less for every
   hundredth, one more for every four hundredth before it; 492, 19 and 4 of them lie before 1970.
   */
  function GregorianYears(year: int): (d: int)
  {
    if year < 1970 then 0
    else 365 * (year - 1970) + ((year - 1) / 4 - 492) - ((year - 1) / 100 - 19) + ((year - 1) / 400 - 4)
  }

  /** The days of a common year before each month, and after the last. */
  function CommonDays(month: nat): (d: nat)
  {
    match month
    case 0 => 0
    case 1 => 0
    case 2 => 31
    case 3 => 59
    case 4 => 90
    case 5 => 120
    case 6 => 151
    case 7 => 181
    case 8 => 212
    case 9 => 243
    case 10 => 273
    case 11 => 304
    case 12 => 334
    case _ => 365
  }

  /** From March on, the 29th of February counts. */
  function GregorianDay(year: int, month: nat, day: nat): (d: int)
  {
    CommonDays(month) + day - 1
    + if month > 2 && year % 4 == 0 && (year % 100 != 0 || year % 400 == 0) then 1 else 0
  }

  lemma {:induction false} YearsAreGregorian(year: int)
    ensures DaysBeforeYear(year) == GregorianYears(year)
    decreases year
  {
    if year > 1970 {
      YearsAreGregorian(year - 1);
      GregorianYear(year - 1);
    }
  }

  lemma GregorianYear(year: int)
    requires year >= 1970
    ensures GregorianYears(year + 1) == GregorianYears(year) + YearLength(year)
  {
    Quotient(year, 4);
    Quotient(year, 100);
    Quotient(year, 400);
    if year % 400 == 0 {
      assert year % 4 == 0 && year % 100 == 0;
    } else if year % 100 == 0 {
      assert year % 4 == 0;
    }
  }

  /** A quotient grows exactly at the multiples. */
  lemma Quotient(n: int, k: nat)
    requires n >= 1 && (k == 4 || k == 100 || k == 400)
    ensures n / k == (n - 1) / k + if n % k == 0 then 1 else 0
  {
  }

  lemma {:induction false} MonthsAreCommon(year: int, month: nat)
    requires month <= 13
    ensures DaysBeforeMonth(year, month) == CommonDays(month) + if month > 2 && IsLeapYear(year) then 1 else 0
  {
    if month > 1 {
      MonthsAreCommon(year, month - 1);
    }
  }

  /** The day number is that of the Gregorian calendar, for every year, month up to 13 and day. */
  lemma DaysAreGregorian(year: int, month: nat, day: nat)
    requires month <= 13 && day >= 1
    ensures DayNumber(year, month, day) == GregorianYears(year) + GregorianDay(year, month, day)
  {
    YearsAreGregorian(year);
    MonthsAreCommon(year, month);
  }

  /** The last day of each month, the 29th of February in every fourth year but three of four hundredths. */
  lemma MonthEnds(year: int, month: nat)
    requires 1 <= month <= 12
    ensures DaysIn(year, month)
         == if month == 2 then (if year % 4 == 0 && (year % 100 != 0 || year % 400 == 0) then 29 else 28)
            else if month in {4, 6, 9, 11} then 30 else 31
  {
  }

  // ----- the two loops -----

  /** `DAYS_IN_MONTH[i]`: an index past the table panics. */
  function TableEntry(i: nat): (d: Option<nat>)
  {
    if i < |DAYS_IN_MONTH| then Some(DAYS_IN_MONTH[i]) else None
  }

  /** What the month loop adds for month m. */
  function MonthStep(year: int, m: nat): (d: Option<nat>)
    requires m >= 1
  {
    var entry :- TableEntry(m - 1);
    Some(if m == 2 && IsLeapYear(year) then entry + 1 else entry)
  }

  /** The month loop from month m on, with so many days counted before it. */
  function MonthLoop(year: int, m: nat, month: nat, days: nat): (r: Option<nat>)
    requires m >= 1
    decreases month - m
  {
    if m >= month then Some(days)
    else
      var step :- MonthStep(year, m);
      MonthLoop(year, m + 1, month, days + step)
  }

  /** `day - 1` in unsigned arithmetic: it panics below zero. */
  function BeforeDay(day: nat): (d: Option<nat>)
  {
    if day == 0 then None else Some(day - 1)
  }

  /** The days the code counts; None where it panics. */
  function CountedDays(year: int, month: nat, day: nat): (r: Option<nat>)
  {
    var months :- MonthLoop(year, 1, month, DaysBeforeYear(year));
    var rest :- BeforeDay(day);
    Some(months + rest)
  }

  lemma MonthStepIs(year: int, m: nat)
    requires m >= 1
    ensures MonthStep(year, m) == if m <= 12 then Some(DaysIn(year, m)) else None
  {
    if m <= 12 {
      assert TableEntry(m - 1) == Some(DAYS_IN_MONTH[m - 1]);
    }
  }

  lemma {:induction false} MonthLoopStep(year: int, m: nat, month: nat, days: nat)
    requires 1 <= m < month
    ensures m <= 12 ==>
              && MonthLoop(year, m, month, days) == MonthLoop(year, m + 1, month, days + DaysIn(year, m))
              && DaysBeforeMonth(year, m + 1) == DaysBeforeMonth(year, m) + DaysIn(year, m)
    ensures m > 12 ==> MonthLoop(year, m, month, days) == None
  {
    MonthStepIs(year, m);
  }

  /** The month loop counts the days before the month, and panics exactly if it is to pass month 13. */
  lemma {:induction false} MonthLoopIs(year: int, m: nat, month: nat, base: nat)
    requires 1 <= m <= 13
    ensures MonthLoop(year, m, month, base + DaysBeforeMonth(year, m))
         == if month >= 14 then None
            else if month < m then Some(base + DaysBeforeMonth(year, m))
            else Some(base + DaysBeforeMonth(year, month))
    decreases 13 - m
  {
    if m < month {
      MonthLoopStep(year, m, month, base + DaysBeforeMonth(year, m));
      if m <= 12 {
        MonthLoopIs(year, m + 1, month, base);
      }
    }
  }

  /** Exactly month 14 and above and day 0 panic; otherwise the result is the day number. */
  lemma CountedDaysAre(year: int, month: nat, day: nat)
    ensures CountedDays(year, month, day).None? <==> month >= 14 || day == 0
    ensures month <= 13 && day >= 1 ==> CountedDays(year, month, day) == Some(DayNumber(year, month, day))
  {
    MonthLoopIs(year, 1, month, DaysBeforeYear(year));
  }

  /** The year loop. */
  method CountYears(year: int) returns (days: nat)
    ensures days == DaysBeforeYear(year)
  {
    days := 0;
    var y := 1970;
    while y < year
      invariant y == 1970 || y <= year
      invariant days == DaysBeforeYear(y)
    {
      days := days + if IsLeapYear(y) then 366 else 365;
      y := y + 1;
    }
    assert DaysBeforeYear(y) == DaysBeforeYear(year);
  }

  /** The day count in Gregorian numbers; None where the code panics. */
  method CountDays(year: int, month: nat, day: nat) returns (r: Option<nat>)
    ensures r == CountedDays(year, month, day)
    ensures r.None? <==> month >= 14 || day == 0
    ensures r.Some? ==> r.value == GregorianYears(year) + GregorianDay(year, month, day)
  {
    CountedDaysAre(year, month, day);
    if month <= 13 && day >= 1 {
      DaysAreGregorian(year, month, day);
    }
    r := RunLoops(year, month, day);
  }

  /** The year loop, the month loop and the days of the month. */
  method RunLoops(year: int, month: nat, day: nat) returns (r: Option<nat>)
    ensures r == CountedDays(year, month, day)
  {
    var days := CountYears(year);
    var m := 1;
    while m < month
      invariant 1 <= m
      invariant MonthLoop(year, m, month, days) == MonthLoop(year, 1, month, DaysBeforeYear(year))
    {
      var entry := TableEntry(m - 1);
      if entry.None? {
        return None;
      }
      days := days + entry.value;
      if m == 2 && IsLeapYear(year) {
        days := days + 1;
      }
      m := m + 1;
    }
    var rest := BeforeDay(day);
    if rest.None? {
      return None;
    }
    return Some(days + rest.value);
  }

  // ----- the calendar -----

  datatype Date = Date(year: int, month: nat, day: nat)

  predicate Valid(d: Date) {
    d.year >= 1970 && 1 <= d.month <= 12 && 1 <= d.day <= DaysIn(d.year, d.month)
  }

  function Number(d: Date): (n: nat)
    requires Valid(d)
  {
    DayNumber(d.year, d.month, d.day)
  }

  /** The next calendar day. */
  function NextDay(d: Date): (n: Date)
    requires Valid(d)
    ensures Valid(n)
  {
    if d.day < DaysIn(d.year, d.month) then Date(d.year, d.month, d.day + 1)
    else if d.month < 12 then Date(d.year, d.month + 1, 1)
    else Date(d.year + 1, 1, 1)
  }

  const EPOCH := Date(1970, 1, 1)

  lemma YearIsItsMonths(year: int)
    ensures DaysBeforeMonth(year, 13) == YearLength(year)
  {
    assert DaysBeforeMonth(year, 1) == 0;
    assert DaysBeforeMonth(year, 3) == DaysBeforeMonth(year, 2) + DaysIn(year, 2);
    assert DaysBeforeMonth(year, 5) == DaysBeforeMonth(year, 4) + DaysIn(year, 4);
    assert DaysBeforeMonth(year, 7) == DaysBeforeMonth(year, 6) + DaysIn(year, 6);
    assert DaysBeforeMonth(year, 9) == DaysBeforeMonth(year, 8) + DaysIn(year, 8);
    assert DaysBeforeMonth(year, 11) == DaysBeforeMonth(year, 10) + DaysIn(year, 10);
    assert DaysBeforeMonth(year, 13) == DaysBeforeMonth(year, 12) + DaysIn(year, 12);
  }

  /** Consecutive calendar days get consecutive numbers. */
  lemma NextDayIsNextNumber(d: Date)
    requires Valid(d)
    ensures Number(NextDay(d)) == Number(d) + 1
  {
    if d.day == DaysIn(d.year, d.month) {
      if d.month < 12 {
        assert DaysBeforeMonth(d.year, d.month + 1) == DaysBeforeMonth(d.year, d.month) + DaysIn(d.year, d.month);
      } else {
        YearIsItsMonths(d.year);
        assert DaysBeforeMonth(d.year, 13) == DaysBeforeMonth(d.year, 12) + DaysIn(d.year, 12);
        assert DaysBeforeMonth(d.year + 1, 1) == 0;
      }
    }
  }

  /** n days after the epoch, counted day by day. */
  function DaysAfterEpoch(n: nat): (d: Date)
    ensures Valid(d)
  {
    if n == 0 then EPOCH else NextDay(DaysAfterEpoch(n - 1))
  }

  lemma {:induction false} NumberOfDaysAfter(n: nat)
    ensures Number(DaysAfterEpoch(n)) == n
  {
    if n > 0 {
      NumberOfDaysAfter(n - 1);
      NextDayIsNextNumber(DaysAfterEpoch(n - 1));
    }
  }

  predicate Before(a: Date, b: Date) {
    a.year < b.year || (a.year == b.year && (a.month < b.month || (a.month == b.month && a.day < b.day)))
  }

  lemma {:induction false} DaysBeforeMonthMono(year: int, a: nat, b: nat)
    requires 1 <= a <= b <= 13
    ensures DaysBeforeMonth(year, a) <= DaysBeforeMonth(year, b)
    ensures a < b ==> DaysBeforeMonth(year, a) + DaysIn(year, a) <= DaysBeforeMonth(year, b)
  {
    if a < b {
      if a == b - 1 {
      } else {
        DaysBeforeMonthMono(year, a, b - 1);
      }
    }
  }

  lemma {:induction false} DaysBeforeYearMono(a: int, b: int)
    requires 1970 <= a < b
    ensures DaysBeforeYear(a) + YearLength(a) <= DaysBeforeYear(b)
    decreases b
  {
    if a < b - 1 {
      DaysBeforeYearMono(a, b - 1);
    }
  }

  lemma DayInYear(d: Date)
    requires Valid(d)
    ensures DaysBeforeYear(d.year) <= Number(d) < DaysBeforeYear(d.year) + YearLength(d.year)
  {
    YearIsItsMonths(d.year);
    DaysBeforeMonthMono(d.year, d.month, 13);
  }

  /** Later dates have strictly larger numbers. */
  lemma NumberIsMonotone(a: Date, b: Date)
    requires Valid(a) && Valid(b) && Before(a, b)
    ensures Number(a) < Number(b)
  {
    if a.year < b.year {
      DayInYear(a);
      DayInYear(b);
      DaysBeforeYearMono(a.year, b.year);
    } else if a.month < b.month {
      DaysBeforeMonthMono(a.year, a.month, b.month);
    }
  }

  /** A valid date's number is exactly the days elapsed since 1970-01-01. */
  lemma NumberIsElapsedDays(d: Date, n: nat)
    requires Valid(d)
    ensures Number(d) == n <==> d == DaysAfterEpoch(n)
  {
    NumberOfDaysAfter(n);
    var e := DaysAfterEpoch(n);
    if Before(d, e) {
      NumberIsMonotone(d, e);
    } else if Before(e, d) {
      NumberIsMonotone(e, d);
    }
  }
}
