/** Calendar dates of the proleptic Gregorian calendar (Python's `datetime`
    at midnight) and their ordinal day numbers, so that "n days later" and
    `(end - start).days` become integer arithmetic. */
module Calendar {

  /** A parsed `%d/%m/%Y` date: day of month, month, year. */
  datatype Date = Date(day: int, month: int, year: int)

  /** The Gregorian rule: every fourth year, except century years that are
      not a multiple of 400. */
  function IsLeapYear(y: int): (b: bool)
    ensures y % 4 != 0 ==> !b
    ensures y % 4 == 0 && y % 100 != 0 ==> b
    ensures y % 100 == 0 && y % 400 != 0 ==> !b
    ensures y % 400 == 0 ==> b
  {
    y % 4 == 0 && (y % 100 != 0 || y % 400 == 0)
  }

  function DaysInYear(y: int): (n: int)
    ensures n == 365 || n == 366
  {
    if IsLeapYear(y) then 366 else 365
  }

  function DaysInMonth(m: int, y: int): (n: int)
    requires 1 <= m <= 12
    ensures 28 <= n <= 31
    ensures n == 29 <==> m == 2 && IsLeapYear(y)
  {
    if m == 2 then (if IsLeapYear(y) then 29 else 28)
    else if m == 4 || m == 6 || m == 9 || m == 11 then 30
    else 31
  }

  /** A real calendar day from year 1 on (Python rejects year 0). */
  function ValidDate(d: Date): (b: bool)
    ensures b ==> d.year >= 1 && 1 <= d.month <= 12 && 1 <= d.day <= 31
    ensures b && d.month == 2 ==> d.day <= 28 || (d.day == 29 && IsLeapYear(d.year))
    ensures b && d.day == 31 ==> d.month in {1, 3, 5, 7, 8, 10, 12}
    ensures d.year >= 1 && 1 <= d.month <= 12 && 1 <= d.day <= 28 ==> b
  {
    1 <= d.year && 1 <= d.month <= 12 && 1 <= d.day <= DaysInMonth(d.month, d.year)
  }

  /** Days in the years 1 .. y-1. */
  function DaysBeforeYear(y: int): (n: int)
    requires y >= 1
  {
    var n := y - 1;
    365 * n + n / 4 - n / 100 + n / 400
  }

  /** Every 400 years the calendar repeats, and they hold 146097 days. */
  lemma FourHundredYearCycle(y: int)
    requires y >= 1
    ensures IsLeapYear(y + 400) == IsLeapYear(y)
    ensures DaysBeforeYear(y + 400) == DaysBeforeYear(y) + 146097
  {
    var n := y - 1;
    assert (n + 400) / 4 == n / 4 + 100;
    assert (n + 400) / 100 == n / 100 + 4;
    assert (n + 400) / 400 == n / 400 + 1;
  }

  /** Days in the months 1 .. m-1 of year y. */
  function DaysBeforeMonth(m: int, y: int): (n: int)
    requires 1 <= m <= 12
    ensures 0 <= n <= 335
  {
    var leap := if IsLeapYear(y) && m > 2 then 1 else 0;
    leap + (match m
      case 1 => 0   case 2 => 31  case 3 => 59   case 4 => 90
      case 5 => 120 case 6 => 151 case 7 => 181  case 8 => 212
      case 9 => 243 case 10 => 273 case 11 => 304 case _ => 334)
  }

  /** The ordinal of a date, 1 for 1 January of year 1 (Python's `toordinal`). */
  function DayNumber(d: Date): (n: int)
    requires ValidDate(d)
    ensures n >= 1
  {
    DaysBeforeYear(d.year) + DaysBeforeMonth(d.month, d.year) + d.day
  }

  /** The calendar day after `d`. */
  function NextDay(d: Date): (r: Date)
    requires ValidDate(d)
    ensures ValidDate(r)
  {
    if d.day < DaysInMonth(d.month, d.year) then Date(d.day + 1, d.month, d.year)
    else if d.month < 12 then Date(1, d.month + 1, d.year)
    else Date(1, 1, d.year + 1)
  }

  /** Calendar order: earlier year, else earlier month, else earlier day. */
  predicate Before(a: Date, b: Date) {
    a.year < b.year
    || (a.year == b.year && a.month < b.month)
    || (a.year == b.year && a.month == b.month && a.day < b.day)
  }

  lemma QuotientStep(y: int, k: int)
    requires y >= 1 && (k == 4 || k == 100 || k == 400)
    ensures y / k - (y - 1) / k == if y % k == 0 then 1 else 0
  {
    var q, r := y / k, y % k;
    assert y == k * q + r && 0 <= r < k;
    if r == 0 {
      assert y - 1 == k * (q - 1) + (k - 1);
    } else {
      assert y - 1 == k * q + (r - 1);
    }
  }

  /** A year adds its own length to the count of days before the next one. */
  lemma DaysBeforeYearStep(y: int)
    requires y >= 1
    ensures DaysBeforeYear(y + 1) == DaysBeforeYear(y) + DaysInYear(y)
  {
    QuotientStep(y, 4);
    QuotientStep(y, 100);
    QuotientStep(y, 400);
    if y % 400 == 0 {
      assert y == 400 * (y / 400);
      assert y % 100 == 0 && y % 4 == 0;
    } else if y % 100 == 0 {
      assert y == 100 * (y / 100);
      assert y % 4 == 0;
    }
  }

  lemma {:induction false} DaysBeforeYearGrowth(y1: int, y2: int)
    requires 1 <= y1 < y2
    ensures DaysBeforeYear(y1) + DaysInYear(y1) <= DaysBeforeYear(y2)
  {
    if y1 + 1 == y2 {
      DaysBeforeYearStep(y1);
    } else {
      DaysBeforeYearGrowth(y1, y2 - 1);
      DaysBeforeYearStep(y2 - 1);
    }
  }

  /** A month adds its own length to the count of days before the next one,
      and the last month closes the year. */
  lemma DaysBeforeMonthStep(m: int, y: int)
    requires 1 <= m <= 12
    ensures m < 12 ==> DaysBeforeMonth(m + 1, y) == DaysBeforeMonth(m, y) + DaysInMonth(m, y)
    ensures m == 12 ==> DaysBeforeMonth(m, y) + DaysInMonth(m, y) == DaysInYear(y)
  {
  }

  lemma DaysBeforeMonthGrowth(m1: int, m2: int, y: int)
    requires 1 <= m1 < m2 <= 12
    ensures DaysBeforeMonth(m1, y) + DaysInMonth(m1, y) <= DaysBeforeMonth(m2, y)
  {
  }

  /** The day after has the next day number. */
  lemma NextDayNumber(d: Date)
    requires ValidDate(d)
    ensures DayNumber(NextDay(d)) == DayNumber(d) + 1
    ensures Before(d, NextDay(d))
  {
    DaysBeforeMonthStep(d.month, d.year);
    if d.day == DaysInMonth(d.month, d.year) && d.month == 12 {
      DaysBeforeYearStep(d.year);
    }
  }

  lemma BeforeImpliesSmallerNumber(a: Date, b: Date)
    requires ValidDate(a) && ValidDate(b) && Before(a, b)
    ensures DayNumber(a) < DayNumber(b)
  {
    if a.year < b.year {
      DaysBeforeMonthStep(12, a.year);
      if a.month < 12 {
        DaysBeforeMonthGrowth(a.month, 12, a.year);
      }
      DaysBeforeYearGrowth(a.year, b.year);
    } else if a.month < b.month {
      DaysBeforeMonthGrowth(a.month, b.month, a.year);
    }
  }

  /** Day numbers order valid dates exactly as the calendar does, and two
      valid dates with the same number are the same date. */
  lemma DayNumberOrder(a: Date, b: Date)
    requires ValidDate(a) && ValidDate(b)
    ensures Before(a, b) <==> DayNumber(a) < DayNumber(b)
    ensures a == b <==> DayNumber(a) == DayNumber(b)
  {
    if Before(a, b) {
      BeforeImpliesSmallerNumber(a, b);
    } else if Before(b, a) {
      BeforeImpliesSmallerNumber(b, a);
    }
  }

  /** The date `n` days after `d`. */
  function AddDays(d: Date, n: nat): (r: Date)
    requires ValidDate(d)
    ensures ValidDate(r)
  {
    if n == 0 then d else NextDay(AddDays(d, n - 1))
  }

  /** Adding `n` days adds `n` to the day number (Python's `d + timedelta(days=n)`). */
  lemma {:induction false} AddDaysNumber(d: Date, n: nat)
    requires ValidDate(d)
    ensures DayNumber(AddDays(d, n)) == DayNumber(d) + n
  {
    if n > 0 {
      AddDaysNumber(d, n - 1);
      NextDayNumber(AddDays(d, n - 1));
    }
  }
}
