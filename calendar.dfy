/**
 * Proleptic Gregorian calendar dates with day precision, as Python's `datetime.date`
 * represents them: comparison is by (year, month, day), and the difference of two
 * dates in days is the difference of their ordinals (day 1 is 0001-01-01).
 */
module Calendar {

  const MinYear := 1
  const MaxYear := 9999

  datatype Date = Date(year: int, month: int, day: int)

  predicate IsLeapYear(y: int) {
    y % 4 == 0 && (y % 100 != 0 || y % 400 == 0)
  }

  function DaysInYear(y: int): int {
    if IsLeapYear(y) then 366 else 365
  }

  function DaysInMonth(y: int, m: int): (n: int)
    requires 1 <= m <= 12
    ensures 28 <= n <= 31
    ensures m == 2 ==> (n == 29 <==> IsLeapYear(y))
  {
    if m == 2 then (if IsLeapYear(y) then 29 else 28)
    else if m == 4 || m == 6 || m == 9 || m == 11 then 30
    else 31
  }

  /** Number of days of year `y` that come before the first of month `m`. */
  function DaysBeforeMonth(y: int, m: int): int
    requires 1 <= m <= 12
  {
    [0, 31, 59, 90, 120, 151, 181, 212, 243, 273, 304, 334][m - 1]
      + (if m > 2 && IsLeapYear(y) then 1 else 0)
  }

  /** Number of days before January 1 of year `y`, counted from January 1 of year 1. */
  function DaysBeforeYear(y: int): int
    requires y >= 1
  {
    if y == 1 then 0 else DaysBeforeYear(y - 1) + DaysInYear(y - 1)
  }

  /** The closed form `datetime` evaluates for the same count. */
  function DaysBeforeYearClosedForm(y: int): int
    requires y >= 1
  {
    var p := y - 1;
    p * 365 + p / 4 - p / 100 + p / 400
  }

  /** The dates `datetime.date` accepts. */
  predicate ValidDate(d: Date) {
    MinYear <= d.year <= MaxYear && 1 <= d.month <= 12 && 1 <= d.day <= DaysInMonth(d.year, d.month)
  }

  type CalDate = d: Date | ValidDate(d) witness Date(1, 1, 1)

  /** `date.toordinal()`. */
  function Ordinal(d: CalDate): int {
    DaysBeforeYear(d.year) + DaysBeforeMonth(d.year, d.month) + d.day
  }

  /** `a < b` on dates: lexicographic on (year, month, day). */
  predicate Before(a: Date, b: Date) {
    a.year < b.year || (a.year == b.year && (a.month < b.month || (a.month == b.month && a.day < b.day)))
  }

  /** `(b - a).days`. */
  function DaysBetween(a: CalDate, b: CalDate): int {
    Ordinal(b) - Ordinal(a)
  }

  /** `date(y, m, 1)`. */
  function FirstOfMonth(y: int, m: int): (d: CalDate)
    requires MinYear <= y <= MaxYear && 1 <= m <= 12
    ensures d.year == y && d.month == m && d.day == 1
  {
    Date(y, m, 1)
  }

  /** The first day of the month after (y, m): January 1 of `y + 1` when `m` is December. */
  function FirstOfNextMonth(y: int, m: int): (d: CalDate)
    requires MinYear <= y <= MaxYear && 1 <= m <= 12 && !(y == MaxYear && m == 12)
    ensures Before(FirstOfMonth(y, m), d)
    ensures d.day == 1 && (if m == 12 then d.year == y + 1 && d.month == 1 else d.year == y && d.month == m + 1)
  {
    if m == 12 then Date(y + 1, 1, 1) else Date(y, m + 1, 1)
  }

  /** Month `m + 1` starts right after the last day of month `m`. */
  lemma DaysBeforeNextMonth(y: int, m: int)
    requires 1 <= m < 12
    ensures DaysBeforeMonth(y, m + 1) == DaysBeforeMonth(y, m) + DaysInMonth(y, m)
  {
  }

  /** The twelve months fill the year. */
  lemma DaysBeforeDecember(y: int)
    ensures DaysBeforeMonth(y, 12) + DaysInMonth(y, 12) == DaysInYear(y)
  {
  }

  lemma DivStep(n: int, k: int)
    requires n >= 0 && (k == 4 || k == 100 || k == 400)
    ensures (n + 1) / k - n / k == if (n + 1) % k == 0 then 1 else 0
  {
  }

  /** Counting the years one by one gives the closed form. */
  lemma {:induction false} DaysBeforeYearIsClosedForm(y: int)
    requires y >= 1
    ensures DaysBeforeYear(y) == DaysBeforeYearClosedForm(y)
  {
    if y > 1 {
      DaysBeforeYearIsClosedForm(y - 1);
      var p := y - 2;
      DivStep(p, 4);
      DivStep(p, 100);
      DivStep(p, 400);
      var q4, q100, q400 := (p + 1) / 4 - p / 4, (p + 1) / 100 - p / 100, (p + 1) / 400 - p / 400;
      assert DaysBeforeYearClosedForm(y) == DaysBeforeYearClosedForm(y - 1) + 365 + q4 - q100 + q400;
      DivisibilityChain(y - 1);
    }
  }

  lemma DivisibilityChain(y: int)
    ensures y % 400 == 0 ==> y % 100 == 0
    ensures y % 100 == 0 ==> y % 4 == 0
  {
  }

  lemma {:induction false} DaysBeforeYearMonotonic(y: int, z: int)
    requires 1 <= y < z
    ensures DaysBeforeYear(y) + DaysInYear(y) <= DaysBeforeYear(z)
    decreases z - y
  {
    if y + 1 < z {
      DaysBeforeYearMonotonic(y + 1, z);
    }
  }

  lemma {:induction false} DaysBeforeMonthMonotonic(y: int, m: int, n: int)
    requires 1 <= m < n <= 12
    ensures DaysBeforeMonth(y, m) + DaysInMonth(y, m) <= DaysBeforeMonth(y, n)
    decreases n - m
  {
    DaysBeforeNextMonth(y, m);
    if m + 1 < n {
      DaysBeforeMonthMonotonic(y, m + 1, n);
    }
  }

  /** Every day of year `y` lies strictly after the days before the year and within the year. */
  lemma DayOfYearBounds(d: CalDate)
    ensures 1 <= DaysBeforeMonth(d.year, d.month) + d.day <= DaysInYear(d.year)
  {
    if d.month < 12 {
      DaysBeforeMonthMonotonic(d.year, d.month, 12);
    }
    DaysBeforeDecember(d.year);
  }

  /** Comparing dates by (year, month, day) is comparing their ordinals. */
  lemma OrdinalOrder(a: CalDate, b: CalDate)
    ensures Before(a, b) <==> Ordinal(a) < Ordinal(b)
    ensures a == b <==> Ordinal(a) == Ordinal(b)
  {
    if a.year < b.year {
      DayOfYearBounds(a);
      DayOfYearBounds(b);
      DaysBeforeYearMonotonic(a.year, b.year);
    } else if b.year < a.year {
      DayOfYearBounds(a);
      DayOfYearBounds(b);
      DaysBeforeYearMonotonic(b.year, a.year);
    } else if a.month < b.month {
      DaysBeforeMonthMonotonic(a.year, a.month, b.month);
    } else if b.month < a.month {
      DaysBeforeMonthMonotonic(a.year, b.month, a.month);
    }
  }

  /** The day count from the first of a month to the first of the next is the month's length. */
  lemma MonthLength(y: int, m: int)
    requires MinYear <= y <= MaxYear && 1 <= m <= 12 && !(y == MaxYear && m == 12)
    ensures DaysBetween(FirstOfMonth(y, m), FirstOfNextMonth(y, m)) == DaysInMonth(y, m)
  {
    if m == 12 {
      DaysBeforeDecember(y);
    } else {
      DaysBeforeNextMonth(y, m);
    }
  }
}
