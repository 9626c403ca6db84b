/**
 * The usage-recalculation engine: interpolation of a meter's value on a date, lookup
 * of the readings that bracket a date, and the specification of the monthly window
 * recalculation that deletes and re-creates derived Usage rows.
 */
module Logic {
  import opened Wrappers
  import opened Calendar
  import opened Models

  /** The exceptions `calculate_reading_on_date` raises. */
  datatype Error = MeterError | ValueError

  /** `d` lies in the closed interval spanned by `a` and `b`, whichever of them is earlier. */
  predicate Between(d: Date, a: Date, b: Date) {
    (!Before(d, a) && !Before(b, d)) || (!Before(d, b) && !Before(a, d))
  }

  function Min(x: real, y: real): real { if x <= y then x else y }
  function Max(x: real, y: real): real { if x <= y then y else x }

  // ---------------------------------------------------------------------------
  // Interpolation
  // ---------------------------------------------------------------------------

  /** `v1 + (v2 - v1) * a / n`: the straight line from `v1` at day 0 to `v2` at day `n`, at day `a`. */
  function Lerp(v1: real, v2: real, a: int, n: int): real
    requires n != 0
  {
    v1 + Portion(v2 - v1, a, n)
  }

  /** The part `a` of `n` of `x`, in the source's order of operations: `x * a / n`. */
  function Portion(x: real, a: int, n: int): real
    requires n != 0
  {
    x * (a as real) / (n as real)
  }

  /**
   * The meter's value on `theDate`, interpolated linearly in days between two readings
   * of the same meter. Readings of different meters raise MeterError; two readings on
   * the same date give the first one's value; otherwise a date outside the readings'
   * span raises ValueError.
   */
  function CalculateReadingOnDate(theDate: CalDate, reading1: Reading, reading2: Reading): (res: Result<real, Error>)
    ensures res == Err(MeterError) <==> reading1.meter != reading2.meter
    ensures res == Err(ValueError) <==>
      reading1.meter == reading2.meter && reading1.date != reading2.date && !Between(theDate, reading1.date, reading2.date)
    ensures reading1.meter == reading2.meter && reading1.date == reading2.date ==> res == Ok(reading1.reading)
  {
    if reading1.meter != reading2.meter then Err(MeterError)
    else if reading1.date == reading2.date then Ok(reading1.reading)
    else
      var (first, second) := if Before(reading2.date, reading1.date) then (reading2, reading1) else (reading1, reading2);
      if Before(theDate, first.date) || Before(second.date, theDate) then Err(ValueError)
      else
        OrdinalOrder(first.date, second.date);
        var daysBetweenReadings := DaysBetween(first.date, second.date);
        var daysSinceReading1 := DaysBetween(first.date, theDate);
        Ok(Lerp(first.reading, second.reading, daysSinceReading1, daysBetweenReadings))
  }

  /** With the earlier reading first: the straight line through both readings, in days. */
  lemma InterpolationFormula(theDate: CalDate, r1: Reading, r2: Reading)
    requires r1.meter == r2.meter && Before(r1.date, r2.date) && Between(theDate, r1.date, r2.date)
    ensures DaysBetween(r1.date, r2.date) > 0
    ensures 0 <= DaysBetween(r1.date, theDate) <= DaysBetween(r1.date, r2.date)
    ensures CalculateReadingOnDate(theDate, r1, r2)
         == Ok(Lerp(r1.reading, r2.reading, DaysBetween(r1.date, theDate), DaysBetween(r1.date, r2.date)))
  {
    OrdinalOrder(r1.date, r2.date);
    OrdinalOrder(r1.date, theDate);
    OrdinalOrder(theDate, r2.date);
  }

  /** The order of the two readings does not matter when their dates differ. */
  lemma InterpolationOrderIndependent(theDate: CalDate, r1: Reading, r2: Reading)
    requires r1.date != r2.date
    ensures CalculateReadingOnDate(theDate, r1, r2) == CalculateReadingOnDate(theDate, r2, r1)
  {
  }

  /** On the readings' own dates the interpolation gives the readings' values. */
  lemma InterpolationAtReadings(r1: Reading, r2: Reading)
    requires r1.meter == r2.meter && r1.date != r2.date
    ensures CalculateReadingOnDate(r1.date, r1, r2) == Ok(r1.reading)
    ensures CalculateReadingOnDate(r2.date, r1, r2) == Ok(r2.reading)
  {
    var (first, second) := if Before(r2.date, r1.date) then (r2, r1) else (r1, r2);
    OrdinalOrder(r1.date, r2.date);
    InterpolationFormula(first.date, first, second);
    InterpolationFormula(second.date, first, second);
    InterpolationOrderIndependent(r1.date, r1, r2);
    InterpolationOrderIndependent(r2.date, r1, r2);
    LerpEnds(first.reading, second.reading, DaysBetween(first.date, second.date));
  }

  lemma LerpEnds(v1: real, v2: real, n: int)
    requires n != 0
    ensures Lerp(v1, v2, 0, n) == v1 && Lerp(v1, v2, n, n) == v2
  {
    assert (v2 - v1) * (n as real) / (n as real) == v2 - v1;
  }

  lemma LerpBetween(v1: real, v2: real, a: int, n: int)
    requires 0 <= a <= n && n > 0
    ensures Min(v1, v2) <= Lerp(v1, v2, a, n) <= Max(v1, v2)
  {
    PortionBounds(v2 - v1, a, n);
    StepBetween(v1, v2, Portion(v2 - v1, a, n));
  }

  /** A part `a` of `n` of a gap `x` lies between zero and the gap. */
  lemma PortionBounds(x: real, a: int, n: int)
    requires 0 <= a <= n && n > 0
    ensures x >= 0.0 ==> 0.0 <= Portion(x, a, n) <= x
    ensures x < 0.0 ==> x <= Portion(x, a, n) <= 0.0
  {
  }

  /** Moving from `v1` by a step in the direction of `v2` that is no longer than the gap stays between the two. */
  lemma StepBetween(v1: real, v2: real, step: real)
    requires v2 - v1 >= 0.0 ==> 0.0 <= step <= v2 - v1
    requires v2 - v1 < 0.0 ==> v2 - v1 <= step <= 0.0
    ensures Min(v1, v2) <= v1 + step <= Max(v1, v2)
  {
  }

  /** An interpolated value lies between the two readings' values. */
  lemma InterpolationBetween(theDate: CalDate, r1: Reading, r2: Reading)
    requires CalculateReadingOnDate(theDate, r1, r2).Ok?
    ensures Min(r1.reading, r2.reading) <= CalculateReadingOnDate(theDate, r1, r2).value <= Max(r1.reading, r2.reading)
  {
    if r1.date != r2.date {
      var (first, second) := if Before(r2.date, r1.date) then (r2, r1) else (r1, r2);
      OrdinalOrder(r1.date, r2.date);
      InterpolationFormula(theDate, first, second);
      InterpolationOrderIndependent(theDate, r1, r2);
      LerpBetween(first.reading, second.reading, DaysBetween(first.date, theDate), DaysBetween(first.date, second.date));
    }
  }

  /**
   * The interpolation is affine in the day count: between any two dates in the span, the
   * change of the result is the readings' change scaled by the share of days elapsed.
   */
  lemma InterpolationIsLinear(d: CalDate, e: CalDate, r1: Reading, r2: Reading)
    requires r1.meter == r2.meter && Before(r1.date, r2.date)
    requires Between(d, r1.date, r2.date) && Between(e, r1.date, r2.date)
    ensures CalculateReadingOnDate(d, r1, r2).Ok? && CalculateReadingOnDate(e, r1, r2).Ok?
    ensures DaysBetween(r1.date, r2.date) > 0
    ensures CalculateReadingOnDate(e, r1, r2).value - CalculateReadingOnDate(d, r1, r2).value
         == (r2.reading - r1.reading) * (DaysBetween(d, e) as real) / (DaysBetween(r1.date, r2.date) as real)
  {
    var n := DaysBetween(r1.date, r2.date);
    assert n > 0 && CalculateReadingOnDate(d, r1, r2) == Ok(Lerp(r1.reading, r2.reading, DaysBetween(r1.date, d), n)) by {
      InterpolationFormula(d, r1, r2);
    }
    assert CalculateReadingOnDate(e, r1, r2) == Ok(Lerp(r1.reading, r2.reading, DaysBetween(r1.date, e), n)) by {
      InterpolationFormula(e, r1, r2);
    }
    LerpInDays(d, e, r1, r2, CalculateReadingOnDate(d, r1, r2).value, CalculateReadingOnDate(e, r1, r2).value);
  }

  lemma LerpInDays(d: CalDate, e: CalDate, r1: Reading, r2: Reading, fd: real, fe: real)
    requires DaysBetween(r1.date, r2.date) > 0
    requires fd == Lerp(r1.reading, r2.reading, DaysBetween(r1.date, d), DaysBetween(r1.date, r2.date))
    requires fe == Lerp(r1.reading, r2.reading, DaysBetween(r1.date, e), DaysBetween(r1.date, r2.date))
    ensures fe - fd == (r2.reading - r1.reading) * (DaysBetween(d, e) as real) / (DaysBetween(r1.date, r2.date) as real)
  {
    var a, b, n := DaysBetween(r1.date, d), DaysBetween(r1.date, e), DaysBetween(r1.date, r2.date);
    LerpDifference(r1.reading, r2.reading, a, b, n, DaysBetween(d, e), fd, fe);
  }

  lemma LerpDifference(v1: real, v2: real, a: int, b: int, n: int, k: int, fa: real, fb: real)
    requires n != 0 && k == b - a && fa == Lerp(v1, v2, a, n) && fb == Lerp(v1, v2, b, n)
    ensures fb - fa == (v2 - v1) * (k as real) / (n as real)
  {
    var dv, ra, rb, rn := v2 - v1, a as real, b as real, n as real;
    calc {
      fb - fa;
      dv * rb / rn - dv * ra / rn;
      (dv * rb - dv * ra) / rn;
      dv * (rb - ra) / rn;
    }
  }

  /** Readings 2018-01-01 at 0 and 2018-01-11 at 10 give 5 on 2018-01-06. */
  lemma InterpolationExample()
    ensures CalculateReadingOnDate(Date(2018, 1, 6), Reading(Date(2018, 1, 1), 0.0, 1, ""), Reading(Date(2018, 1, 11), 10.0, 1, "")) == Ok(5.0)
  {
    assert DaysBetween(Date(2018, 1, 1), Date(2018, 1, 11)) == 10;
    assert DaysBetween(Date(2018, 1, 1), Date(2018, 1, 6)) == 5;
  }

  // ---------------------------------------------------------------------------
  // Bracket lookup
  // ---------------------------------------------------------------------------

  /** The date filters of the Reading queries: `date__lt`, `date__lte`, `date__gt`, `date__gte`. */
  datatype Comparison = Lt | Le | Gt | Ge {
    /** The query orders by descending date (and takes the latest) for Lt and Le. */
    predicate Descending() { this == Lt || this == Le }
  }

  predicate Matches(r: Reading, meter: MeterId, cmp: Comparison, d: Date) {
    r.meter == meter &&
    match cmp
    case Lt => Before(r.date, d)
    case Le => !Before(d, r.date)
    case Gt => Before(d, r.date)
    case Ge => !Before(r.date, d)
  }

  /** `a` comes strictly earlier than `b` in the query's date ordering. */
  predicate Precedes(a: Reading, b: Reading, cmp: Comparison) {
    if cmp.Descending() then Before(b.date, a.date) else Before(a.date, b.date)
  }

  /**
   * `Reading.objects.filter(meter=meter).filter(date__<cmp>=d).order_by(<±date>)[0]`:
   * the meter's reading nearest to `d` on the side `cmp` selects, or None where the
   * query has no row and `[0]` raises IndexError.
   */
  function Nearest(rs: seq<Reading>, meter: MeterId, cmp: Comparison, d: Date): (r: Option<Reading>)
    ensures r.None? <==> forall x :: x in rs ==> !Matches(x, meter, cmp, d)
    ensures r.Some? ==> r.value in rs && Matches(r.value, meter, cmp, d)
    ensures r.Some? ==> forall x :: x in rs && Matches(x, meter, cmp, d) ==> !Precedes(x, r.value, cmp)
  {
    if rs == [] then None
    else
      var rest := Nearest(rs[1..], meter, cmp, d);
      assert forall x :: x in rs ==> x == rs[0] || x in rs[1..];
      if !Matches(rs[0], meter, cmp, d) then rest
      else if rest.Some? && Precedes(rest.value, rs[0], cmp) then rest
      else Some(rs[0])
  }

  /**
   * Where at most one reading exists per (date, meter), the query's answer is the one
   * extremal reading, whatever order the rows are stored in.
   */
  lemma NearestIsTheExtremalReading(rs: seq<Reading>, meter: MeterId, cmp: Comparison, d: Date, i: nat)
    requires ReadingsUnique(rs) && i < |rs| && Matches(rs[i], meter, cmp, d)
    requires forall x :: x in rs && Matches(x, meter, cmp, d) ==> !Precedes(x, rs[i], cmp)
    ensures Nearest(rs, meter, cmp, d) == Some(rs[i])
  {
    var r := Nearest(rs, meter, cmp, d).value;
    var j :| 0 <= j < |rs| && rs[j] == r;
    assert !Precedes(rs[i], r, cmp) && !Precedes(r, rs[i], cmp);
    assert rs[i].date == rs[j].date && rs[i].meter == rs[j].meter;
    assert i == j;
  }

  /**
   * `get_readings_before_or_after`: the meter's latest reading strictly before `theDate`
   * for "before", its earliest reading strictly after it for "after", and None when there
   * is no such reading or the selector is neither. It never raises.
   */
  function GetReadingsBeforeOrAfter(rs: seq<Reading>, theDate: CalDate, meter: MeterId, beforeAfter: string): (r: Option<Reading>)
    ensures beforeAfter != "before" && beforeAfter != "after" ==> r.None?
    ensures r.Some? ==> r.value in rs && r.value.meter == meter && r.value.date != theDate
    ensures beforeAfter == "before" ==>
      (r.None? <==> forall x :: x in rs && x.meter == meter ==> !Before(x.date, theDate)) &&
      (r.Some? ==> Before(r.value.date, theDate) &&
                   forall x :: x in rs && x.meter == meter && Before(x.date, theDate) ==> !Before(r.value.date, x.date))
    ensures beforeAfter == "after" ==>
      (r.None? <==> forall x :: x in rs && x.meter == meter ==> !Before(theDate, x.date)) &&
      (r.Some? ==> Before(theDate, r.value.date) &&
                   forall x :: x in rs && x.meter == meter && Before(theDate, x.date) ==> !Before(x.date, r.value.date))
  {
    if beforeAfter == "before" then Nearest(rs, meter, Lt, theDate)
    else if beforeAfter == "after" then Nearest(rs, meter, Gt, theDate)
    else None
  }

  // ---------------------------------------------------------------------------
  // The window of months a new reading affects
  // ---------------------------------------------------------------------------

  /** Months numbered consecutively: January of year y is 12 * y. */
  function MonthIndex(year: int, month: int): int { 12 * year + month - 1 }

  datatype Window = Window(yearBefore: int, monthBefore: int, yearAfter: int, monthAfter: int)

  /** Both ends are months of valid dates, and the window is not empty. */
  predicate WellFormed(w: Window) {
    MinYear <= w.yearBefore <= MaxYear && 1 <= w.monthBefore <= 12 &&
    MinYear <= w.yearAfter <= MaxYear && 1 <= w.monthAfter <= 12 &&
    MonthIndex(w.yearBefore, w.monthBefore) <= MonthIndex(w.yearAfter, w.monthAfter)
  }

  /** Index of the window's first month. */
  function StartIndex(w: Window): int { MonthIndex(w.yearBefore, w.monthBefore) }

  /** Index of the month after the window's last month. */
  function EndIndex(w: Window): int { MonthIndex(w.yearAfter, w.monthAfter) + 1 }

  /** (year, month) lies in the window, comparing months lexicographically. */
  predicate InWindow(year: int, month: int, w: Window) {
    1 <= month <= 12 && StartIndex(w) <= MonthIndex(year, month) < EndIndex(w)
  }

  /**
   * The window runs from the month of the meter's latest reading strictly before the new
   * reading to the month of its earliest reading strictly after it; a missing end falls
   * back to the new reading itself.
   */
  function WindowOf(rs: seq<Reading>, reading: Reading): (w: Window)
    ensures WellFormed(w)
    ensures InWindow(reading.date.year, reading.date.month, w)
    ensures (exists x :: x in rs && x.meter == reading.meter && Before(x.date, reading.date)) ==>
      exists x :: x in rs && x.meter == reading.meter && Before(x.date, reading.date) &&
                  x.date.year == w.yearBefore && x.date.month == w.monthBefore &&
                  forall y :: y in rs && y.meter == reading.meter && Before(y.date, reading.date) ==> !Before(x.date, y.date)
    ensures (forall x :: x in rs && x.meter == reading.meter ==> !Before(x.date, reading.date)) ==>
      w.yearBefore == reading.date.year && w.monthBefore == reading.date.month
    ensures (exists x :: x in rs && x.meter == reading.meter && Before(reading.date, x.date)) ==>
      exists x :: x in rs && x.meter == reading.meter && Before(reading.date, x.date) &&
                  x.date.year == w.yearAfter && x.date.month == w.monthAfter &&
                  forall y :: y in rs && y.meter == reading.meter && Before(reading.date, y.date) ==> !Before(y.date, x.date)
    ensures (forall x :: x in rs && x.meter == reading.meter ==> !Before(reading.date, x.date)) ==>
      w.yearAfter == reading.date.year && w.monthAfter == reading.date.month
  {
    var lastReadingBefore := GetReadingsBeforeOrAfter(rs, reading.date, reading.meter, "before").GetOr(reading);
    var firstReadingAfter := GetReadingsBeforeOrAfter(rs, reading.date, reading.meter, "after").GetOr(reading);
    Window(lastReadingBefore.date.year, lastReadingBefore.date.month, firstReadingAfter.date.year, firstReadingAfter.date.month)
  }

  // ---------------------------------------------------------------------------
  // Cleanup
  // ---------------------------------------------------------------------------

  /**
   * The filter of the cleanup step. The source's filter is componentwise: `year` in
   * [yearBefore, yearAfter] and `month` in [monthBefore, monthAfter].
   */
  predicate InBox(k: UsageKey, w: Window) {
    w.yearBefore <= k.year <= w.yearAfter && w.monthBefore <= k.month <= w.monthAfter
  }

  /**
   * Which rows a cleanup deletes: this meter's rows in the box (logic.py), every meter's
   * rows in the box (the older copy in models.py), or this meter's rows in the window
   * compared lexicographically (the corrected cleanup).
   */
  datatype CleanupRule = ThisMeterBox | AllMetersBox | ThisMeterWindow

  predicate Deletes(rule: CleanupRule, meter: MeterId, w: Window, k: UsageKey) {
    match rule
    case ThisMeterBox => k.meter == meter && InBox(k, w)
    case AllMetersBox => InBox(k, w)
    case ThisMeterWindow => k.meter == meter && InWindow(k.year, k.month, w)
  }

  /** `Usage.objects.filter(...).delete()`: the rows that survive are the ones not deleted. */
  function Cleanup(t: UsageTable, rule: CleanupRule, meter: MeterId, w: Window): (r: UsageTable)
    ensures forall k :: k in r <==> k in t && !Deletes(rule, meter, w, k)
    ensures forall k :: k in r ==> r[k] == t[k]
  {
    map k | k in t && !Deletes(rule, meter, w, k) :: t[k]
  }

  // ---------------------------------------------------------------------------
  // One month's usage
  // ---------------------------------------------------------------------------

  /** Months whose next first-of-month `datetime.date` can represent. */
  predicate ComputableMonth(year: int, month: int) {
    MinYear <= year <= MaxYear && 1 <= month <= 12 && !(year == MaxYear && month == 12)
  }

  /**
   * The four brackets the driver finds for a month may always be interpolated: the
   * readings come from one meter, and each pair straddles its target date.
   */
  lemma BracketsInterpolate(rs: seq<Reading>, meter: MeterId, d: CalDate, low: Comparison, high: Comparison)
    requires (low == Le && high == Gt) || (low == Lt && high == Ge)
    requires Nearest(rs, meter, low, d).Some? && Nearest(rs, meter, high, d).Some?
    ensures CalculateReadingOnDate(d, Nearest(rs, meter, low, d).value, Nearest(rs, meter, high, d).value).Ok?
  {
  }

  /**
   * The usage of one month: the usage between its first day and the first day of the
   * next month, or None (the month is skipped) when a bracketing reading is missing.
   */
  function MonthUsage(rs: seq<Reading>, meter: MeterId, year: int, month: int): Option<real>
    requires ComputableMonth(year, month)
  {
    SpanUsage(rs, meter, FirstOfMonth(year, month), FirstOfNextMonth(year, month))
  }

  /**
   * The interpolated value on `monthDate31` minus the one on `monthDate1`, each between
   * the meter's readings that bracket it (latest <= start, earliest > start, latest < end,
   * earliest >= end), or None when one of the four is missing.
   */
  function SpanUsage(rs: seq<Reading>, meter: MeterId, monthDate1: CalDate, monthDate31: CalDate): Option<real> {
    var rBefore1 := Nearest(rs, meter, Le, monthDate1);
    var rAfter1 := Nearest(rs, meter, Gt, monthDate1);
    var rBefore31 := Nearest(rs, meter, Lt, monthDate31);
    var rAfter31 := Nearest(rs, meter, Ge, monthDate31);
    UsageFromBrackets(monthDate1, monthDate31, rBefore1, rAfter1, rBefore31, rAfter31)
  }

  /** The usage between two dates from the readings bracketing each, None when one is missing. */
  function UsageFromBrackets(monthDate1: CalDate, monthDate31: CalDate,
                             rBefore1: Option<Reading>, rAfter1: Option<Reading>,
                             rBefore31: Option<Reading>, rAfter31: Option<Reading>): Option<real>
    requires rBefore1.Some? && rAfter1.Some? ==> CalculateReadingOnDate(monthDate1, rBefore1.value, rAfter1.value).Ok?
    requires rBefore31.Some? && rAfter31.Some? ==> CalculateReadingOnDate(monthDate31, rBefore31.value, rAfter31.value).Ok?
  {
    if rBefore1.None? || rAfter1.None? || rBefore31.None? || rAfter31.None? then None
    else
      var firstOfMonth := CalculateReadingOnDate(monthDate1, rBefore1.value, rAfter1.value);
      var lastOfMonth := CalculateReadingOnDate(monthDate31, rBefore31.value, rAfter31.value);
      Some(lastOfMonth.value - firstOfMonth.value)
  }

  /** A month has a usage exactly when the meter has readings on both sides of both its ends. */
  lemma MonthUsageDefined(rs: seq<Reading>, meter: MeterId, year: int, month: int)
    requires ComputableMonth(year, month)
    ensures MonthUsage(rs, meter, year, month).Some? <==>
      (exists x :: x in rs && x.meter == meter && !Before(FirstOfMonth(year, month), x.date)) &&
      (exists x :: x in rs && x.meter == meter && Before(FirstOfMonth(year, month), x.date)) &&
      (exists x :: x in rs && x.meter == meter && Before(x.date, FirstOfNextMonth(year, month))) &&
      (exists x :: x in rs && x.meter == meter && !Before(x.date, FirstOfNextMonth(year, month)))
  {
  }

  /**
   * A span that lies between two consecutive readings of the meter uses the readings'
   * change in proportion to its length: the change times the span's days over the days
   * between the readings. A month's usage is this span's from the month's first day to the
   * next month's (`MonthUsage`), whose day count is the month's length (`MonthLength`).
   */
  lemma SpanUsageProportional(rs: seq<Reading>, meter: MeterId, d1: CalDate, d2: CalDate, r1: Reading, r2: Reading)
    requires Before(d1, d2) && ReadingsUnique(rs)
    requires r1 in rs && r2 in rs && r1.meter == meter && r2.meter == meter
    requires !Before(d1, r1.date) && !Before(r2.date, d2)
    requires forall x :: x in rs && x.meter == meter ==> !(Before(r1.date, x.date) && Before(x.date, r2.date))
    ensures DaysBetween(r1.date, r2.date) > 0
    ensures SpanUsage(rs, meter, d1, d2)
         == Some((r2.reading - r1.reading) * (DaysBetween(d1, d2) as real) / (DaysBetween(r1.date, r2.date) as real))
  {
    BracketBelow(rs, meter, Le, d1, r1, r2);
    BracketAbove(rs, meter, Gt, d1, r1, r2);
    BracketBelow(rs, meter, Lt, d2, r1, r2);
    BracketAbove(rs, meter, Ge, d2, r1, r2);
    ProportionalBetween(d1, d2, r1, r2);
    assert SpanUsage(rs, meter, d1, d2) == UsageFromBrackets(d1, d2, Some(r1), Some(r2), Some(r1), Some(r2));
  }

  /**
   * Of two consecutive readings of the meter, the earlier is the latest one a descending
   * query returns when it passes the query's filter and the later one does not.
   */
  lemma BracketBelow(rs: seq<Reading>, meter: MeterId, cmp: Comparison, d: Date, r1: Reading, r2: Reading)
    requires ReadingsUnique(rs) && r1 in rs && r2 in rs && r2.meter == meter
    requires cmp.Descending() && Matches(r1, meter, cmp, d) && !Matches(r2, meter, cmp, d)
    requires forall x :: x in rs && x.meter == meter ==> !(Before(r1.date, x.date) && Before(x.date, r2.date))
    ensures Nearest(rs, meter, cmp, d) == Some(r1)
  {
    var i :| 0 <= i < |rs| && rs[i] == r1;
    NearestIsTheExtremalReading(rs, meter, cmp, d, i);
  }

  /** The same for an ascending query: the later reading is the earliest that passes. */
  lemma BracketAbove(rs: seq<Reading>, meter: MeterId, cmp: Comparison, d: Date, r1: Reading, r2: Reading)
    requires ReadingsUnique(rs) && r1 in rs && r2 in rs && r1.meter == meter
    requires !cmp.Descending() && Matches(r2, meter, cmp, d) && !Matches(r1, meter, cmp, d)
    requires forall x :: x in rs && x.meter == meter ==> !(Before(r1.date, x.date) && Before(x.date, r2.date))
    ensures Nearest(rs, meter, cmp, d) == Some(r2)
  {
    var j :| 0 <= j < |rs| && rs[j] == r2;
    NearestIsTheExtremalReading(rs, meter, cmp, d, j);
  }

  /**
   * Interpolating both ends of a span between the same two readings, which enclose the
   * span, gives a usage of the readings' change scaled by the span's days over the days
   * between them.
   */
  lemma ProportionalBetween(m1: CalDate, m31: CalDate, r1: Reading, r2: Reading)
    requires r1.meter == r2.meter && Before(m1, m31)
    requires !Before(m1, r1.date) && !Before(r2.date, m31)
    ensures DaysBetween(r1.date, r2.date) > 0
    ensures CalculateReadingOnDate(m1, r1, r2).Ok? && CalculateReadingOnDate(m31, r1, r2).Ok?
    ensures UsageFromBrackets(m1, m31, Some(r1), Some(r2), Some(r1), Some(r2))
         == Some((r2.reading - r1.reading) * (DaysBetween(m1, m31) as real) / (DaysBetween(r1.date, r2.date) as real))
  {
    assert Before(r1.date, r2.date) && Between(m1, r1.date, r2.date) && Between(m31, r1.date, r2.date);
    InterpolationIsLinear(m1, m31, r1, r2);
    BracketedMonthUsage(m1, m31, r1, r2, CalculateReadingOnDate(m1, r1, r2).value, CalculateReadingOnDate(m31, r1, r2).value);
  }

  /** When one pair of readings brackets both ends of the month, the usage is the change between the ends. */
  lemma BracketedMonthUsage(m1: CalDate, m31: CalDate, r1: Reading, r2: Reading, fd: real, fe: real)
    requires CalculateReadingOnDate(m1, r1, r2) == Ok(fd) && CalculateReadingOnDate(m31, r1, r2) == Ok(fe)
    ensures UsageFromBrackets(m1, m31, Some(r1), Some(r2), Some(r1), Some(r2)) == Some(fe - fd)
  {
  }

  // ---------------------------------------------------------------------------
  // Re-creating the rows of a window
  // ---------------------------------------------------------------------------

  /** What stops the recalculation: `IntegrityError` on a duplicate Usage, or `date()` past year 9999. */
  datatype Failure = UsageExists(key: UsageKey) | DateOutOfRange

  /** The Usage table after some of the loop, and the exception that stopped it, if any. */
  datatype Fill = Fill(table: UsageTable, failure: Option<Failure>)

  /** The usage of each month of a meter, None for a month the loop skips. */
  type UsageFn = (int, int) -> Option<real>

  /** The usage the loop computes for each month of `meter`. */
  function UsageOf(rs: seq<Reading>, meter: MeterId): UsageFn {
    (year: int, month: int) => if ComputableMonth(year, month) then MonthUsage(rs, meter, year, month) else None
  }

  /** One pass of the loop body for month index `i`: skip, insert a row, or fail. */
  function CreateMonth(t: UsageTable, usage: UsageFn, meter: MeterId, i: int): Fill {
    var year, month := i / 12, i % 12 + 1;
    if year == MaxYear && month == 12 then Fill(t, Some(DateOutOfRange))
    else match usage(year, month)
      case None => Fill(t, None)
      case Some(use) =>
        var key := UsageKey(year, month, meter);
        if key in t then Fill(t, Some(UsageExists(key))) else Fill(t[key := use], None)
  }

  /** The loop over months `lo` .. `hi - 1` in order, stopping at the first failure. */
  function FillRange(t: UsageTable, usage: UsageFn, meter: MeterId, lo: int, hi: int): Fill
    decreases hi - lo
  {
    if hi <= lo then Fill(t, None)
    else
      var prev := FillRange(t, usage, meter, lo, hi - 1);
      if prev.failure.Some? then prev else CreateMonth(prev.table, usage, meter, hi - 1)
  }

  /** The whole recalculation for a triggering reading: cleanup, then re-create the window. */
  function Recalculation(t: UsageTable, rs: seq<Reading>, reading: Reading, rule: CleanupRule): Fill {
    var w := WindowOf(rs, reading);
    FillRange(Cleanup(t, rule, reading.meter, w), UsageOf(rs, reading.meter), reading.meter, StartIndex(w), EndIndex(w))
  }

}
