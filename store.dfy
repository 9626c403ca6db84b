/**
 * The database of the utilities app: the Meter, Reading and Usage tables, the saves
 * that their uniqueness constraints guard, and the usage recalculation that deletes
 * and then re-creates the Usage rows of a window month by month.
 */
module Store {
  import opened Wrappers
  import opened Calendar
  import opened Models
  import opened Logic
  import opened Recalc

  /** The largest meter key in use, 0 when there is none. */
  function MaxId(ms: seq<Meter>): (top: MeterId)
    ensures forall m :: m in ms ==> m.id <= top
  {
    if ms == [] then 0 else
      var rest := MaxId(ms[1..]);
      assert forall m :: m in ms[1..] ==> m.id <= rest;
      if ms[0].id > rest then ms[0].id else rest
  }

  /** The month index clamped to the range `lo` .. `hi`. */
  function Clamp(i: int, lo: int, hi: int): int {
    if i < lo then lo else if i > hi then hi else i
  }

  /** One more month moves the clamped index on exactly when the month lies in the range. */
  lemma ClampNext(i: int, lo: int, hi: int)
    ensures lo <= hi ==> Clamp(i + 1, lo, hi) == if lo <= i < hi then Clamp(i, lo, hi) + 1 else Clamp(i, lo, hi)
    ensures lo <= i < hi ==> Clamp(i, lo, hi) == i
  {
  }

  /** The loop skips a month of the window's years exactly when the month lies outside the window. */
  lemma SkippedOutsideWindow(w: Window, year: int, month: int)
    ensures WellFormed(w) && w.yearBefore <= year <= w.yearAfter && 1 <= month <= 12 ==>
      ((year == w.yearBefore && month < w.monthBefore) || (year == w.yearAfter && month > w.monthAfter)
       <==> !(StartIndex(w) <= MonthIndex(year, month) < EndIndex(w)))
  {
  }

  class Database {
    var meters: seq<Meter>
    var readings: seq<Reading>
    var usages: UsageTable

    /** The constraints the schema enforces; every reading refers to a stored meter. */
    ghost predicate Valid()
      reads this
    {
      MetersUnique(meters) && ReadingsUnique(readings) &&
      forall r :: r in readings ==> MeterKnown(meters, r.meter)
    }

    /** An empty database. */
    constructor ()
      ensures Valid()
      ensures meters == [] && readings == [] && usages == map[]
    {
      meters, readings, usages := [], [], map[];
    }

    /**
     * `Meter(meter_name=name, meter_unit=unit).save()`: IntegrityError (None) when the
     * name is taken, otherwise the new meter with a newId key.
     */
    method SaveMeter(name: string, unit: string) returns (id: Option<MeterId>)
      requires Valid()
      modifies this`meters
      ensures Valid()
      ensures id.None? <==> NameTaken(old(meters), name)
      ensures id.Some? ==> !MeterKnown(old(meters), id.value) && meters == old(meters) + [Meter(id.value, name, unit)]
      ensures id.None? ==> meters == old(meters)
    {
      if NameTaken(meters, name) {
        return None;
      }
      var newId := MaxId(meters) + 1;
      InsertKeepsMetersUnique(meters, Meter(newId, name, unit));
      meters := meters + [Meter(newId, name, unit)];
      return Some(newId);
    }

    /**
     * `reading.save()` of a new reading: refused (false) with IntegrityError when its meter
     * is unknown or the meter already has a reading on that date.
     */
    method SaveReading(r: Reading) returns (saved: bool)
      requires Valid()
      modifies this`readings
      ensures Valid()
      ensures saved <==> MeterKnown(meters, r.meter) && !ReadingClash(old(readings), r)
      ensures readings == if saved then old(readings) + [r] else old(readings)
    {
      if !MeterKnown(meters, r.meter) || ReadingClash(readings, r) {
        return false;
      }
      InsertKeepsReadingsUnique(readings, r);
      readings := readings + [r];
      return true;
    }

    /**
     * The body of the loop for one month, given the month's usage as `usage` computes it
     * from the readings: `date(year + 1, 1, 1)` raises ValueError for December 9999; a
     * month without a usage is skipped; otherwise `Usage.objects.create` adds its row, or
     * raises IntegrityError when the row already exists.
     */
    method CreateUsage(meter: MeterId, year: int, month: int, usage: UsageFn) returns (failure: Option<Failure>)
      requires MinYear <= year <= MaxYear && 1 <= month <= 12
      modifies this`usages
      ensures Fill(usages, failure) == CreateMonth(old(usages), usage, meter, MonthIndex(year, month))
    {
      ghost var i := MonthIndex(year, month);
      assert i / 12 == year && i % 12 + 1 == month;
      if year == MaxYear && month == 12 {
        return Some(DateOutOfRange);
      }
      var u := usage(year, month);
      if u.None? {
        return None;
      }
      var key := UsageKey(year, month, meter);
      if key in usages {
        return Some(UsageExists(key));
      }
      usages := usages[key := u.value];
      return None;
    }

    /**
     * One month of the loop, month index `done` of the run over `lo` .. `hi - 1` that
     * started on `t0`: on a failure the rest of the run is skipped.
     */
    method RecreateMonth(meter: MeterId, year: int, month: int, usage: UsageFn, ghost t0: UsageTable, ghost lo: int, ghost done: int, ghost hi: int)
        returns (failure: Option<Failure>)
      requires MinYear <= year <= MaxYear && 1 <= month <= 12 && done == MonthIndex(year, month) && lo <= done < hi
      requires FillRange(t0, usage, meter, lo, done) == Fill(usages, None)
      modifies this`usages
      ensures failure.None? ==> FillRange(t0, usage, meter, lo, done + 1) == Fill(usages, None)
      ensures failure.Some? ==> FillRange(t0, usage, meter, lo, hi) == Fill(usages, failure)
    {
      failure := CreateUsage(meter, year, month, usage);
      if failure.Some? {
        FillRangeSticky(t0, usage, meter, lo, done + 1, hi);
      }
    }

    /**
     * The loop of the recalculation: every (year, month) from (yearBefore, monthBefore) to
     * (yearAfter, monthAfter), in order, until the first exception.
     */
    method RecreateWindow(meter: MeterId, w: Window, usage: UsageFn) returns (failure: Option<Failure>)
      requires WellFormed(w)
      modifies this`usages
      ensures Fill(usages, failure) == FillRange(old(usages), usage, meter, StartIndex(w), EndIndex(w))
    {
      ghost var t0 := usages;
      for year := w.yearBefore to w.yearAfter + 1
        invariant FillRange(t0, usage, meter, StartIndex(w), Clamp(12 * year, StartIndex(w), EndIndex(w))) == Fill(usages, None)
      {
        failure := RecreateYear(meter, w, usage, year, t0);
        if failure.Some? {
          return;
        }
      }
      failure := None;
    }

    /**
     * The months 1 .. 12 of one year of the loop, skipping those before (yearBefore,
     * monthBefore) and after (yearAfter, monthAfter); `t0` is the table the loop started on.
     */
    method RecreateYear(meter: MeterId, w: Window, usage: UsageFn, year: int, ghost t0: UsageTable) returns (failure: Option<Failure>)
      requires WellFormed(w) && w.yearBefore <= year <= w.yearAfter
      requires FillRange(t0, usage, meter, StartIndex(w), Clamp(12 * year, StartIndex(w), EndIndex(w))) == Fill(usages, None)
      modifies this`usages
      ensures failure.None? ==>
        FillRange(t0, usage, meter, StartIndex(w), Clamp(12 * year + 12, StartIndex(w), EndIndex(w))) == Fill(usages, None)
      ensures failure.Some? ==> FillRange(t0, usage, meter, StartIndex(w), EndIndex(w)) == Fill(usages, failure)
    {
      ghost var lo, hi := StartIndex(w), EndIndex(w);
      ghost var done := Clamp(12 * year, lo, hi);
      for month := 1 to 12 + 1
        invariant done == Clamp(12 * year + month - 1, lo, hi)
        invariant FillRange(t0, usage, meter, lo, done) == Fill(usages, None)
      {
        ClampNext(12 * year + month - 1, lo, hi);
        SkippedOutsideWindow(w, year, month);
        if year == w.yearBefore && month < w.monthBefore {
        } else if year == w.yearAfter && month > w.monthAfter {
        } else {
          failure := RecreateMonth(meter, year, month, usage, t0, lo, done, hi);
          if failure.Some? {
            return;
          }
          done := done + 1;
        }
      }
      failure := None;
    }

    /**
     * `update_usage_after_new_reading` for a cleanup rule: find the window from the
     * meter's neighbouring readings, delete the Usage rows the rule selects, and re-create
     * the window. Readings and meters are not touched.
     */
    method Recalculate(reading: Reading, rule: CleanupRule) returns (failure: Option<Failure>)
      requires Valid()
      modifies this`usages
      ensures Valid()
      ensures Fill(usages, failure) == Recalculation(old(usages), readings, reading, rule)
      ensures readings == old(readings) && meters == old(meters)
    {
      var lastReadingBefore := GetReadingsBeforeOrAfter(readings, reading.date, reading.meter, "before").GetOr(reading);
      var firstReadingAfter := GetReadingsBeforeOrAfter(readings, reading.date, reading.meter, "after").GetOr(reading);
      var monthBefore := lastReadingBefore.date.month;
      var yearBefore := lastReadingBefore.date.year;
      var monthAfter := firstReadingAfter.date.month;
      var yearAfter := firstReadingAfter.date.year;
      var w := Window(yearBefore, monthBefore, yearAfter, monthAfter);
      assert w == WindowOf(readings, reading);
      usages := Cleanup(usages, rule, reading.meter, w);
      failure := RecreateWindow(reading.meter, w, UsageOf(readings, reading.meter));
    }

    /** logic.py's recalculation: the cleanup deletes this meter's rows in the year/month box. */
    method UpdateUsageAfterNewReading(reading: Reading) returns (failure: Option<Failure>)
      requires Valid()
      modifies this`usages
      ensures Valid()
      ensures Fill(usages, failure) == Recalculation(old(usages), readings, reading, ThisMeterBox)
    {
      failure := Recalculate(reading, ThisMeterBox);
    }

    /** The older copy in models.py: the cleanup deletes every meter's rows in the box. */
    method LegacyUpdateUsageAfterNewReading(reading: Reading) returns (failure: Option<Failure>)
      requires Valid()
      modifies this`usages
      ensures Valid()
      ensures Fill(usages, failure) == Recalculation(old(usages), readings, reading, AllMetersBox)
    {
      failure := Recalculate(reading, AllMetersBox);
    }

    /** The recalculation with the cleanup deleting this meter's rows of exactly the window's months. */
    method CorrectedUpdateUsageAfterNewReading(reading: Reading) returns (failure: Option<Failure>)
      requires Valid()
      modifies this`usages
      ensures Valid()
      ensures Fill(usages, failure) == Recalculation(old(usages), readings, reading, ThisMeterWindow)
      ensures failure.None? || failure == Some(DateOutOfRange)
    {
      CoversWindowIff(ThisMeterWindow, reading.meter, WindowOf(readings, reading));
      CoveredNeverCollides(usages, readings, reading, ThisMeterWindow);
      failure := Recalculate(reading, ThisMeterWindow);
    }
  }
}
