/**
 * Concrete scenarios: the insertion the unit tests perform, the re-run across a year
 * boundary that makes the box cleanup raise IntegrityError, and the older cleanup
 * dropping another meter's row.
 */
module Scenarios {
  import opened Wrappers
  import opened Calendar
  import opened Models
  import opened Logic
  import opened Recalc

  // ---------------------------------------------------------------------------
  // Readings on 2018-07-01 (0) and 2018-09-01 (10), the second one just saved
  // ---------------------------------------------------------------------------

  /** Deleting from an empty table leaves it empty. */
  lemma CleanupOfEmpty(rule: CleanupRule, meter: MeterId, w: Window)
    ensures Cleanup(map[], rule, meter, w) == map[]
  {
  }

  const July1: CalDate := Date(2018, 7, 1)
  const September1: CalDate := Date(2018, 9, 1)
  const SummerReadings := [Reading(July1, 0.0, 1, ""), Reading(September1, 10.0, 1, "")]

  lemma SummerWindow()
    ensures WindowOf(SummerReadings, SummerReadings[1]) == Window(2018, 7, 2018, 9)
  {
    assert Nearest(SummerReadings, 1, Lt, September1) == Some(SummerReadings[0]);
    assert Nearest(SummerReadings, 1, Gt, September1) == None;
  }

  /** July runs from 0 on July 1 to 5 on August 1: 31 of the 62 days between the readings. */
  lemma JulyUsage()
    ensures MonthUsage(SummerReadings, 1, 2018, 7) == Some(5.0)
  {
    var r1, r2 := SummerReadings[0], SummerReadings[1];
    assert Nearest(SummerReadings, 1, Le, FirstOfMonth(2018, 7)) == Some(r1);
    assert Nearest(SummerReadings, 1, Gt, FirstOfMonth(2018, 7)) == Some(r2);
    assert Nearest(SummerReadings, 1, Lt, FirstOfNextMonth(2018, 7)) == Some(r1);
    assert Nearest(SummerReadings, 1, Ge, FirstOfNextMonth(2018, 7)) == Some(r2);
    assert DaysBetween(r1.date, r2.date) == 62;
    assert DaysBetween(r1.date, FirstOfNextMonth(2018, 7)) == 31;
    InterpolationFormula(FirstOfNextMonth(2018, 7), r1, r2);
    InterpolationFormula(FirstOfMonth(2018, 7), r1, r2);
  }

  /** August runs from 5 on August 1 to 10 on September 1. */
  lemma AugustUsage()
    ensures MonthUsage(SummerReadings, 1, 2018, 8) == Some(5.0)
  {
    var r1, r2 := SummerReadings[0], SummerReadings[1];
    assert Nearest(SummerReadings, 1, Le, FirstOfMonth(2018, 8)) == Some(r1);
    assert Nearest(SummerReadings, 1, Gt, FirstOfMonth(2018, 8)) == Some(r2);
    assert Nearest(SummerReadings, 1, Lt, FirstOfNextMonth(2018, 8)) == Some(r1);
    assert Nearest(SummerReadings, 1, Ge, FirstOfNextMonth(2018, 8)) == Some(r2);
    assert DaysBetween(r1.date, r2.date) == 62;
    assert DaysBetween(r1.date, FirstOfMonth(2018, 8)) == 31;
    InterpolationFormula(FirstOfNextMonth(2018, 8), r1, r2);
    InterpolationFormula(FirstOfMonth(2018, 8), r1, r2);
  }

  /** September has no reading after its first day, so it is skipped. */
  lemma SeptemberSkipped()
    ensures MonthUsage(SummerReadings, 1, 2018, 9) == None
  {
    assert Nearest(SummerReadings, 1, Gt, FirstOfMonth(2018, 9)) == None;
  }

  /**
   * Saving the 2018-09-01 reading creates a row of 5 for August and, beyond what the
   * unit test checks, a row of 5 for July; September is skipped.
   */
  lemma UsageCalcOnInsert()
    ensures Recalculation(map[], SummerReadings, SummerReadings[1], ThisMeterBox) ==
      Fill(map[UsageKey(2018, 7, 1) := 5.0, UsageKey(2018, 8, 1) := 5.0], None)
  {
    SummerWindow();
    JulyUsage();
    AugustUsage();
    SeptemberSkipped();
    var usage := UsageOf(SummerReadings, 1);
    assert usage(2018, 7) == Some(5.0) && usage(2018, 8) == Some(5.0) && usage(2018, 9) == None;
    CleanupOfEmpty(ThisMeterBox, 1, Window(2018, 7, 2018, 9));
    SummerFill(usage);
  }

  /** The loop over July, August and September 2018 with those months' usages. */
  lemma SummerFill(usage: UsageFn)
    requires usage(2018, 7) == Some(5.0) && usage(2018, 8) == Some(5.0) && usage(2018, 9) == None
    ensures FillRange(map[], usage, 1, MonthIndex(2018, 7), MonthIndex(2018, 9) + 1) ==
      Fill(map[UsageKey(2018, 7, 1) := 5.0, UsageKey(2018, 8, 1) := 5.0], None)
  {
    var lo := MonthIndex(2018, 7);
    assert FillRange(map[], usage, 1, lo, lo + 1) == Fill(map[UsageKey(2018, 7, 1) := 5.0], None);
    assert FillRange(map[], usage, 1, lo, lo + 2) == Fill(map[UsageKey(2018, 7, 1) := 5.0, UsageKey(2018, 8, 1) := 5.0], None);
  }

  /**
   * The unit test calls logic.py's recalculation once more after the save has run it:
   * within one year the second run leaves the rows as they were.
   */
  lemma SummerEditKeepsRows()
    ensures var first := Recalculation(map[], SummerReadings, SummerReadings[1], ThisMeterBox);
      Recalculation(first.table, SummerReadings, SummerReadings[1], ThisMeterBox) == first
  {
    UsageCalcOnInsert();
    SummerWindow();
    CoversWindowIff(ThisMeterBox, 1, WindowOf(SummerReadings, SummerReadings[1]));
    RerunIsIdempotent(map[], SummerReadings, SummerReadings[1], ThisMeterBox);
  }

  /**
   * The older cleanup deletes another meter's August row; logic.py's keeps it.
   */
  lemma LegacyDropsOtherMeterRow()
    ensures var t := map[UsageKey(2018, 8, 2) := 3.0];
      && UsageKey(2018, 8, 2) in Recalculation(t, SummerReadings, SummerReadings[1], ThisMeterBox).table
      && UsageKey(2018, 8, 2) !in Recalculation(t, SummerReadings, SummerReadings[1], AllMetersBox).table
  {
    var t := map[UsageKey(2018, 8, 2) := 3.0];
    SummerWindow();
    OtherMetersUntouched(t, SummerReadings, SummerReadings[1], ThisMeterBox, UsageKey(2018, 8, 2));
    LegacyDropsOtherMeters(t, SummerReadings, SummerReadings[1], UsageKey(2018, 8, 2));
  }

  // ---------------------------------------------------------------------------
  // Readings on 2018-11-01 (0) and 2019-02-01 (92), the second one just saved
  // ---------------------------------------------------------------------------

  const November1: CalDate := Date(2018, 11, 1)
  const February1: CalDate := Date(2019, 2, 1)
  const WinterReadings := [Reading(November1, 0.0, 1, ""), Reading(February1, 92.0, 1, "")]

  lemma WinterWindow()
    ensures WindowOf(WinterReadings, WinterReadings[1]) == Window(2018, 11, 2019, 2)
  {
    assert Nearest(WinterReadings, 1, Lt, February1) == Some(WinterReadings[0]);
    assert Nearest(WinterReadings, 1, Gt, February1) == None;
  }

  /** November has readings on both sides of both its ends. */
  lemma NovemberHasUsage()
    ensures MonthUsage(WinterReadings, 1, 2018, 11).Some?
  {
    MonthUsageDefined(WinterReadings, 1, 2018, 11);
    assert WinterReadings[0] in WinterReadings && WinterReadings[1] in WinterReadings;
  }

  /** The box months 11 .. 2 are empty, so the cleanup deletes nothing. */
  lemma WinterBoxIsEmpty(t: UsageTable, rule: CleanupRule)
    requires rule != ThisMeterWindow
    ensures Cleanup(t, rule, 1, Window(2018, 11, 2019, 2)) == t
  {
  }

  /**
   * The first calculation, on a table with no rows, runs to the end. Recalculating again
   * for the same reading, with logic.py's cleanup or the older one, raises IntegrityError
   * on the November row the first run created, since neither box cleanup deletes it.
   */
  lemma WinterRerunRaises(again: CleanupRule)
    requires again != ThisMeterWindow
    ensures var first := Recalculation(map[], WinterReadings, WinterReadings[1], ThisMeterBox);
      && first.failure.None?
      && Recalculation(first.table, WinterReadings, WinterReadings[1], again).failure == Some(UsageExists(UsageKey(2018, 11, 1)))
  {
    WinterWindow();
    WinterFirstRunCompletes(ThisMeterBox);
    NovemberHasUsage();
    var usage := UsageOf(WinterReadings, 1);
    assert usage(2018, 11).Some?;
    WinterRerunMeetsNovember(usage, again);
  }

  /** The loop over November 2018 .. February 2019 run twice, for any usages with one for November. */
  lemma WinterRerunMeetsNovember(usage: UsageFn, again: CleanupRule)
    requires again != ThisMeterWindow && usage(2018, 11).Some?
    ensures var w := Window(2018, 11, 2019, 2);
      var f1 := FillRange(Cleanup(map[], ThisMeterBox, 1, w), usage, 1, StartIndex(w), EndIndex(w));
      f1.failure.None? ==>
        FillRange(Cleanup(f1.table, again, 1, w), usage, 1, StartIndex(w), EndIndex(w)).failure == Some(UsageExists(UsageKey(2018, 11, 1)))
  {
    var w := Window(2018, 11, 2019, 2);
    var lo, hi := StartIndex(w), EndIndex(w);
    var f1 := FillRange(Cleanup(map[], ThisMeterBox, 1, w), usage, 1, lo, hi);
    if f1.failure.None? {
      NovemberCreated(Cleanup(map[], ThisMeterBox, 1, w), usage, lo, hi);
      FirstMonthRaises(Cleanup(f1.table, again, 1, w), usage, lo, hi);
    }
  }

  /** A complete loop from November 2018 creates the November row when November has a usage. */
  lemma NovemberCreated(t: UsageTable, usage: UsageFn, lo: int, hi: int)
    requires usage(2018, 11).Some? && lo == MonthIndex(2018, 11) < hi
    requires FillRange(t, usage, 1, lo, hi).failure.None?
    ensures UsageKey(2018, 11, 1) in FillRange(t, usage, 1, lo, hi).table
  {
    assert Created(usage, 1, lo, hi, UsageKey(2018, 11, 1));
    FillRangeCreatesRow(t, usage, 1, lo, hi, UsageKey(2018, 11, 1));
  }

  /** A loop from November 2018 on a table that holds the November row raises on it at once. */
  lemma FirstMonthRaises(c: UsageTable, usage: UsageFn, lo: int, hi: int)
    requires usage(2018, 11).Some? && lo == MonthIndex(2018, 11) < hi && UsageKey(2018, 11, 1) in c
    ensures FillRange(c, usage, 1, lo, hi).failure == Some(UsageExists(UsageKey(2018, 11, 1)))
  {
    assert FillRange(c, usage, 1, lo, lo + 1).failure == Some(UsageExists(UsageKey(2018, 11, 1)));
    FillRangeSticky(c, usage, 1, lo, lo + 1, hi);
  }

  /** On a table with no rows, the first calculation runs to the end whatever the cleanup. */
  lemma WinterFirstRunCompletes(rule: CleanupRule)
    ensures Recalculation(map[], WinterReadings, WinterReadings[1], rule).failure.None?
  {
    var w := Window(2018, 11, 2019, 2);
    WinterWindow();
    CleanupOfEmpty(rule, 1, w);
    EmptyFillCompletes(UsageOf(WinterReadings, 1), w);
  }

  lemma EmptyFillCompletes(usage: UsageFn, w: Window)
    requires w == Window(2018, 11, 2019, 2)
    ensures FillRange(map[], usage, 1, StartIndex(w), EndIndex(w)).failure.None?
  {
    FillRangeNoCollision(map[], usage, 1, StartIndex(w), EndIndex(w));
    FillRangeFrame(map[], usage, 1, StartIndex(w), EndIndex(w));
  }

  /** With the cleanup over exactly the window's months, the second run leaves the rows as they were. */
  lemma WinterRerunCorrected()
    ensures var first := Recalculation(map[], WinterReadings, WinterReadings[1], ThisMeterWindow);
      && first.failure.None?
      && Recalculation(first.table, WinterReadings, WinterReadings[1], ThisMeterWindow) == first
  {
    WinterFirstRunCompletes(ThisMeterWindow);
    WinterWindow();
    CoversWindowIff(ThisMeterWindow, 1, Window(2018, 11, 2019, 2));
    RerunIsIdempotent(map[], WinterReadings, WinterReadings[1], ThisMeterWindow);
  }
}
