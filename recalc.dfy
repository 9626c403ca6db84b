/**
 * What the recalculation does to the Usage table: which rows it adds, when it raises,
 * which rows of other meters it leaves alone, and when running it again changes nothing.
 */
module Recalc {
  import opened Wrappers
  import opened Calendar
  import opened Models
  import opened Logic

  /** The row for month (k.year, k.month) is one the loop over months `lo` .. `hi - 1` computes. */
  predicate Created(usage: UsageFn, meter: MeterId, lo: int, hi: int, k: UsageKey) {
    k.meter == meter && 1 <= k.month <= 12 && lo <= MonthIndex(k.year, k.month) < hi && usage(k.year, k.month).Some?
  }

  /** Month index `i` can be processed without raising. */
  predicate Insertable(t: UsageTable, usage: UsageFn, meter: MeterId, i: int) {
    var year, month := i / 12, i % 12 + 1;
    !(year == MaxYear && month == 12) && (usage(year, month).Some? ==> UsageKey(year, month, meter) !in t)
  }

  lemma KeyIndex(k: UsageKey, i: int)
    requires 1 <= k.month <= 12 && MonthIndex(k.year, k.month) == i
    ensures i / 12 == k.year && i % 12 + 1 == k.month
  {
  }

  /**
   * Whatever the outcome, the loop keeps every existing row, adds only rows of `meter`
   * for months in the range, and raises IntegrityError only for a row of such a month
   * that already existed, or ValueError only when December 9999 is in the range.
   */
  lemma {:induction false} FillRangeFrame(t: UsageTable, usage: UsageFn, meter: MeterId, lo: int, hi: int)
    ensures var f := FillRange(t, usage, meter, lo, hi);
      && (forall k :: k in t ==> k in f.table && f.table[k] == t[k])
      && (forall k :: k in f.table && k !in t ==> Created(usage, meter, lo, hi, k) && f.table[k] == usage(k.year, k.month).value)
      && (f.failure == Some(DateOutOfRange) ==> lo <= MonthIndex(MaxYear, 12) < hi)
      && (f.failure.Some? && f.failure.value.UsageExists? ==> f.failure.value.key in t && Created(usage, meter, lo, hi, f.failure.value.key))
    decreases hi - lo
  {
    if hi > lo {
      FillRangeFrame(t, usage, meter, lo, hi - 1);
      var prev := FillRange(t, usage, meter, lo, hi - 1);
      if prev.failure.None? {
        var i := hi - 1;
        var year, month := i / 12, i % 12 + 1;
        assert MonthIndex(year, month) == i;
        if usage(year, month).Some? {
          var key := UsageKey(year, month, meter);
          assert Created(usage, meter, lo, hi, key);
        }
      }
    }
  }

  /**
   * The loop runs to the end exactly when every month of the range can be processed:
   * none is December 9999, and no month that yields a usage already has a row.
   */
  lemma {:induction false} FillRangeSucceeds(t: UsageTable, usage: UsageFn, meter: MeterId, lo: int, hi: int)
    ensures FillRange(t, usage, meter, lo, hi).failure.None? <==> forall i :: lo <= i < hi ==> Insertable(t, usage, meter, i)
    decreases hi - lo
  {
    if hi > lo {
      FillRangeSucceeds(t, usage, meter, lo, hi - 1);
      FillRangeFrame(t, usage, meter, lo, hi - 1);
      var i := hi - 1;
      var year, month := i / 12, i % 12 + 1;
      var key := UsageKey(year, month, meter);
      assert MonthIndex(year, month) == i;
      assert !Created(usage, meter, lo, hi - 1, key);
      var prev := FillRange(t, usage, meter, lo, hi - 1);
      if prev.failure.None? {
        assert key in prev.table <==> key in t;
        assert FillRange(t, usage, meter, lo, hi).failure.None? <==> Insertable(t, usage, meter, i);
      }
    }
  }

  /** A row of a month of the range that has a usage is in the table once the loop has run to the end. */
  lemma {:induction false} FillRangeCreatesRow(t: UsageTable, usage: UsageFn, meter: MeterId, lo: int, hi: int, k: UsageKey)
    requires FillRange(t, usage, meter, lo, hi).failure.None? && Created(usage, meter, lo, hi, k)
    ensures k in FillRange(t, usage, meter, lo, hi).table
    decreases hi - lo
  {
    var prev := FillRange(t, usage, meter, lo, hi - 1);
    assert prev.failure.None?;
    if MonthIndex(k.year, k.month) < hi - 1 {
      FillRangeCreatesRow(t, usage, meter, lo, hi - 1, k);
      FillRangeFrame(prev.table, usage, meter, hi - 1, hi);
    } else {
      KeyIndex(k, hi - 1);
    }
  }

  /** Once the loop has raised, the later months change nothing: the exception ends the recalculation. */
  lemma {:induction false} FillRangeSticky(t: UsageTable, usage: UsageFn, meter: MeterId, lo: int, j: int, hi: int)
    requires j <= hi && FillRange(t, usage, meter, lo, j).failure.Some?
    ensures FillRange(t, usage, meter, lo, hi) == FillRange(t, usage, meter, lo, j)
    decreases hi - j
  {
    if j < hi {
      FillRangeSticky(t, usage, meter, lo, j, hi - 1);
    }
  }

  /**
   * When the loop runs to the end, the table holds the old rows plus one row per month
   * of the range that has a usage, carrying that usage.
   */
  lemma FillRangeContents(t: UsageTable, usage: UsageFn, meter: MeterId, lo: int, hi: int)
    requires FillRange(t, usage, meter, lo, hi).failure.None?
    ensures var f := FillRange(t, usage, meter, lo, hi);
      && (forall k :: k in f.table <==> k in t || Created(usage, meter, lo, hi, k))
      && (forall k :: Created(usage, meter, lo, hi, k) ==> k !in t && f.table[k] == usage(k.year, k.month).value)
      && (forall k :: k in t ==> f.table[k] == t[k])
  {
    FillRangeFrame(t, usage, meter, lo, hi);
    FillRangeSucceeds(t, usage, meter, lo, hi);
    var f := FillRange(t, usage, meter, lo, hi);
    forall k | Created(usage, meter, lo, hi, k)
      ensures k !in t && k in f.table
    {
      var i := MonthIndex(k.year, k.month);
      KeyIndex(k, i);
      assert Insertable(t, usage, meter, i);
      FillRangeCreatesRow(t, usage, meter, lo, hi, k);
    }
  }

  // ---------------------------------------------------------------------------
  // Other meters
  // ---------------------------------------------------------------------------

  /** logic.py's recalculation leaves every row of every other meter exactly as it was. */
  lemma OtherMetersUntouched(t: UsageTable, rs: seq<Reading>, reading: Reading, rule: CleanupRule, k: UsageKey)
    requires rule != AllMetersBox && k.meter != reading.meter
    ensures var f := Recalculation(t, rs, reading, rule);
      (k in f.table <==> k in t) && (k in t ==> f.table[k] == t[k])
  {
    var w := WindowOf(rs, reading);
    FillRangeFrame(Cleanup(t, rule, reading.meter, w), UsageOf(rs, reading.meter), reading.meter, StartIndex(w), EndIndex(w));
  }

  /**
   * The older copy in models.py deletes the rows of every meter inside the box and
   * re-creates only the triggering meter's, so other meters' rows in the box are lost.
   */
  lemma LegacyDropsOtherMeters(t: UsageTable, rs: seq<Reading>, reading: Reading, k: UsageKey)
    requires k.meter != reading.meter && InBox(k, WindowOf(rs, reading))
    ensures k !in Recalculation(t, rs, reading, AllMetersBox).table
  {
    var w := WindowOf(rs, reading);
    FillRangeFrame(Cleanup(t, AllMetersBox, reading.meter, w), UsageOf(rs, reading.meter), reading.meter, StartIndex(w), EndIndex(w));
  }

  /** Two tables hold the same rows of `meter`, with the same values. */
  ghost predicate AgreeOn(t1: UsageTable, t2: UsageTable, meter: MeterId) {
    forall k: UsageKey :: k.meter == meter ==> (k in t1 <==> k in t2) && (k in t1 ==> t1[k] == t2[k])
  }

  /**
   * The loop looks only at the rows of its own meter: on two tables that agree on those,
   * it raises the same exception, if any, and leaves tables that still agree on them.
   */
  lemma {:induction false} FillRangeAgrees(t1: UsageTable, t2: UsageTable, usage: UsageFn, meter: MeterId, lo: int, hi: int)
    requires AgreeOn(t1, t2, meter)
    ensures var f1, f2 := FillRange(t1, usage, meter, lo, hi), FillRange(t2, usage, meter, lo, hi);
      f1.failure == f2.failure && AgreeOn(f1.table, f2.table, meter)
    decreases hi - lo
  {
    if hi > lo {
      FillRangeAgrees(t1, t2, usage, meter, lo, hi - 1);
      var p1, p2 := FillRange(t1, usage, meter, lo, hi - 1), FillRange(t2, usage, meter, lo, hi - 1);
      if p1.failure.None? {
        var i := hi - 1;
        var key := UsageKey(i / 12, i % 12 + 1, meter);
        assert key in p1.table <==> key in p2.table;
      }
    }
  }

  /**
   * Apart from the rows of other meters that its cleanup deletes, the older copy does what
   * logic.py's does: it raises the same exception, if any, and leaves the triggering meter
   * the same rows with the same values.
   */
  lemma LegacySameRowsForMeter(t: UsageTable, rs: seq<Reading>, reading: Reading, k: UsageKey)
    requires k.meter == reading.meter
    ensures var f, g := Recalculation(t, rs, reading, ThisMeterBox), Recalculation(t, rs, reading, AllMetersBox);
      f.failure == g.failure && (k in f.table <==> k in g.table) && (k in f.table ==> f.table[k] == g.table[k])
  {
    var w := WindowOf(rs, reading);
    var c1, c2 := Cleanup(t, ThisMeterBox, reading.meter, w), Cleanup(t, AllMetersBox, reading.meter, w);
    assert AgreeOn(c1, c2, reading.meter);
    FillRangeAgrees(c1, c2, UsageOf(rs, reading.meter), reading.meter, StartIndex(w), EndIndex(w));
  }

  // ---------------------------------------------------------------------------
  // Running the recalculation again
  // ---------------------------------------------------------------------------

  /** The cleanup deletes the triggering meter's row for every month of the window. */
  ghost predicate CoversWindow(rule: CleanupRule, meter: MeterId, w: Window) {
    forall y, m :: InWindow(y, m, w) ==> Deletes(rule, meter, w, UsageKey(y, m, meter))
  }

  /**
   * The componentwise box contains the lexicographic window exactly when the window lies
   * within one year or runs from a January to a December; the corrected rule always does.
   */
  lemma CoversWindowIff(rule: CleanupRule, meter: MeterId, w: Window)
    requires WellFormed(w)
    ensures rule == ThisMeterWindow ==> CoversWindow(rule, meter, w)
    ensures rule != ThisMeterWindow ==>
      (CoversWindow(rule, meter, w) <==> w.yearBefore == w.yearAfter || (w.monthBefore == 1 && w.monthAfter == 12))
  {
    if rule != ThisMeterWindow && w.yearBefore < w.yearAfter {
      if w.monthAfter < 12 {
        assert InWindow(w.yearBefore, 12, w) && !Deletes(rule, meter, w, UsageKey(w.yearBefore, 12, meter));
      } else if w.monthBefore > 1 {
        assert InWindow(w.yearAfter, 1, w) && !Deletes(rule, meter, w, UsageKey(w.yearAfter, 1, meter));
      }
    }
  }

  /** After a cleanup that covers the window, no row the loop creates is left in the table. */
  lemma CoveredCleanupClearsCreated(t: UsageTable, usage: UsageFn, rule: CleanupRule, meter: MeterId, w: Window, k: UsageKey)
    requires CoversWindow(rule, meter, w) && Created(usage, meter, StartIndex(w), EndIndex(w), k)
    ensures k !in Cleanup(t, rule, meter, w)
  {
    assert k == UsageKey(k.year, k.month, meter);
    assert InWindow(k.year, k.month, w);
  }

  /** The loop raises no IntegrityError on a table holding none of the rows it creates. */
  lemma FillRangeNoCollision(t: UsageTable, usage: UsageFn, meter: MeterId, lo: int, hi: int)
    requires forall k :: Created(usage, meter, lo, hi, k) ==> k !in t
    ensures var f := FillRange(t, usage, meter, lo, hi);
      f.failure.None? || f.failure == Some(DateOutOfRange)
  {
    FillRangeFrame(t, usage, meter, lo, hi);
  }

  /** A recalculation whose cleanup covers the window never raises IntegrityError. */
  lemma CoveredNeverCollides(t: UsageTable, rs: seq<Reading>, reading: Reading, rule: CleanupRule)
    requires CoversWindow(rule, reading.meter, WindowOf(rs, reading))
    ensures var f := Recalculation(t, rs, reading, rule);
      f.failure.None? || f.failure == Some(DateOutOfRange)
  {
    var w := WindowOf(rs, reading);
    var usage, lo, hi := UsageOf(rs, reading.meter), StartIndex(w), EndIndex(w);
    var c := Cleanup(t, rule, reading.meter, w);
    forall k | Created(usage, reading.meter, lo, hi, k)
      ensures k !in c
    {
      CoveredCleanupClearsCreated(t, usage, rule, reading.meter, w, k);
    }
    FillRangeNoCollision(c, usage, reading.meter, lo, hi);
  }

  /** The same for a whole window: cleanup, loop, then cleanup and loop again. */
  lemma WindowRerunIsIdempotent(t: UsageTable, usage: UsageFn, rule: CleanupRule, meter: MeterId, w: Window)
    requires CoversWindow(rule, meter, w)
    requires FillRange(Cleanup(t, rule, meter, w), usage, meter, StartIndex(w), EndIndex(w)).failure.None?
    ensures var f1 := FillRange(Cleanup(t, rule, meter, w), usage, meter, StartIndex(w), EndIndex(w));
      FillRange(Cleanup(f1.table, rule, meter, w), usage, meter, StartIndex(w), EndIndex(w)) == f1
  {
    var lo, hi := StartIndex(w), EndIndex(w);
    var c0 := Cleanup(t, rule, meter, w);
    var f1 := FillRange(c0, usage, meter, lo, hi);
    FillRangeContents(c0, usage, meter, lo, hi);
    var c1 := Cleanup(f1.table, rule, meter, w);
    forall k ensures k in c1 <==> k in c0 {
      if Created(usage, meter, lo, hi, k) {
        CoveredCleanupClearsCreated(f1.table, usage, rule, meter, w, k);
        CoveredCleanupClearsCreated(t, usage, rule, meter, w, k);
      }
    }
    assert c1 == c0;
  }

  /**
   * With a cleanup that covers the window, running the recalculation a second time for
   * the same reading and the same readings leaves exactly the rows of the first run.
   */
  lemma RerunIsIdempotent(t: UsageTable, rs: seq<Reading>, reading: Reading, rule: CleanupRule)
    requires CoversWindow(rule, reading.meter, WindowOf(rs, reading))
    requires Recalculation(t, rs, reading, rule).failure.None?
    ensures Recalculation(Recalculation(t, rs, reading, rule).table, rs, reading, rule) == Recalculation(t, rs, reading, rule)
  {
    WindowRerunIsIdempotent(t, UsageOf(rs, reading.meter), rule, reading.meter, WindowOf(rs, reading));
  }

  /** The loop raises when the table already holds a row it would create. */
  lemma FillRangeCollides(t: UsageTable, usage: UsageFn, meter: MeterId, lo: int, hi: int, k: UsageKey)
    requires Created(usage, meter, lo, hi, k) && k in t
    ensures FillRange(t, usage, meter, lo, hi).failure.Some?
  {
    var i := MonthIndex(k.year, k.month);
    KeyIndex(k, i);
    assert !Insertable(t, usage, meter, i);
    FillRangeSucceeds(t, usage, meter, lo, hi);
  }

  /**
   * With a cleanup that does not delete a row the loop creates, the loop raises
   * IntegrityError when it runs again on its own output.
   */
  lemma FillRangeRerunCollides(t: UsageTable, c: UsageTable, usage: UsageFn, meter: MeterId, lo: int, hi: int, k: UsageKey)
    requires FillRange(t, usage, meter, lo, hi).failure.None? && Created(usage, meter, lo, hi, k)
    requires k in c <==> k in FillRange(t, usage, meter, lo, hi).table
    requires hi <= MonthIndex(MaxYear, 12) || lo > MonthIndex(MaxYear, 12)
    ensures var f := FillRange(c, usage, meter, lo, hi);
      f.failure.Some? && f.failure.value.UsageExists?
  {
    FillRangeContents(t, usage, meter, lo, hi);
    FillRangeCollides(c, usage, meter, lo, hi, k);
    FillRangeFrame(c, usage, meter, lo, hi);
  }

  /**
   * The same for a whole window: a first cleanup and loop, then a second cleanup, which
   * may follow another rule, and the loop again.
   */
  lemma WindowRerunCollides(t: UsageTable, usage: UsageFn, rule: CleanupRule, again: CleanupRule, meter: MeterId, w: Window, y: int, m: int)
    requires WellFormed(w) && InWindow(y, m, w) && usage(y, m).Some?
    requires !Deletes(again, meter, w, UsageKey(y, m, meter))
    requires FillRange(Cleanup(t, rule, meter, w), usage, meter, StartIndex(w), EndIndex(w)).failure.None?
    ensures var f1 := FillRange(Cleanup(t, rule, meter, w), usage, meter, StartIndex(w), EndIndex(w));
      var f := FillRange(Cleanup(f1.table, again, meter, w), usage, meter, StartIndex(w), EndIndex(w));
      f.failure.Some? && f.failure.value.UsageExists?
  {
    var lo, hi := StartIndex(w), EndIndex(w);
    var c0 := Cleanup(t, rule, meter, w);
    var f1 := FillRange(c0, usage, meter, lo, hi);
    FillRangeFrame(c0, usage, meter, lo, hi);
    FillRangeSucceeds(c0, usage, meter, lo, hi);
    var last := MonthIndex(MaxYear, 12);
    assert !Insertable(c0, usage, meter, last);
    var k := UsageKey(y, m, meter);
    assert Created(usage, meter, lo, hi, k);
    FillRangeRerunCollides(c0, Cleanup(f1.table, again, meter, w), usage, meter, lo, hi, k);
  }

  /**
   * When the first run creates a row that the cleanup of a second run for the same reading
   * does not delete, the second run finds that row still there and raises IntegrityError.
   */
  lemma RerunCollides(t: UsageTable, rs: seq<Reading>, reading: Reading, rule: CleanupRule, again: CleanupRule, y: int, m: int)
    requires Recalculation(t, rs, reading, rule).failure.None?
    requires InWindow(y, m, WindowOf(rs, reading)) && ComputableMonth(y, m)
    requires MonthUsage(rs, reading.meter, y, m).Some?
    requires !Deletes(again, reading.meter, WindowOf(rs, reading), UsageKey(y, m, reading.meter))
    ensures var f := Recalculation(Recalculation(t, rs, reading, rule).table, rs, reading, again);
      f.failure.Some? && f.failure.value.UsageExists?
  {
    var usage := UsageOf(rs, reading.meter);
    assert usage(y, m).Some?;
    WindowRerunCollides(t, usage, rule, again, reading.meter, WindowOf(rs, reading), y, m);
  }
}
