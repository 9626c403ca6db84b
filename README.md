# Usage recalculation of the home_dashboard utilities app

The utilities app of home_dashboard stores three things:

- **meters**: a unique name and a unit;
- **dated readings** of a meter: one per (date, meter);
- **monthly usages** derived from the readings: one per (year, month, meter).

Each time a reading is saved, the app recalculates the usages of the months around it.

1. It looks up the meter's latest reading strictly before the new one and its earliest reading strictly after it. If either is missing, the new reading stands in for it. The months of these two readings give a *window* of months.
2. It deletes Usage rows of the window with a filter on year and month.
3. It walks the window month by month. For each month it finds the four readings of the meter that bracket the month's first day and the first day of the next month: the latest on or before the first day, the earliest after it, the latest before the next first day, and the earliest on or after it.
4. It interpolates the meter's value linearly in days on both days and inserts a Usage row with the difference. A month where a bracketing reading is missing is skipped.

The engine exists twice:

- **logic.py** is the current copy. Its cleanup deletes only the triggering meter's rows.
- **models.py** holds an older copy whose cleanup deletes the rows of every meter. The reading-edit view still calls it, right after the save that already ran the current copy.

The two copies of `calculate_reading_on_date` and `get_readings_before_or_after` are the same text, so each is modelled once.

The project is laid out as follows:

- `calendar.dfy`: dates as `datetime.date` has them.
  - Lexicographic comparison.
  - Day differences as differences of ordinals. The ordinals come from a year-by-year count, proved equal to `datetime`'s closed form.
  - The first day of a month, and the first day of the next month.
- `models.dfy`: the three entities and their uniqueness constraints.
  - The Usage table is a `map` keyed by (year, month, meter), so it holds at most one row per key.
- `logic.dfy`: the engine as functions.
  - Interpolation, with `MeterError` and `ValueError` as result variants.
  - The four ordered lookups (`Nearest`), the bracket lookup and the window.
  - The three cleanup rules.
  - The usage of one month, `MonthUsage`.
  - The month loop as a fold over consecutive month indices, `FillRange`, and the whole recalculation, `Recalculation`. The fold stops at the first exception the loop body raises.
- `recalc.dfy`: lemmas about that fold and the recalculation.
  - Which rows it adds, which rows it keeps, and when it raises.
  - What happens to other meters' rows.
  - What running it a second time does.
- `store.dfy`: the database as a class.
  - Fields `meters`, `readings` and `usages`.
  - The saves the uniqueness constraints guard.
  - The recalculation itself, as the source's delete followed by the nested loops: `for year` in `RecreateWindow`, `for month` in `RecreateYear`, one month's body in `RecreateMonth` and `CreateUsage`. Each method is proved equal to the functions of `logic.dfy`.
- `scenarios.dfy`: concrete runs. They cover the inserting unit test, an edit across a year boundary, and the older cleanup.

Three cleanup rules are modelled (`Logic.CleanupRule`):

- `ThisMeterBox`: logic.py's filter. It keeps `year` in [yearBefore, yearAfter] AND `month` in [monthBefore, monthAfter], compared componentwise, and restricts to the meter.
- `AllMetersBox`: the same box with no meter filter (models.py).
- `ThisMeterWindow`: the meter's rows of exactly the window's months, in lexicographic order. This is the corrected cleanup of the Findings below.

The unit test at tests.py:597-613 checks only the August row of the readings 2018-07-01 → 0 and 2018-09-01 → 10. The loop at logic.py:48-73 also creates a July row of 5, because July 1 has a reading on it and August 1 lies between the readings. `Scenarios.UsageCalcOnInsert` states the result with both rows.

## Model

| member | source | states |
|---|---|---|
| Calendar.FirstOfNextMonth | home_dashboard/utilities/logic.py:43-46 | the end date of a month is the first day of the next month, and December rolls over to January 1 of the next year; it comes after the month's first day |
| Calendar.OrdinalOrder | home_dashboard/utilities/logic.py:117-124 | comparing dates by (year, month, day) agrees with comparing the ordinals whose differences give `.days`, both for `<` and for equality |
| Calendar.MonthLength | home_dashboard/utilities/logic.py:42-46 | the days from a month's first day to its end date are the month's length: 28 to 31, and 29 in February exactly in leap years |
| Calendar.DaysBeforeYearIsClosedForm | home_dashboard/utilities/logic.py:123-124 | counting days year by year (366 in leap years) gives the closed form `365p + p/4 - p/100 + p/400` that date ordinals use |
| Models.ReadingClash | home_dashboard/utilities/models.py:29-30 | a reading clashes exactly when a stored reading has the same date and the same meter |
| Models.NameTaken | home_dashboard/utilities/models.py:14 | a meter name is taken exactly when a stored meter has that name |
| Models.MeterKnown | home_dashboard/utilities/models.py:26 | a reading's meter key is valid exactly when a stored meter has it |
| Models.InsertKeepsReadingsUnique | home_dashboard/utilities/models.py:29-30 | adding a reading that does not clash keeps at most one reading per (date, meter) |
| Models.SecondReadingSameDayRefused | home_dashboard/utilities/tests.py:456-474 | a second reading of the same meter on the same date clashes with the first, whatever its value |
| Models.InsertKeepsMetersUnique | home_dashboard/utilities/models.py:14 | adding a meter with a new name and a new key keeps names and keys unique |
| Logic.CalculateReadingOnDate | home_dashboard/utilities/logic.py:105-129 | MeterError exactly when the meters differ, whatever the dates; on equal dates the first reading's value for any target date; otherwise ValueError exactly when the target date lies outside the readings' span; the older copy at models.py:136-158 is the same text |
| Logic.InterpolationFormula | home_dashboard/utilities/logic.py:123-129 | with the earlier reading first and the date in the span: the result is `v1 + (v2 - v1) * (d - d1) / (d2 - d1)` in days, with `d2 - d1 > 0` |
| Logic.InterpolationOrderIndependent | home_dashboard/utilities/logic.py:117-119 | on readings with different dates the result does not depend on the order of the two readings |
| Logic.InterpolationAtReadings | home_dashboard/utilities/logic.py:115-129 | on the date of either reading the result is that reading's value |
| Logic.InterpolationBetween | home_dashboard/utilities/logic.py:120-129 | every result lies between the two readings' values |
| Logic.InterpolationIsLinear | home_dashboard/utilities/logic.py:123-129 | between two dates of the span, the result changes by the readings' change times the days elapsed over the days between the readings |
| Logic.InterpolationExample | home_dashboard/utilities/tests.py:534-559 | readings 2018-01-01 → 0 and 2018-01-11 → 10 give 5 on 2018-01-06 |
| Logic.Nearest | home_dashboard/utilities/logic.py:49-60 | the query `filter(meter).filter(date__cmp).order_by(±date)[0]`: None exactly when no reading of the meter passes the filter, otherwise a stored reading that passes it and that no other passing reading comes before in the query's order |
| Logic.NearestIsTheExtremalReading | home_dashboard/utilities/logic.py:89-98 | with at most one reading per (date, meter), the query returns the one extremal reading, whatever the storage order |
| Logic.GetReadingsBeforeOrAfter | home_dashboard/utilities/logic.py:77-102 | "before": the meter's latest reading strictly before the date; "after": its earliest strictly after; None when there is none or the selector is neither; never the date itself; it never fails; the older copy at models.py:109-134 is the same text |
| Logic.WindowOf | home_dashboard/utilities/logic.py:18-26 | the window starts in the month of the meter's latest reading strictly before the triggering one, and in the triggering reading's own month when there is none; it ends in the month of the earliest reading strictly after, or the triggering reading's month when there is none; it is well formed and contains the triggering reading's month |
| Logic.Cleanup | home_dashboard/utilities/logic.py:28-32 | a row survives exactly when it was there and the rule does not select it, with its value unchanged |
| Logic.BracketsInterpolate | home_dashboard/utilities/logic.py:65-66 | the two interpolations of a month whose four brackets exist never raise: the driver cannot meet MeterError or ValueError |
| Logic.MonthUsageDefined | home_dashboard/utilities/logic.py:48-63 | a month has a usage (it is not skipped) exactly when the meter has readings on or before and after its first day, and before and on or after its end date |
| Logic.BracketBelow | home_dashboard/utilities/logic.py:49-51 | with no reading of the meter strictly between two consecutive readings, a descending query that the earlier one passes and the later one fails returns the earlier one |
| Logic.BracketAbove | home_dashboard/utilities/logic.py:52-54 | in the same situation, an ascending query that the later reading passes and the earlier one fails returns the later one |
| Logic.ProportionalBetween | home_dashboard/utilities/logic.py:65-68 | interpolating both ends of a span between the same two readings never raises, and gives a usage of the readings' change times the span's days over the days between the readings |
| Logic.SpanUsageProportional | home_dashboard/utilities/logic.py:42-68 | for any span lying between two consecutive readings of the meter (a month is the span from its first day to the next month's first day, whose length `Calendar.MonthLength` gives), the four queries find those two readings and the usage is their change times the span's days over the days between them |
| Logic.MonthUsage | home_dashboard/utilities/logic.py:42-68 | definition, no ensures: the usage of a month is the usage of the span from its first day (`date(year, month, 1)`) to the first day of the next month; its contract is carried by `Logic.MonthUsageDefined` and `Logic.SpanUsageProportional` |
| Logic.SpanUsage | home_dashboard/utilities/logic.py:48-68 | definition, no ensures: the four queries `date__lte` / `date__gt` on the first day and `date__lt` / `date__gte` on the end date, then the two interpolations; its contract is carried by `Logic.MonthUsageDefined`, `Logic.BracketsInterpolate` and `Logic.SpanUsageProportional` |
| Logic.UsageFromBrackets | home_dashboard/utilities/logic.py:61-68 | definition, no ensures: None (the logged IndexError) when a query finds no row, otherwise `last_of_month - first_of_month`; its contract is carried by `Logic.BracketsInterpolate` and `Logic.ProportionalBetween` |
| Logic.CreateMonth | home_dashboard/utilities/logic.py:42-73 | definition, no ensures: one pass of the loop body for a month index (ValueError for December 9999, a skip without a usage, IntegrityError on an existing row, else an insert); its contract is carried by `Store.Database.CreateUsage`, `Recalc.FillRangeFrame` and `Recalc.FillRangeSucceeds` |
| Logic.FillRange | home_dashboard/utilities/logic.py:35-73 | definition, no ensures: the loop over consecutive month indices in order, stopping at the first exception; its contract is carried by `Recalc.FillRangeFrame`, `Recalc.FillRangeSucceeds`, `Recalc.FillRangeContents`, `Recalc.FillRangeSticky`, `Recalc.FillRangeAgrees` and `Store.Database.RecreateWindow` |
| Logic.Recalculation | home_dashboard/utilities/logic.py:13-73 | definition, no ensures: the window, the cleanup and the loop of `update_usage_after_new_reading`; with `AllMetersBox` it is the older copy at models.py:50-107; its contract is carried by `Store.Database.Recalculate`, `Recalc.OtherMetersUntouched`, `Recalc.LegacySameRowsForMeter`, `Recalc.RerunIsIdempotent` and `Recalc.RerunCollides` |
| Recalc.FillRangeFrame | home_dashboard/utilities/logic.py:35-73 | whatever the outcome, the loop keeps every row and its value, adds only rows of the meter for months of the window that have a usage, with that usage; IntegrityError only on such a row already present; ValueError only when December 9999 is in the window |
| Recalc.FillRangeSucceeds | home_dashboard/utilities/logic.py:35-73 | the loop runs to its end exactly when no month of the window is December 9999 and no month with a usage already has a row |
| Recalc.FillRangeCreatesRow | home_dashboard/utilities/logic.py:69-73 | after a complete loop, every month of the window with a usage has a row |
| Recalc.FillRangeSticky | home_dashboard/utilities/logic.py:35-73 | once an exception is raised, the later months change nothing |
| Recalc.FillRangeContents | home_dashboard/utilities/logic.py:35-73 | after a complete loop the table is exactly the old rows plus one new row per month of the window with a usage, carrying that usage |
| Recalc.OtherMetersUntouched | home_dashboard/utilities/logic.py:28-32 | logic.py's recalculation keeps every row of every other meter, with its value, and adds none |
| Recalc.LegacyDropsOtherMeters | home_dashboard/utilities/models.py:64-67 | the older recalculation loses every other meter's row inside the box |
| Recalc.FillRangeAgrees | home_dashboard/utilities/logic.py:35-73 | the loop reads and writes only its own meter's rows: on two tables that agree on them it raises the same exception and leaves tables that still agree on them |
| Recalc.LegacySameRowsForMeter | home_dashboard/utilities/models.py:54-107 | apart from the cleanup, the older driver raises the same exception as logic.py's, if any, and gives the triggering meter the same rows and values, whether or not the runs complete |
| Recalc.CoversWindowIff | home_dashboard/utilities/logic.py:29-30 | the box cleanup deletes every month of the window exactly when the window lies within one year or runs from a January to a December; the corrected cleanup always does |
| Recalc.CoveredCleanupClearsCreated | home_dashboard/utilities/logic.py:28-32 | a cleanup covering the window leaves none of the rows the loop will create |
| Recalc.FillRangeNoCollision | home_dashboard/utilities/logic.py:69-72 | on a table holding none of the rows it creates, the loop raises no IntegrityError |
| Recalc.CoveredNeverCollides | home_dashboard/utilities/logic.py:28-73 | a recalculation whose cleanup covers the window raises no IntegrityError |
| Recalc.WindowRerunIsIdempotent | home_dashboard/utilities/logic.py:28-73 | cleanup and loop over a covered window, run twice, give the rows of the first run |
| Recalc.RerunIsIdempotent | home_dashboard/utilities/logic.py:13-73 | with a covering cleanup, recalculating again for the same reading leaves exactly the first run's rows and raises nothing |
| Recalc.FillRangeCollides | home_dashboard/utilities/logic.py:69-72 | the loop raises when a row it would create is already present |
| Recalc.FillRangeRerunCollides | home_dashboard/utilities/logic.py:35-73 | the loop run again on a table that still holds one of its rows raises IntegrityError |
| Recalc.WindowRerunCollides | home_dashboard/utilities/logic.py:28-73 | cleanup and loop, then a second cleanup that spares a created row, then the loop again: IntegrityError |
| Recalc.RerunCollides | home_dashboard/utilities/logic.py:13-73 | when the first run creates a row that the second run's cleanup spares, the second run raises IntegrityError |
| Store.MaxId | home_dashboard/utilities/models.py:10-15 | the largest meter key in use bounds every key, so the key after it is new |
| Store.Database.constructor | home_dashboard/utilities/models.py:10-48 | an empty database satisfies all constraints |
| Store.Database.SaveMeter | home_dashboard/utilities/models.py:14 | refused exactly when the name is taken; otherwise the meter is appended under a key not in use; the constraints are kept |
| Store.Database.SaveReading | home_dashboard/utilities/models.py:29-30 | stored exactly when its meter exists and no reading of that meter has that date; otherwise the readings are unchanged; the constraints are kept |
| Store.Database.CreateUsage | home_dashboard/utilities/logic.py:42-73 | one pass of the loop body: ValueError for December 9999, a skip when the month has no usage, IntegrityError when the row exists, else the row is inserted |
| Store.Database.RecreateWindow | home_dashboard/utilities/logic.py:35-73 | the nested year/month loops with their two skip branches visit the window's months in order and leave the table and outcome of `FillRange` |
| Store.Database.RecreateYear | home_dashboard/utilities/logic.py:36-73 | the inner `for month` loop of one year: if it runs to its end, the table is that of `FillRange` up to the year's last month inside the window; if it raises, the table and exception are those of `FillRange` over the whole window |
| Store.Database.RecreateMonth | home_dashboard/utilities/logic.py:41-73 | one month of the window that is not skipped extends the loop's run by exactly that month, and an exception in it is the outcome of the whole window |
| Store.SkippedOutsideWindow | home_dashboard/utilities/logic.py:37-40 | the two `pass` branches skip a month of the window's years exactly when it lies outside the window |
| Store.Database.Recalculate | home_dashboard/utilities/logic.py:13-73 | the window lookup, the cleanup and the loop leave the table and outcome of `Recalculation`; readings and meters are unchanged |
| Store.Database.UpdateUsageAfterNewReading | home_dashboard/utilities/logic.py:13-73 | logic.py's recalculation, with the meter-filtered box cleanup |
| Store.Database.LegacyUpdateUsageAfterNewReading | home_dashboard/utilities/models.py:50-107 | the older recalculation, with the box cleanup over all meters; readings are not modified |
| Store.Database.CorrectedUpdateUsageAfterNewReading | home_dashboard/utilities/logic.py:28-32 | with the cleanup over exactly the window's months, the recalculation never raises IntegrityError (only ValueError at year 9999) |
| Scenarios.SummerWindow | home_dashboard/utilities/logic.py:18-26 | saving 2018-09-01 after 2018-07-01 gives the window July to September 2018 |
| Scenarios.JulyUsage | home_dashboard/utilities/logic.py:42-73 | July 2018 uses 5 (31 of the 62 days) |
| Scenarios.AugustUsage | home_dashboard/utilities/tests.py:597-613 | August 2018 uses 5 |
| Scenarios.SeptemberSkipped | home_dashboard/utilities/logic.py:61-63 | September 2018 has no reading after its first day and is skipped |
| Scenarios.UsageCalcOnInsert | home_dashboard/utilities/tests.py:597-613 | the recalculation for the 2018-09-01 reading on an empty table creates exactly July → 5 and August → 5 and raises nothing |
| Scenarios.SummerEditKeepsRows | home_dashboard/utilities/tests.py:597-613 | the test's second, explicit recalculation for the same reading leaves the same rows |
| Scenarios.LegacyDropsOtherMeterRow | home_dashboard/utilities/models.py:65-67 | another meter's August row survives logic.py's recalculation and is deleted by the older one |
| Scenarios.WinterWindow | home_dashboard/utilities/logic.py:18-26 | saving 2019-02-01 after 2018-11-01 gives the window November 2018 to February 2019 |
| Scenarios.NovemberHasUsage | home_dashboard/utilities/logic.py:48-60 | November 2018 has all four brackets |
| Scenarios.WinterBoxIsEmpty | home_dashboard/utilities/logic.py:29-30 | the box of months 11 to 2 holds no month, so either box cleanup deletes nothing |
| Scenarios.WinterFirstRunCompletes | home_dashboard/utilities/logic.py:35-73 | on an empty table the first recalculation runs to the end |
| Scenarios.WinterRerunRaises | home_dashboard/utilities/views.py:256-262 | after the first recalculation for the 2019-02-01 reading, a second one for the same reading, as adding it through the form (logic.py's again) or editing it (views.py:353-354, the older copy) runs, raises IntegrityError on exactly the November 2018 row the first run created |
| Scenarios.WinterRerunCorrected | home_dashboard/utilities/logic.py:28-32 | with the corrected cleanup, the second run leaves exactly the first run's rows |

## Left out

- The HTTP and UI layers are not modelled: views, forms, serializers, URLs, templates, permission checks and messages. Their code only parses requests and renders pages. Two of their sequences run the recalculation twice for the same reading, and both appear only as the scenario `Scenarios.WinterRerunRaises`. `add_reading` (views.py:256-262) calls `Reading.objects.create` and then `save()`; the post-save handler (signals.py:8-13) does not check `created`, so logic.py's recalculation runs twice (`again` = `ThisMeterBox`). `edit_reading` (views.py:353-354) saves, which runs logic.py's recalculation, and then calls the older one (`again` = `AllMetersBox`).
- The signal wiring is not modelled (apps.py:21, signals.py). `Store.Database.Recalculate` is the body the post-save signal runs. `reading_deleted` is never connected, so deleting a reading recalculates nothing. Deleting a reading, and the cascade of deleting a meter, are not modelled.
- Logging is left out.
- `Decimal` arithmetic is modelled with exact reals. The 28-digit context and the 2-decimal-places rounding of stored readings and usages are not modelled.
- Transactions, atomicity and concurrency are not modelled. An exception stops the loop, and the rows created before it stay in the table, as they do under autocommit.
- The database's order among readings with equal dates is not modelled. The uniqueness constraint rules such ties out, and `Logic.NearestIsTheExtremalReading` shows the answer is then unique.
- The `max_length` limits of the text fields and the blank checks are not modelled.
- Meter keys: the key a new meter gets is modelled as one more than the largest key in use. Any unused key would serve; the database's sequence is not modelled.
- `MeterError` and `ValueError` are result variants, not the exception classes of exceptions.py.
- The driver needs no error case for interpolation: `Logic.BracketsInterpolate` proves it cannot meet `MeterError` or `ValueError`.
- Store.Database.CreateUsage: takes the month's usage as a function parameter `usage`. `Store.Database.Recalculate` passes `Logic.UsageOf(readings, meter)`, which makes the four bracket queries and the two interpolations. In the source these are statements inside the loop body; here they are evaluated through `Logic.MonthUsage`. The same holds for `Store.Database.RecreateWindow`, `Store.Database.RecreateYear` and `Store.Database.RecreateMonth`.
- `update_usage_after_new_reading` at models.py:50-107 has no separate loop method. It is `Store.Database.Recalculate` with the `AllMetersBox` rule, because its text differs from logic.py's only in the cleanup filter.

## Findings

| source | as written | input that shows it | evidently intended | confidence | as-written member | corrected member |
|---|---|---|---|---|---|---|
| home_dashboard/utilities/logic.py:29-31 | the cleanup bounds `year` and `month` separately, so across a year boundary it misses months of the window that the loop re-creates | meter 1 with readings 2018-11-01 → 0 and 2019-02-01 → 92: saving the second creates rows for November, December and January. The box of months 11 to 2 is empty, so recalculating again for that reading finds the November row still there and raises IntegrityError. A plain add through the form reaches this: `add_reading` (views.py:256-262) calls `Reading.objects.create` and then `save()`, and the post-save handler (signals.py:8-13) runs logic.py's recalculation on both. Editing the reading (views.py:353-354) reaches it too | delete the meter's rows of exactly the months from (yearBefore, monthBefore) to (yearAfter, monthAfter) in calendar order, so a recalculation can be repeated | high (not executed) | Recalc.RerunCollides, Recalc.CoversWindowIff, Scenarios.WinterRerunRaises | Store.Database.CorrectedUpdateUsageAfterNewReading, Recalc.RerunIsIdempotent, Scenarios.WinterRerunCorrected |
| home_dashboard/utilities/models.py:65-67 | the older cleanup has no meter filter, so it deletes the rows of every meter in the box and re-creates only the triggering meter's | meter 2 has a row for August 2018 (3.0); with the older recalculation, saving meter 1's reading 2018-09-01 after 2018-07-01 deletes that row for good | filter the cleanup by the reading's meter, as logic.py:31 does | high (not executed) | Recalc.LegacyDropsOtherMeters, Scenarios.LegacyDropsOtherMeterRow | Recalc.OtherMetersUntouched, Store.Database.UpdateUsageAfterNewReading |
