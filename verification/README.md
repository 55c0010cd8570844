# Bus-plan feasibility pipeline, modelled in Dafny

The scripts of this repository check whether a day's electric-bus plan can be driven. A plan is a
sheet of rows, each giving a bus, an activity, a clock start and end, and an energy consumption in kWh.
The scripts run these stages:

- **Time normalisation.** Clock times become seconds since midnight. A trip that ends past
  midnight gets a day added to its end. A trip that starts in the night window [00:00, 02:00) is
  moved to the next day. A display shift then puts the chart's day at 04:00.
- **Gap filling.** Per bus, in start order, an `idle` row is put into every positive gap
  between a row's start and the previous row's end. Idle energy is charged at 5 kW.
- **Overlap detection.** Per bus, every pair of rows whose clock intervals meet under the
  half-open test is reported, with the bus in front.
- **Battery simulation.** Each bus starts at 90 % of 255 kWh (229.5 kWh). It must stay at or
  above 10 % (25.5 kWh). The copies differ in where the check sits relative to the
  subtraction, and in whether the loop stops at the first violation.
- **Charging insertion.** `make_feasible_busplan` puts a charging stop before every trip that
  would leave the battery under the minimum.
- **Timetable comparison.** Every service trip's start must be a departure of the timetable.

The same stages occur in several near-duplicate scripts, and their differences are kept. Each
script has its own module. The shared stages live in these modules:

- `Schedule`: rows, clock times, sorting by start, grouping by bus.
- `TimeNormalisation`: the wrap, the night shift, the bus order and the display shift.
- `GapFilling`: the gap loop and idle energy.
- `Overlaps`: the pairwise check.
- `Battery`: the battery loops as functions, one per check placement, with lemmas relating them.

Loops in the scripts are Dafny methods with loop invariants. Each method is proved equal to a
recursive function, and the properties are proved as lemmas about those functions.

Times are `int` seconds. Energies are `real` kWh. A clock column that pandas leaves empty (NaT)
is `None`. `Event.index` is the pandas index label that the messages report.

Notes on the scripts' behaviour:

- The overlap test compares the `start time`/`end time` clock columns, not the normalised
  seconds. Inserted idle rows have no clock times and therefore never overlap anything.
- A trip from 01:00 to 01:30 becomes seconds 90000 to 91800 (3600 + 86400).
- combined3 and TestGantt2 do not drop rows of zero or negative length.
- combined8's Timetable_comparison prints, next to each unlisted trip, the departure at the same position of the sorted timetable. A position at or past the timetable's length raises IndexError. `main` calls it before Energy_Checker, so the energy check then never runs.
- Filled rows meet end to start only when the bus's rows do not overlap (`GapFilling.FillContiguous`).
- `make_feasible_busplan` never moves a row to resolve an overlap its charging stop creates.
- The comments in the scripts give the maximum as 239.5 kWh. The code computes 229.5 kWh.

## Model

| member | source | states |
|---|---|---|
| Schedule.ClockSeconds | combined8.py:52-53 | seconds since midnight of a valid clock time lie in [0, 86400) |
| Schedule.ClockRoundTrip | combined8.py:52-53 | converting a clock time to seconds and back gives the same clock time |
| Schedule.SecondsRoundTrip | combined8.py:52-53 | every second of the day is the seconds value of exactly the clock time ClockOf gives |
| Schedule.FromRow | imporvedbusplan.py:18-23 | without wrap or night shift, raw start and end seconds are in [0, 86400) and agree with the clock columns |
| Schedule.RawTable | imporvedbusplan.py:14-27 | the sheet as read: one event per row, labelled 0, 1, 2, ..., same bus |
| Schedule.Relabel | combined8.py:93 | building a frame from the row list renumbers rows 0, 1, 2, ... and changes nothing else |
| Schedule.InsertByStart | combined8.py:76 | inserting a row into a start-sorted list adds exactly that row |
| Schedule.InsertKeepsSorted | combined8.py:76 | insertion keeps a list sorted by start |
| Schedule.SortByStart | combined8.py:76 | sort_values("start_seconds") returns a start-ordered permutation of the rows |
| Schedule.SortSorted | combined8.py:76 | sorting rows already in start order changes nothing |
| Schedule.OfBus | GanttChartForTransdev.py:130 | selecting a bus keeps exactly the rows of that bus, in table order, each as often as it occurs in the table; it is the mask selection `df[df.bus == b]` |
| Schedule.InsertKey | combined8.py:75 | adding a key to an ascending key list keeps it strictly ascending and adds only that key |
| Schedule.BusKeys | combined8.py:75 | the groupby keys are strictly ascending and are exactly the buses of the table |
| Schedule.SameBusesSameKeys | combined8.py:116 | the group keys depend only on the bus column, not on the times the night shift changes |
| Schedule.GroupsIn | combined8.py:168 | grouping in a given key order yields one group per key, holding exactly that bus's rows |
| Schedule.GroupByBus | combined8.py:75 | groupby("bus") yields non-empty groups in ascending bus order, each with exactly the rows of its bus, covering every row |
| TimeNormalisation.WrapMidnight | combined8.py:55 | the end gets a day added exactly when it is before the start, so start <= end < start + 86400 |
| TimeNormalisation.NightShift | combined8.py:57-59 | the shift is 86400 exactly when the start is in [0, 7200), otherwise 0 |
| TimeNormalisation.Normalise | combined8.py:52-59 | a normalised row starts in [7200, 93600), does not end before it starts, keeps its length modulo a day, and keeps its label, bus, activity, clock times, energy and start and end locations |
| TimeNormalisation.ReadAndChangeData | combined8.py:31-61 | read_and_change_data normalises every row in place, one for one |
| TimeNormalisation.NormalisedOnOperatingDay | combined8.py:52-59 | every normalised row lies on the operating day [02:00, 26:00) with end >= start |
| TimeNormalisation.MidnightExample | combined8.py:55 | 23:30 to 00:15 becomes 84600 to 87300 |
| TimeNormalisation.NightExample | combined8.py:57-59 | 01:00 to 01:30 becomes 90000 to 91800 |
| TimeNormalisation.ShiftNightRow | combined8.py:112-114 | the second night shift keeps a row's length and changes the row exactly when its start is in [0, 7200) |
| TimeNormalisation.ShiftNightRides | combined8.py:112-114 | the second night shift is applied row by row |
| TimeNormalisation.SecondShiftIsIdentity | combined8.py:112-114 | on a table whose starts are all at 02:00 or later the second shift changes nothing |
| TimeNormalisation.MaxEnd | combined8.py:116 | the per-bus maximum end is the end of one of its rows and bounds all of them |
| TimeNormalisation.KeysWhere | combined8.py:117-118 | keeps exactly the keys with the requested night flag, in their given order, so ascending keys stay ascending |
| TimeNormalisation.PartitionPermutes | combined8.py:116-119 | day buses followed by night buses are a permutation of the keys |
| TimeNormalisation.DayBeforeNight | combined8.py:119 | in day-then-night order no night bus comes before a day bus |
| TimeNormalisation.BusOrder | combined8.py:116-120 | the categorical order lists every bus once: the buses ending by 24:00 in ascending order, then those ending later in ascending order |
| TimeNormalisation.DayNightAscending | combined8.py:116-119 | an ascending day list followed by an ascending night list orders any two buses of the same kind ascending |
| TimeNormalisation.DisplayShift | combined8.py:122-125 | the display value is x - 14400, plus 86400 exactly when that is negative, and unchanged otherwise |
| TimeNormalisation.DisplayUnshift | combined8.py:122-125 | the inverse of the display shift maps [0, 86400) back onto the operating day |
| TimeNormalisation.DisplayShiftRoundTrip | combined8.py:122-125 | on the operating day the display shift lands in [0, 86400) and is undone by DisplayUnshift |
| TimeNormalisation.DisplaySpanning | TestGantt2.py:85-88 | a row spanning 04:00 is displayed with its end before its start; any other row keeps its length |
| TimeNormalisation.ChangeOperationalDay | TestGantt2.py:83-90 | change_operational_day keeps every row and gives it start_shifted and end_shifted, the display shift of its own start and end; on the operating day the start is in [0, 86400) and recoverable |
| TimeNormalisation.DisplayedSpanning | TestGantt2.py:85-88 | a displayed row shows its end before its start exactly when it spans 04:00; otherwise its displayed length is its length |
| TimeNormalisation.ShownSpanning | TestGantt2.py:83-90 | in change_operational_day's table, end_shifted < start_shifted exactly for the rows spanning 04:00 |
| TimeNormalisation.NightRidesNextDay | combined8.py:106-127 | night_rides_next_day re-applies the night shift to each row, orders buses as BusOrder of the shifted table (day first, each kind ascending) and gives each row start_shifted and end_shifted from its own start and end; on the operating day it moves no row |
| TimeNormalisation.NightRidesSpanning | combined8.py:122-125 | in night_rides_next_day's table, end_shifted < start_shifted exactly for the rows spanning 04:00 |
| TimeNormalisation.NightRidesKeepOperatingDay | combined8.py:112-125 | after normalisation night_rides_next_day leaves every row where it was and displays it within 24 hours of 04:00 |
| GapFilling.FillGaps | combined8.py:75-91 | the two loops append exactly the rows of FillGroupsFrom |
| GapFilling.FillBusRows | combined8.py:77-91 | the inner loop appends exactly FillBus: each row, preceded by an idle row over a positive gap |
| GapFilling.StepRows | combined8.py:82-91 | a row is preceded by one idle row [prev_end, start] of this bus, with no clock times, exactly when start > prev_end; otherwise it is appended alone |
| GapFilling.FillCount | combined8.py:82-91 | one idle row per positive gap and nothing else is added |
| GapFilling.FillKeepsRows | combined8.py:75-91 | removing the idle rows gives back the bus's rows in order |
| GapFilling.FillAddsOnlyIdle | combined8.py:82-88 | every appended row is an original row or an idle row of that bus with positive length |
| GapFilling.FillContiguous | combined8.py:82-91 | for rows that do not overlap, the filled rows meet end to start and keep the first and last row |
| GapFilling.FillSpan | combined8.py:82-91 | for rows that do not overlap, the filled lengths add up to the span from first start to last end |
| GapFilling.FillOnOperatingDay | combined8.py:82-91 | filling keeps every row on the operating day |
| GapFilling.FillGroupsOnOperatingDay | combined8.py:75-91 | filling all groups keeps every row on the operating day |
| GapFilling.TableFillOnOperatingDay | combined8.py:75-93 | filling a normalised table keeps every row on the operating day |
| GapFilling.FillContainsRows | combined8.py:90 | every row of a bus is among its filled rows |
| GapFilling.FillGroupsSound | combined8.py:75-91 | every filled row is a row of some group or an added idle row |
| GapFilling.FillGroupsComplete | combined8.py:75-91 | every row of every group is among the filled rows |
| GapFilling.GroupedRowsAreTable | combined8.py:75 | the rows of the groups are exactly the rows of the table, each as often as it occurs there |
| GapFilling.AllRowsCount | combined8.py:75 | groups holding each bus's selection contain every row of a bus with a group as often as the table does, and no other row |
| GapFilling.AllRowsAreTable | combined8.py:75 | groups of distinct buses, each counting its bus's rows as the table does and together covering every bus, hold the table's rows with the same multiplicities |
| GapFilling.UnlabelledRows | combined8.py:93 | rows compared without their index label, one for one |
| GapFilling.FillTable | combined8.py:74-93 | the filled frame is relabelled 0, 1, ..., keeps every row and adds only idle rows |
| Schedule.Where | combined8.py:94 | a boolean-mask selection keeps the rows the mask accepts, in table order, each as often as it occurs in the table |
| Schedule.SelectionIsWhere | combined8.py:94 | any order-keeping selection with those counts is exactly Where: the mask result is unique |
| Schedule.SubsequenceSorted | combined8.py:206-212 | an order-keeping selection from a start-sorted table is start-sorted |
| Schedule.WhereAll | combined8.py:94 | a mask that every row satisfies keeps the table unchanged |
| GapFilling.KeepPositive | combined8.py:94 | the end > start filter keeps the rows of positive length, in order, each as often as it occurs, and drops the rest |
| GapFilling.FilterKeepsFilledBus | combined8.py:94 | filling rows of positive length produces nothing the filter removes |
| GapFilling.IdleEnergy | combined8.py:99-102 | idle energy is (end - start) / 3600 * 5 kWh, non-negative for a non-negative length |
| GapFilling.SetIdleEnergy | combined8.py:99-102 | every idle row gets 5 kW times its length, and every other row is left as it was |
| GapFilling.SetIdleFacts | combined8.py:99-102 | setting idle energy keeps and adds no non-idle row, and keeps positive length and the operating day |
| Overlaps.Data | combined8.py:157-164 | the tuple carries the row's index label and its clock times |
| Overlaps.HitsWithBounds | combined8.py:151-155 | the inner loop reports (i, j) for exactly the later rows j that overlap row i, in ascending j |
| Overlaps.HitsExact | combined8.py:150-155 | a pair (a, b) is reported iff a < b and s_a < e_b and s_b < e_a |
| Overlaps.HitsOrdered | combined8.py:150-164 | reports come ordered by first row, then by second row, each pair once |
| Overlaps.Overlaps | combined8.py:140-165 | check_overlaps returns the tuples of the reported pairs, in order |
| Overlaps.NoOverlapsIffEmpty | combined8.py:150-165 | a bus has no overlapping pair exactly when check_overlaps returns nothing |
| Overlaps.CheckOverlaps | combined8.py:146-165 | the nested i/j loops append exactly the tuples of Overlaps |
| Overlaps.OverlapChecker | combined8.py:167-175 | the outer loop collects every group's tuples with its bus in front, groups in groupby order |
| Overlaps.NoFleetOverlaps | combined8.py:167-175 | the result list is empty exactly when no bus has two overlapping rows |
| Overlaps.FleetRecordsSound | combined8.py:167-175 | every record names its bus and two rows of that bus, the first before the second, that overlap |
| Overlaps.CategoricalGroupsCover | combined4.py:155 | grouping in the categorical day-then-night order still puts every row into its bus's group |
| Battery.EnergyVariables | Project5EnergyMeerdereBussen.py:4-17 | set_energy_variables returns (25.5, 229.5), 80 % of the capacity apart |
| Battery.PreCheckFrom | combined4.py:181-193 | the check-before-subtract loop stops within the rows, and is feasible iff it reaches the end |
| Battery.PreCheckFacts | combined4.py:184-193 | pre-check loop: processed rows stay at or above 25.5; it counts their positive energy; it stops only before a row that would go under |
| Battery.PreCheckVerdict | combined4.py:184-187 | the pre-check passes iff the level after every prefix is at least 25.5; otherwise it stops at the first prefix that is not |
| Battery.PreCheckKeepsMinimum | combined4.py:184-193 | the level after the processed rows is at least 25.5, and the counted energy is their positive sum |
| Battery.PostCheckFrom | pipodeclown.py:93-105 | the subtract-then-check loop stops within the rows, and is feasible iff it reaches the end |
| Battery.PostAgreesWithPre | Project5MeerdereBussen.py:18-25 | post-check and pre-check stop at the same row; when they stop early, the post-check has also counted and subtracted that row |
| Battery.PostCheckVerdict | pipodeclown.py:93-105 | the post-check passes iff every prefix stays at or above 25.5; otherwise its counts include the failing row and the level is under 25.5 |
| Battery.NoBreakFacts | combined8.py:257-272 | the loop without break still subtracts and counts every row; its flag is cleared iff the pre-check would have failed |
| Battery.NoBreakVerdict | combined8.py:257-272 | the no-break verdict equals the break verdict; used energy is the positive sum of all rows; charge time is never positive |
| Battery.NegativeChargeTime | combined8.py:269-270 | as written, one charging row of -450 kWh is tallied as -1 hour of charge time |
| Battery.ChargeHoursFrom | combined8.py:269-270 | corrected charge time, |e| / 450 per non-positive row, is never negative |
| Battery.ChargeHoursCorrected | combined8.py:269-270 | the corrected charge time is exactly the tallied one with its sign flipped |
| Battery.ChargeHoursOfOneCharge | combined8.py:269-270 | corrected, one charging row of -450 kWh is 1 hour of charging |
| Battery.PreCheckMeaning | combined4.py:181-193 | pre-check: feasible iff StaysAboveMinimum; otherwise it stops at the first failure with the failing row neither counted nor subtracted |
| Battery.PostCheckMeaning | pipodeclown.py:93-105 | post-check: feasible iff StaysAboveMinimum; otherwise it stops at the first failure, with that row counted and a level under 25.5 |
| Battery.PreVerdict | Project5EnergyMeerdereBussen.py:32-60 | a bus's pre-check verdict: feasible iff it stays above the minimum; otherwise the route is the failing row's label + 1 and the total excludes that row |
| Battery.PostVerdict | pipodeclown.py:88-111 | a bus's post-check verdict: the same feasibility and route, with the failing row's energy counted |
| Battery.PreAndPostVerdictsAgree | Project5MeerdereBussen.py:18-29 | the two verdicts agree on feasibility and route; a feasible bus has the same total and level in both; a bus failing first at row i has post total = pre total + the positive part of e_i and post level = pre level - e_i |
| Battery.TotalNonNegative | pipodeclown.py:107 | a fleet total of non-negative bus totals is non-negative |
| Battery.TotalAtLeastEach | pipodeclown.py:107 | a fleet total of non-negative bus totals is at least each bus's total |
| Combined8.DropZeroDuration | combined8.py:72 | rows whose clock start equals their clock end are dropped; all others are kept in order, each as often as it occurs |
| Combined8.ReplaceEmptyGapsWithIdle | combined8.py:63-104 | result rows all have positive length and idle energy 5 kW x hours; non-idle rows are exactly the kept originals of positive length |
| Combined8.ChangeData | combined8.py:129-133 | change_data is the filled table, with every bus in the bus order and every row displayed within 24 hours of 04:00 |
| Combined8.IdleHoursNonNegative | combined8.py:263-265 | idle rows of positive length give a non-negative idle time |
| Combined8.BusTallyFacts | combined8.py:249-282 | one bus: infeasible iff some row leaves the level under the minimum, the same verdict as the stopping check-before-subtract loop; used is the energy of every positive row; the level is what all rows leave; charge time <= 0 |
| Combined8.TallyRows | combined8.py:257-270 | the loop without break leaves the verdict, used energy, charge time and level at NoBreak of the bus's energies, the idle time at the sum of its idle rows' hours, and the label of the last row |
| Combined8.CheckBus | combined8.py:257-272 | the loop and its message compute exactly BusTallyOf |
| Combined8.CheckGroups | combined8.py:249-287 | one tally per bus in order, the three fleet totals, and the last bus id |
| Combined8.EnergyChecker | combined8.py:243-287 | Energy_Checker over the buses in ascending order |
| Combined8.TotalChargeNonPositive | combined8.py:275 | the fleet's total charge time is never positive |
| Combined8.ClockKeyed | combined8.py:196-199 | the sort key is the clock start in seconds |
| Combined8.ServiceTripsByClock | combined8.py:206-212 | the compared rows are exactly the service trips, each as often as it occurs in the table, sorted by clock start |
| Combined8.CorrespondsMeansEveryServiceTrip | combined8.py:212-213 | the plan corresponds iff every service trip's start is a departure of the timetable |
| Combined8.MismatchesExact | combined8.py:220-222 | exactly the positions of unlisted service trips are reported, ascending |
| Combined8.MismatchRows | combined8.py:220-222 | the printing loop reports the unlisted positions in order and raises IndexError at the first one at or past the timetable length, exactly as ReportFrom |
| Combined8.ReportMeaning | combined8.py:220-222 | the loop prints the unlisted positions below the timetable length, a prefix of all of them; it raises IndexError iff some unlisted position is at or past that length; without the error it prints them all |
| Combined8.TimetableIndexError | combined8.py:220-222 | three service trips, two departures, the third trip unlisted: the loop raises IndexError and prints nothing |
| Combined8.MismatchesIffUnlisted | combined8.py:213-222 | there is a position to report iff some service trip is unlisted |
| Combined8.TimetableComparison | combined8.py:177-222 | the corresponding message appears iff every service trip is listed; otherwise the unlisted rows below the timetable length are printed, IndexError is raised iff some unlisted row is at or past it, and without the error every unlisted row is printed, at least one |
| Combined4.ReplaceEmptyGapsWithIdle | combined4.py:46-89 | no zero-duration pre-drop; result rows have positive length and idle energy 5 kW x hours; non-idle rows are the originals of positive length |
| Combined4.ChangeData | combined4.py:114-120 | change_data is the filled table, every bus in the bus order, every row displayed within 24 hours of 04:00 |
| Combined4.CheckBus | combined4.py:176-193 | the check-before-subtract loop with break computes exactly PreVerdict |
| Combined4.CheckGroups | combined4.py:176-197 | one PreVerdict per bus, and the fleet total is the sum of the bus totals |
| Combined4.EnergyChecker | combined4.py:165-205 | Energy_Checker over the buses in ascending order |
| Combined4.TotalUsedNonNegative | combined4.py:190-197 | the fleet total is never negative |
| Combined3.ChangeData | combined3.py:51-100 | unfiltered pipeline: keeps every normalised row, adds only idle rows without clock times, and displays all within 24 hours of 04:00 |
| Combined3.RowEnergy | combined3.py:163-170 | non-idle rows keep their energy; idle rows get 5 kW over their clock span, or NaN without clock times |
| Combined3.DoubleCheckFrom | combined3.py:162-181 | the double-subtraction loop stops within the rows, and is feasible iff it reaches the end |
| Combined3.NanLevelNeverFails | combined3.py:175-178 | once the level is NaN no later row can fail the test, so the bus is reported feasible |
| Combined3.DoubleCheckFacts | combined3.py:172-181 | rows before the stop pass level_after - e >= 25.5; the counts and level include the stopping row |
| Combined3.DoubleCheckMeaning | combined3.py:175-181 | with known energies the loop passes iff every row passes the double test |
| Combined3.DoubleTestImpliesStaysAbove | combined3.py:175-178 | the double test is stricter than staying at or above 25.5 |
| Combined3.DoubleSubtractionRejectsFeasibleBus | combined3.py:175-178 | a bus with one 110 kWh row stays at 119.5 kWh yet is rejected |
| Combined3.CorrectedCheckFrom | combined3.py:172-181 | the corrected loop stops within the rows, and is feasible iff it reaches the end |
| Combined3.CorrectedIsPostCheck | combined3.py:172-181 | with known energies the corrected loop is exactly the post-check of pipodeclown |
| Combined3.CorrectedMeaning | combined3.py:172-181 | the corrected loop passes exactly the buses that stay above the minimum |
| Combined3.DoubleVerdict | combined3.py:157-191 | a bus's verdict: total non-negative; when infeasible the route names a row with a known energy; with every energy known, feasible iff every row passes the double test, otherwise the route is the label + 1 of the first row that fails it, with counts up to that row |
| Combined3.KnownEnergies | combined3.py:163-170 | with every energy known, the energies are exactly the rows' energies |
| Combined3.KnownVerdict | combined3.py:157-181 | with every energy known, the loop's verdict is the double test and its stopping row is the first row that fails it |
| Combined3.CheckBus | combined3.py:157-181 | the inner loop computes exactly DoubleVerdict |
| Combined3.CheckGroups | combined3.py:155-187 | one verdict per bus in order, and the fleet total |
| Combined3.EnergyChecker | combined3.py:149-195 | Energy_Checker on a table with a plain bus column, grouped in ascending bus order. `main` passes the null mask, not ChangeData's categorical frame, so groupby sorts the bus values |
| GanttChart.ReplaceEmptyGapsWithIdle | GanttChartForTransdev.py:26-56 | rows left have positive length; each is an original or an added idle row; every original of positive length is kept |
| GanttChart.ChartTable | GanttChartForTransdev.py:139-143 | the chart table moves no row, orders every bus, and displays every row within 24 hours of 04:00 |
| GanttChart.LineOf | GanttChartForTransdev.py:132-136 | a printed line carries the row's number, activity, start and end, and its length in minutes |
| GanttChart.NumberLines | GanttChartForTransdev.py:132-136 | the loop prints one line per row, numbered from 1 |
| GanttChart.PrintRoutesForBus | GanttChartForTransdev.py:129-136 | line k is LineOf(k + 1, row k) of the bus's rows sorted by start; those rows are a start-sorted permutation of the bus's rows of the table |
| TestGantt2.NightRidesNextDay | TestGantt2.py:57-70 | re-applies the night shift to every row, keeping its length, and orders buses as BusOrder (day first, each kind ascending); the second parameter is unused; on the operating day no row moves |
| TestGantt2.ChartTable | TestGantt2.py:136-143 | main skips night_rides_next_day; every row is displayed in [0, 86400); rows are exactly the normalised rows plus idle rows |
| Pipodeclown.OverlapReport | pipodeclown.py:56-76 | the records of every bus, and the no-overlaps message iff no bus has two overlapping rows |
| Pipodeclown.OverlapChecker | pipodeclown.py:22-76 | Overlap_Checker on the sheet, buses ascending |
| Pipodeclown.CheckBus | pipodeclown.py:93-105 | the count, subtract, then check loop computes exactly PostVerdict |
| Pipodeclown.CheckGroups | Project5MeerdereBussen.py:12-35 | one PostVerdict per bus, and the fleet total of the bus totals |
| Pipodeclown.EnergyChecker | pipodeclown.py:80-115 | Energy_Checker on the sheet, buses ascending |
| Pipodeclown.FleetTotalBoundsEachBus | pipodeclown.py:96-111 | the feasible message appears iff the bus stays above the minimum; the fleet total is non-negative and at least the energy counted for each bus, failing buses included |
| Project5EnergyMeerdereBussen.CheckRoutes | Project5EnergyMeerdereBussen.py:32-51 | the check-before-subtract loop with break computes exactly PreVerdict |
| Project5EnergyMeerdereBussen.CheckFeasiblePerRoute | Project5EnergyMeerdereBussen.py:20-62 | one PreVerdict per bus, and the returned total is the sum of the bus totals |
| Project5EnergyMeerdereBussen.PreTotalAtMostPostTotal | Project5EnergyMeerdereBussen.py:50-56 | the returned total never exceeds the post-check total on the same buses |
| Battery.PreUsedAtMostPostUsed | Project5EnergyMeerdereBussen.py:32-51 | for one bus, checking before subtracting never counts more energy than subtracting and then checking |
| Project5Energy.SingleBattery | Project5Energy.py:9-32 | one battery over the whole sheet: feasible iff it stays above the minimum; otherwise the route is the failing position + 1, with counts and level up to and including it |
| FeasibleBusplan.ChargeSeconds | imporvedbusplan.py:54-56 | the charge lasts at least 900 s and refills at least max - battery; it is 900 s or exactly the refill time |
| FeasibleBusplan.GapRowsFacts | imporvedbusplan.py:37-49 | an idle row [prev_end, start] at EHVBST with energy 5 kW x hours is added iff start > prev_end; its energy is positive |
| FeasibleBusplan.ChargeRowFacts | imporvedbusplan.py:54-69 | a charging row at EHVGAR lasts ChargeSeconds and records at least max - battery and 112.5 kWh; it starts at a non-zero prev_end, else ends at the trip start |
| FeasibleBusplan.StageKeepsPromise | imporvedbusplan.py:36-81 | one trip's rows: at most one idle row (at EHVBST) and one charging row (at EHVGAR), the latter added iff battery - e < min; the battery is reset to max, so the trip leaves at least min iff e <= max - min |
| FeasibleBusplan.StagesChain | imporvedbusplan.py:71-81 | each trip's stage starts from the previous trip's end and the level it left |
| FeasibleBusplan.StagesKeepPromise | imporvedbusplan.py:32-81 | every stage keeps its trip in order and keeps the stage promise; idle drain links consecutive levels; an idle row is added iff the gap is positive |
| FeasibleBusplan.RepairBus | imporvedbusplan.py:29-81 | the per-bus loop appends exactly the rows of RepairedRows |
| FeasibleBusplan.RepairRow | imporvedbusplan.py:36-81 | one pass of the loop body appends the row's idle gap, its charging stop and the trip, in that order, and leaves the battery at the level the row's stage says |
| FeasibleBusplan.RepairFleet | imporvedbusplan.py:27-81 | the loop over the buses appends each bus's repaired rows in turn |
| FeasibleBusplan.MakeFeasibleBusplan | imporvedbusplan.py:4-84 | the new plan of the sheet, buses ascending |
| FeasibleBusplan.RepairKeepsTrips | imporvedbusplan.py:74-81 | the original rows appear in the plan once each, in order |
| FeasibleBusplan.BusPlanTrips | imporvedbusplan.py:27-81 | a bus's plan holds exactly its rows, sorted by start |
| FeasibleBusplan.NoChargeIff | imporvedbusplan.py:52-53 | no charging row is added iff the check never fires along the bus |
| FeasibleBusplan.NoChargeMeansIdleOnly | imporvedbusplan.py:36-81 | if the check never fires, the plan is the original rows with only the idle rows added |
| FeasibleBusplan.ChargeStartsWithIdle | imporvedbusplan.py:37-59 | with an idle row and a charging row before the same trip, the charge starts where the idle row starts, so they overlap |

## Left out

- Reading and writing Excel files is not modelled; nor are `input()`, the printed messages, Gantt plotting, the missing-data mask report or the Streamlit front ends. The checkers return structured verdicts instead of messages.
- Date parsing and `strftime` formatting are not modelled. Clock times are (hour, minute, second) triples, and a missing clock value is `None`.
- Floating point is not modelled. Energies are exact reals, so rounding in totals and messages is not captured.
- Pandas sorting is modelled as a stable sort by start. `sort_values` is not stable by default, so the order of rows with equal starts is not captured. The re-sort by bus in `Energy_Checker` is modelled as grouping rows in table order.
- In-place mutation of the caller's frame, in combined4 and in `night_rides_next_day`, is modelled as a returned value. Aliasing between the frames is not captured.
- Pandas dtypes are not modelled: the categorical dtype, `astype(int)`, and the NaN that missing energies and idle rows carry. Inserted idle rows get energy 0.0 before combined8 and combined4 overwrite it; in GanttChartForTransdev and TestGantt2 the value is never read.
- Combined3: `main` hands the missing-data mask, not a table, to the checkers. The model runs `Overlap_Checker` and `Energy_Checker` on a table.
- Combined8.CheckGroups: the last bus id is `None` for an empty table, where the script would fail on an undefined name.
- Timetable_comparison: the timetable's departure times are a parameter, one per timetable row in sorted order. The parse of `Timetable.xlsx` and the printed departure values are not modelled. The IndexError is the flag TimetableComparison returns; combined8's `main`, which it would stop, is not modelled as a method.
- pipodeclown: the module-level call with an undefined `df` and the `main` nested inside `Energy_Checker` are not modelled. The checkers take the sheet as a parameter.
- Project5EnergyMeerdereBussen.CheckRoutes: requires the levels from `set_energy_variables`, the only ones the script passes. Other levels are not modelled.
- FeasibleBusplan.MakeFeasibleBusplan: the output formatting is not modelled. That covers converting times back to strings, filling missing original columns with NaN, and column order.
- FeasibleBusplan: after a charge the script sets `prev_end` to the charge end, and the trip then overwrites it. The model keeps only the trip end, which is all that is read.
- FeasibleBusplan: charging rows carry real-valued times. The script's timedelta rounding of fractional seconds is not modelled.

## Findings

| source | as written | input that shows it | evidently intended | confidence | as-written member | corrected member |
|---|---|---|---|---|---|---|
| combined3.py:175-178 | the level is decremented, then tested as `level - e < min`, so each row's energy is taken twice in the test | a bus with one row of 110 kWh: the level after it is 119.5 kWh, but the test sees 9.5 kWh and reports the bus infeasible | test the level after one subtraction, as pipodeclown does | not executed | Combined3.DoubleSubtractionRejectsFeasibleBus | Combined3.CorrectedMeaning |
| combined8.py:270 | charge time adds `e / 450` for a non-positive energy, so charging counts as negative hours | one charging row of -450 kWh gives a charge time of -1.0 h | add `-e / 450`, one hour per 450 kWh charged | not executed | Battery.NegativeChargeTime | Battery.ChargeHoursCorrected |
