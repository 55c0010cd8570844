/** combined8: change_data (zero-length rows dropped before the gaps are filled, idle energy
    set afterwards), Energy_Checker (no break, charge and idle time tallied) and the membership
    rule of Timetable_comparison. Its Overlap_Checker is Overlaps.OverlapChecker. */
module Combined8 {
  import opened Schedule
  import opened TimeNormalisation
  import opened GapFilling
  import opened Battery

  /** The row's clock start differs from its clock end. */
  predicate NonZeroClock(e: Event) {
    e.startTime != e.endTime
  }

  /** df[df['start time'] != df['end time']] */
  function DropZeroDuration(t: seq<Event>): (r: seq<Event>)
    ensures forall e :: e in r <==> e in t && e.startTime != e.endTime
    ensures Selects(r, t, NonZeroClock)
  {
    Where(t, NonZeroClock)
  }

  /** A row that is not idle after the four steps of replace_empty_gaps_with_idle is a row of
      the table with distinct clock start and end. */
  lemma ReplaceSound(t: seq<Event>, kept: seq<Event>, filled: seq<Event>, positive: seq<Event>, r: seq<Event>)
    requires forall e :: e in kept ==> e in t && e.startTime != e.endTime
    requires forall e :: e in filled ==> Unlabelled(e) in UnlabelledRows(kept) || AddedIdle(e)
    requires forall e :: e in positive ==> e in filled
    requires forall e :: e in r && e.activity != Idle ==> e in positive
    ensures forall e :: e in r && e.activity != Idle ==>
              Unlabelled(e) in UnlabelledRows(t) && e.startTime != e.endTime
  {
    forall e | e in r && e.activity != Idle
      ensures Unlabelled(e) in UnlabelledRows(t) && e.startTime != e.endTime
    {
      assert e in filled;
      var j :| 0 <= j < |kept| && UnlabelledRows(kept)[j] == Unlabelled(e);
      assert kept[j] in kept;
      var m :| 0 <= m < |t| && t[m] == kept[j];
      assert UnlabelledRows(t)[m] == Unlabelled(e);
    }
  }

  /** A row of the table with distinct clock start and end, positive length and another
      activity than idle survives the four steps of replace_empty_gaps_with_idle. */
  lemma ReplaceComplete(t: seq<Event>, kept: seq<Event>, filled: seq<Event>, positive: seq<Event>, r: seq<Event>)
    requires forall o :: o in t && o.startTime != o.endTime ==> o in kept
    requires forall o :: o in kept ==> Unlabelled(o) in UnlabelledRows(filled)
    requires forall e :: e in filled && e.end > e.start ==> e in positive
    requires forall o :: o in positive && o.activity != Idle ==> o in r
    ensures forall o :: o in t && o.startTime != o.endTime && o.end > o.start && o.activity != Idle ==>
              Unlabelled(o) in UnlabelledRows(r)
  {
    forall o | o in t && o.startTime != o.endTime && o.end > o.start && o.activity != Idle
      ensures Unlabelled(o) in UnlabelledRows(r)
    {
      assert o in kept;
      var j :| 0 <= j < |filled| && UnlabelledRows(filled)[j] == Unlabelled(o);
      var f := filled[j];
      assert f in filled && f.end > f.start && f.activity != Idle;
      assert f in r;
      var i :| 0 <= i < |r| && r[i] == f;
      assert UnlabelledRows(r)[i] == Unlabelled(o);
    }
  }

  /** replace_empty_gaps_with_idle of combined8. Every row kept has positive length and every
      idle row, added or not, the energy of 5 kW over its length. The rows that are not idle
      are, up to their new index labels, the table's rows with distinct clock start and end;
      every such row of positive length that is not idle is kept. */
  function ReplaceEmptyGapsWithIdle(t: seq<Event>): (r: seq<Event>)
    ensures forall e :: e in r ==> e.end > e.start
    ensures forall i :: 0 <= i < |r| && r[i].activity == Idle ==>
              r[i].energy * 720.0 == (r[i].end - r[i].start) as real
    ensures forall e :: e in r && e.activity != Idle ==>
              Unlabelled(e) in UnlabelledRows(t) && e.startTime != e.endTime
    ensures forall o :: o in t && o.startTime != o.endTime && o.end > o.start && o.activity != Idle ==>
              Unlabelled(o) in UnlabelledRows(r)
    ensures (forall o :: o in t ==> OnOperatingDay(o)) ==> forall e :: e in r ==> OnOperatingDay(e)
  {
    ReplaceEnergy(t);
    ReplaceRows(t);
    SetIdleEnergy(KeepPositive(FillTable(DropZeroDuration(t))))
  }

  lemma ReplaceEnergy(t: seq<Event>)
    ensures var r := SetIdleEnergy(KeepPositive(FillTable(DropZeroDuration(t))));
            forall i :: 0 <= i < |r| && r[i].activity == Idle ==>
              r[i].energy * 720.0 == (r[i].end - r[i].start) as real
  {
    var s := KeepPositive(FillTable(DropZeroDuration(t)));
    var r := SetIdleEnergy(s);
    forall i | 0 <= i < |r| && r[i].activity == Idle
      ensures r[i].energy * 720.0 == (r[i].end - r[i].start) as real
    {
      assert r[i].(energy := s[i].energy) == s[i];
    }
  }

  lemma ReplaceRows(t: seq<Event>)
    ensures var r := SetIdleEnergy(KeepPositive(FillTable(DropZeroDuration(t))));
            (forall e :: e in r ==> e.end > e.start) &&
            (forall e :: e in r && e.activity != Idle ==>
               Unlabelled(e) in UnlabelledRows(t) && e.startTime != e.endTime) &&
            (forall o :: o in t && o.startTime != o.endTime && o.end > o.start && o.activity != Idle ==>
               Unlabelled(o) in UnlabelledRows(r)) &&
            ((forall o :: o in t ==> OnOperatingDay(o)) ==> forall e :: e in r ==> OnOperatingDay(e))
  {
    var kept := DropZeroDuration(t);
    var filled := FillTable(kept);
    var positive := KeepPositive(filled);
    SetIdleFacts(positive);
    ReplaceSound(t, kept, filled, positive, SetIdleEnergy(positive));
    ReplaceComplete(t, kept, filled, positive, SetIdleEnergy(positive));
  }

  /** change_data of combined8. The second night shift changes nothing, so the table
      night_rides_next_day returns holds exactly the rows the gap filling produced, each
      displayed within the 24 hours from 04:00. */
  function ChangeData(rows: seq<Row>): (a: Arranged)
    ensures var filled := ReplaceEmptyGapsWithIdle(ReadAndChangeData(rows));
            Rows(a) == filled &&
            multiset(a.busOrder) == multiset(BusKeys(filled)) &&
            forall i :: 0 <= i < |a.rows| ==> 0 <= a.rows[i].startShifted < Day
  {
    NormalisedOnOperatingDay(rows);
    NightRidesKeepOperatingDay(ReplaceEmptyGapsWithIdle(ReadAndChangeData(rows)));
    NightRidesNextDay(ReplaceEmptyGapsWithIdle(ReadAndChangeData(rows)))
  }

  // ---------------------------------------------------------------------------
  // Energy_Checker

  /** Idle time of rows[i..] in hours. */
  function IdleHoursFrom(rows: seq<Event>, i: nat): real
    requires i <= |rows|
    decreases |rows| - i
  {
    if i == |rows| then 0.0
    else (if rows[i].activity == Idle then (rows[i].end - rows[i].start) as real / 3600.0 else 0.0)
         + IdleHoursFrom(rows, i + 1)
  }

  /** Idle rows of positive length give a non-negative idle time. */
  lemma {:induction false} IdleHoursNonNegative(rows: seq<Event>, i: nat)
    requires i <= |rows|
    requires forall e :: e in rows ==> e.end > e.start
    ensures IdleHoursFrom(rows, i) >= 0.0
    decreases |rows| - i
  {
    if i < |rows| {
      assert rows[i] in rows;
      IdleHoursNonNegative(rows, i + 1);
    }
  }

  /** What Energy_Checker keeps for one bus. */
  datatype BusTally = BusTally(verdict: BusVerdict, chargeHours: real, idleHours: real)

  /** The tally of one bus. Every row is processed, so the energy counted is that of all its
      positive rows, and the message of an infeasible bus names the label of its LAST row plus
      one, whichever row failed. */
  function BusTallyOf(g: Group): BusTally
    requires g.rows != []
  {
    var n := NoBreak(Energies(g.rows));
    BusTally(BusVerdict(g.bus, n.feasible, n.used,
                        if n.feasible then None else Some(g.rows[|g.rows| - 1].index + 1), n.level),
             n.chargeHours, IdleHoursFrom(g.rows, 0))
  }

  /** What the tally of one bus means: infeasible exactly when some row, checked before it is
      subtracted, would take the level under the minimum (the verdict of the stopping loops);
      used is the energy of every positive row; the level is what all rows leave; the charge
      time is never positive. */
  lemma BusTallyFacts(g: Group)
    requires g.rows != []
    ensures BusTallyOf(g).verdict.feasible <==> StaysAboveMinimum(Energies(g.rows))
    ensures BusTallyOf(g).verdict.feasible <==> PreVerdict(g).feasible
    ensures BusTallyOf(g).verdict.used == PositiveSumRange(Energies(g.rows), 0, |g.rows|)
    ensures BusTallyOf(g).verdict.level == LevelAfter(Energies(g.rows), 0, |g.rows|, MaxLevel)
    ensures BusTallyOf(g).chargeHours <= 0.0
  {
    var es := Energies(g.rows);
    NoBreakVerdict(es);
    PreCheckMeaning(es);
  }

  /** The messages of Energy_Checker as data: one tally per bus in ascending bus order, the
      fleet totals and the bus named in "Amount of Buses used" (the last bus; None where the
      script would fail on a table without buses). */
  datatype EnergyReport = EnergyReport(buses: seq<BusTally>, totalUsed: real, totalChargeHours: real,
                                       totalIdleHours: real, lastBus: Option<int>)

  function UsedOfTallies(bs: seq<BusTally>): (xs: seq<real>)
    ensures |xs| == |bs| && forall k :: 0 <= k < |bs| ==> xs[k] == bs[k].verdict.used
  {
    seq(|bs|, k requires 0 <= k < |bs| => bs[k].verdict.used)
  }

  function ChargeOfTallies(bs: seq<BusTally>): (xs: seq<real>)
    ensures |xs| == |bs| && forall k :: 0 <= k < |bs| ==> xs[k] == bs[k].chargeHours
  {
    seq(|bs|, k requires 0 <= k < |bs| => bs[k].chargeHours)
  }

  function IdleOfTallies(bs: seq<BusTally>): (xs: seq<real>)
    ensures |xs| == |bs| && forall k :: 0 <= k < |bs| ==> xs[k] == bs[k].idleHours
  {
    seq(|bs|, k requires 0 <= k < |bs| => bs[k].idleHours)
  }

  /** The inner loop of Energy_Checker of combined8: each row of the bus, in table order, is
      checked before its energy is subtracted, and the loop never stops. It leaves the
      accumulators at NoBreak, the idle time at IdleHoursFrom and the label of the last row. */
  method TallyRows(rows: seq<Event>) returns (t: Tally, idle: real, routeIndex: int)
    requires rows != []
    ensures t == NoBreak(Energies(rows)) && idle == IdleHoursFrom(rows, 0)
    ensures routeIndex == rows[|rows| - 1].index
  {
    ghost var es := Energies(rows);
    var used, charge, level := 0.0, 0.0, MaxLevel;
    var feasible := true;
    idle := 0.0;
    routeIndex := 0;
    var i := 0;
    while i < |rows|
      invariant 0 <= i <= |rows|
      invariant NoBreakFrom(es, i, Tally(feasible, used, charge, level)) == NoBreak(es)
      invariant idle + IdleHoursFrom(rows, i) == IdleHoursFrom(rows, 0)
      invariant i > 0 ==> routeIndex == rows[i - 1].index
    {
      var e := rows[i].energy;
      ghost var before := Tally(feasible, used, charge, level);
      ghost var idle0 := idle;
      if level - e < MinLevel {
        feasible := false;
      }
      assert feasible == NoBreakStep(before, e).feasible;
      if rows[i].activity == Idle {
        idle := idle + (rows[i].end - rows[i].start) as real / 3600.0;
      }
      assert idle0 + IdleHoursFrom(rows, i) == idle + IdleHoursFrom(rows, i + 1);
      if e > 0.0 {
        used := used + e;
      } else {
        charge := charge + e / ChargeRate;
      }
      assert used == NoBreakStep(before, e).used && charge == NoBreakStep(before, e).chargeHours;
      level := level - e;
      assert Tally(feasible, used, charge, level) == NoBreakStep(before, es[i]);
      routeIndex := rows[i].index;
      i := i + 1;
    }
    t := Tally(feasible, used, charge, level);
  }

  /** One bus of Energy_Checker: the loop, then the message, which names the label of the
      last row plus one when the bus is infeasible. */
  method CheckBus(g: Group) returns (b: BusTally)
    requires g.rows != []
    ensures b == BusTallyOf(g)
  {
    var t, idle, routeIndex := TallyRows(g.rows);
    var route := if t.feasible then None else Some(routeIndex + 1);
    b := BusTally(BusVerdict(g.bus, t.feasible, t.used, route, t.level), t.chargeHours, idle);
  }

  /** The outer loop of Energy_Checker: one tally per group, in order, with the fleet totals. */
  method CheckGroups(groups: seq<Group>) returns (report: EnergyReport)
    requires forall k :: 0 <= k < |groups| ==> groups[k].rows != []
    ensures |report.buses| == |groups|
    ensures forall k :: 0 <= k < |groups| ==> report.buses[k] == BusTallyOf(groups[k])
    ensures report.totalUsed == Total(UsedOfTallies(report.buses))
    ensures report.totalChargeHours == Total(ChargeOfTallies(report.buses))
    ensures report.totalIdleHours == Total(IdleOfTallies(report.buses))
    ensures report.lastBus == if groups == [] then None else Some(groups[|groups| - 1].bus)
  {
    var buses: seq<BusTally> := [];
    var totalUsed, totalCharge, totalIdle := 0.0, 0.0, 0.0;
    var lastBus: Option<int> := None;
    var k := 0;
    while k < |groups|
      invariant 0 <= k <= |groups|
      invariant |buses| == k && forall m :: 0 <= m < k ==> buses[m] == BusTallyOf(groups[m])
      invariant totalUsed == Total(UsedOfTallies(buses))
      invariant totalCharge == Total(ChargeOfTallies(buses))
      invariant totalIdle == Total(IdleOfTallies(buses))
      invariant lastBus == if k == 0 then None else Some(groups[k - 1].bus)
    {
      var b := CheckBus(groups[k]);
      TallySnoc(buses, b);
      TalliesSnoc(groups, k, buses, b);
      buses := buses + [b];
      totalUsed := totalUsed + b.verdict.used;
      totalCharge := totalCharge + b.chargeHours;
      totalIdle := totalIdle + b.idleHours;
      lastBus := Some(groups[k].bus);
      k := k + 1;
    }
    report := EnergyReport(buses, totalUsed, totalCharge, totalIdle, lastBus);
  }

  /** Energy_Checker of combined8: the buses in ascending order, with the fleet totals. */
  method EnergyChecker(table: seq<Event>) returns (report: EnergyReport)
    ensures var groups := GroupByBus(table);
            |report.buses| == |groups| &&
            (forall k :: 0 <= k < |groups| ==> report.buses[k] == BusTallyOf(groups[k])) &&
            report.totalUsed == Total(UsedOfTallies(report.buses)) &&
            report.totalChargeHours == Total(ChargeOfTallies(report.buses)) &&
            report.totalIdleHours == Total(IdleOfTallies(report.buses)) &&
            report.lastBus == (if groups == [] then None else Some(groups[|groups| - 1].bus))
  {
    report := CheckGroups(GroupByBus(table));
  }

  lemma TalliesSnoc(groups: seq<Group>, k: nat, bs: seq<BusTally>, b: BusTally)
    requires k < |groups| && |bs| == k
    requires forall m :: 0 <= m < |groups| ==> groups[m].rows != []
    requires forall m :: 0 <= m < k ==> bs[m] == BusTallyOf(groups[m])
    requires b == BusTallyOf(groups[k])
    ensures forall m :: 0 <= m < k + 1 ==> (bs + [b])[m] == BusTallyOf(groups[m])
  {
  }

  lemma TallySnoc(bs: seq<BusTally>, b: BusTally)
    ensures Total(UsedOfTallies(bs + [b])) == Total(UsedOfTallies(bs)) + b.verdict.used
    ensures Total(ChargeOfTallies(bs + [b])) == Total(ChargeOfTallies(bs)) + b.chargeHours
    ensures Total(IdleOfTallies(bs + [b])) == Total(IdleOfTallies(bs)) + b.idleHours
  {
    TotalSnoc(UsedOfTallies(bs), b.verdict.used);
    TotalSnoc(ChargeOfTallies(bs), b.chargeHours);
    TotalSnoc(IdleOfTallies(bs), b.idleHours);
    assert UsedOfTallies(bs + [b]) == UsedOfTallies(bs) + [b.verdict.used];
    assert ChargeOfTallies(bs + [b]) == ChargeOfTallies(bs) + [b.chargeHours];
    assert IdleOfTallies(bs + [b]) == IdleOfTallies(bs) + [b.idleHours];
  }

  /** The fleet's "Total Charge Time" is never positive. */
  lemma {:induction false} TotalChargeNonPositive(bs: seq<BusTally>)
    requires forall k :: 0 <= k < |bs| ==> bs[k].chargeHours <= 0.0
    ensures Total(ChargeOfTallies(bs)) <= 0.0
  {
    if bs != [] {
      var init := bs[..|bs| - 1];
      TotalChargeNonPositive(init);
      assert ChargeOfTallies(bs)[..|bs| - 1] == ChargeOfTallies(init);
    }
  }

  // ---------------------------------------------------------------------------
  // Timetable_comparison: the membership rule

  /** The row with its 'start time' as the sort key (seconds since midnight). */
  function ClockKeyed(t: seq<Event>): (r: seq<Event>)
    ensures |r| == |t|
    ensures forall i :: 0 <= i < |t| ==> r[i] == t[i].(start := if t[i].startTime.Some? then t[i].startTime.value else 0)
  {
    seq(|t|, i requires 0 <= i < |t| =>
      t[i].(start := if t[i].startTime.Some? then t[i].startTime.value else 0))
  }

  predicate IsServiceTrip(e: Event) {
    e.activity == ServiceTrip
  }

  /** dfc: the table sorted by 'start time', service trips only: every service trip of the
      table, each as often as it occurs, in clock order, and nothing else. */
  function ServiceTripsByClock(t: seq<Event>): (r: seq<Event>)
    ensures forall e :: e in r <==> e in ClockKeyed(t) && e.activity == ServiceTrip
    ensures forall x :: multiset(r)[x] == if IsServiceTrip(x) then multiset(ClockKeyed(t))[x] else 0
    ensures SortedByStart(r)
  {
    var sorted := SortByStart(ClockKeyed(t));
    var r := Where(sorted, IsServiceTrip);
    SubsequenceSorted(r, sorted);
    SortKeepsRows(ClockKeyed(t));
    r
  }

  /** `isin(departures)`: the start is a departure time (a missing start never is). */
  predicate Listed(e: Event, departures: seq<int>) {
    e.startTime.Some? && e.startTime.value in departures
  }

  /** dfc['start time'].isin(table['departure_time']).all() */
  predicate CorrespondsToTimetable(t: seq<Event>, departures: seq<int>) {
    forall e :: e in ServiceTripsByClock(t) ==> Listed(e, departures)
  }

  /** The check looks at the service trips of the table and at nothing else. */
  lemma CorrespondsMeansEveryServiceTrip(t: seq<Event>, departures: seq<int>)
    ensures CorrespondsToTimetable(t, departures) <==>
            forall e :: e in t && e.activity == ServiceTrip ==> Listed(e, departures)
  {
    var keyed := ClockKeyed(t);
    forall e | e in t && e.activity == ServiceTrip && CorrespondsToTimetable(t, departures)
      ensures Listed(e, departures)
    {
      var i :| 0 <= i < |t| && t[i] == e;
      assert keyed[i] in keyed;
      assert keyed[i] in ServiceTripsByClock(t);
    }
    forall e | e in ServiceTripsByClock(t) && (forall o :: o in t && o.activity == ServiceTrip ==> Listed(o, departures))
      ensures Listed(e, departures)
    {
      var i :| 0 <= i < |keyed| && keyed[i] == e;
      assert t[i] in t;
    }
  }

  /** The positions in dfc, from i on, of the service trips whose start is not listed. */
  function MismatchesFrom(dfc: seq<Event>, departures: seq<int>, i: nat): seq<nat>
    requires i <= |dfc|
    decreases |dfc| - i
  {
    if i == |dfc| then []
    else (if !Listed(dfc[i], departures) then [i] else []) + MismatchesFrom(dfc, departures, i + 1)
  }

  /** Exactly the unlisted positions are reported, in ascending order. */
  lemma {:induction false} MismatchesExact(dfc: seq<Event>, departures: seq<int>, i: nat)
    requires i <= |dfc|
    ensures forall k :: k in MismatchesFrom(dfc, departures, i) <==> i <= k < |dfc| && !Listed(dfc[k], departures)
    ensures forall a, b :: 0 <= a < b < |MismatchesFrom(dfc, departures, i)| ==>
              MismatchesFrom(dfc, departures, i)[a] < MismatchesFrom(dfc, departures, i)[b]
    decreases |dfc| - i
  {
    if i < |dfc| {
      var rest := MismatchesFrom(dfc, departures, i + 1);
      MismatchesExact(dfc, departures, i + 1);
      forall b | 0 <= b < |rest|
        ensures rest[b] > i
      {
        assert rest[b] in rest;
      }
    }
  }

  /** What the printing loop of Timetable_comparison does: the rows it reports, and whether
      it stopped with an IndexError. */
  datatype Report = Report(rows: seq<nat>, indexError: bool)

  /** The printing loop from position i: each unlisted row is printed next to the departure
      at the same position of the sorted timetable, and a position past the end of the
      timetable raises IndexError before anything is printed for that row. */
  function ReportFrom(dfc: seq<Event>, departures: seq<int>, i: nat): Report
    requires i <= |dfc|
    decreases |dfc| - i
  {
    if i == |dfc| then Report([], false)
    else if Listed(dfc[i], departures) then ReportFrom(dfc, departures, i + 1)
    else if i >= |departures| then Report([], true)
    else
      var rest := ReportFrom(dfc, departures, i + 1);
      Report([i] + rest.rows, rest.indexError)
  }

  /** The loop reports the unlisted positions below the length of the timetable, which come
      first since the positions ascend, and raises IndexError exactly when some unlisted
      position is at or past that length. */
  lemma {:induction false} ReportMeaning(dfc: seq<Event>, departures: seq<int>, i: nat)
    requires i <= |dfc|
    ensures ReportFrom(dfc, departures, i).rows <= MismatchesFrom(dfc, departures, i)
    ensures forall k :: k in ReportFrom(dfc, departures, i).rows <==>
              k in MismatchesFrom(dfc, departures, i) && k < |departures|
    ensures ReportFrom(dfc, departures, i).indexError <==>
              exists k :: k in MismatchesFrom(dfc, departures, i) && k >= |departures|
    ensures !ReportFrom(dfc, departures, i).indexError ==>
              ReportFrom(dfc, departures, i).rows == MismatchesFrom(dfc, departures, i)
    decreases |dfc| - i
  {
    if i < |dfc| {
      ReportMeaning(dfc, departures, i + 1);
      MismatchesExact(dfc, departures, i);
      var m := MismatchesFrom(dfc, departures, i);
      var rest := MismatchesFrom(dfc, departures, i + 1);
      if Listed(dfc[i], departures) {
        assert m == rest;
      } else {
        assert m == [i] + rest;
        if i >= |departures| {
          assert i in m;
        } else {
          var r := ReportFrom(dfc, departures, i + 1);
          assert ReportFrom(dfc, departures, i).rows == [i] + r.rows;
          forall k | k in m && k >= |departures|
            ensures k in rest
          {
          }
          if k :| k in rest && k >= |departures| {
            assert k in m;
          }
        }
      }
    }
  }

  /** Three service trips and two departures, the third trip unlisted: the loop raises
      IndexError at position 2 after reporting nothing. */
  lemma TimetableIndexError(a: Event, b: Event, c: Event)
    requires Listed(a, [28800, 32400]) && Listed(b, [28800, 32400]) && !Listed(c, [28800, 32400])
    ensures ReportFrom([a, b, c], [28800, 32400], 0) == Report([], true)
  {
    var dfc := [a, b, c];
    var deps := [28800, 32400];
    assert ReportFrom(dfc, deps, 2) == Report([], true);
    assert ReportFrom(dfc, deps, 1) == ReportFrom(dfc, deps, 2);
  }

  /** The loop of Timetable_comparison that prints the rows not in the timetable. */
  method MismatchRows(dfc: seq<Event>, departures: seq<int>) returns (rows: seq<nat>, indexError: bool)
    ensures Report(rows, indexError) == ReportFrom(dfc, departures, 0)
  {
    rows := [];
    indexError := false;
    var i := 0;
    while i < |dfc|
      invariant 0 <= i <= |dfc|
      invariant ReportFrom(dfc, departures, 0) ==
                Report(rows + ReportFrom(dfc, departures, i).rows, ReportFrom(dfc, departures, i).indexError)
    {
      if !Listed(dfc[i], departures) {
        if i >= |departures| {
          assert ReportFrom(dfc, departures, i) == Report([], true);
          assert rows + [] == rows;
          indexError := true;
          return;
        }
        rows := rows + [i];
      }
      i := i + 1;
    }
    assert rows + [] == rows;
  }

  /** Some service trip is not listed exactly when there is a row to report. */
  lemma MismatchesIffUnlisted(dfc: seq<Event>, departures: seq<int>)
    ensures MismatchesFrom(dfc, departures, 0) == [] <==> forall e :: e in dfc ==> Listed(e, departures)
  {
    MismatchesExact(dfc, departures, 0);
    if e :| e in dfc && !Listed(e, departures) {
      var k :| 0 <= k < |dfc| && dfc[k] == e;
      assert k in MismatchesFrom(dfc, departures, 0);
    }
    if MismatchesFrom(dfc, departures, 0) != [] {
      var k := MismatchesFrom(dfc, departures, 0)[0];
      assert k in MismatchesFrom(dfc, departures, 0);
      assert dfc[k] in dfc;
    }
  }

  /** Timetable_comparison: whether the plan corresponds to the timetable and, when it does
      not, the row numbers (positions in dfc) of the service trips whose start is not a
      departure time, printed until a position reaches past the timetable and raises
      IndexError. */
  method TimetableComparison(t: seq<Event>, departures: seq<int>) returns (corresponds: bool, rows: seq<nat>, indexError: bool)
    ensures corresponds <==> forall e :: e in t && e.activity == ServiceTrip ==> Listed(e, departures)
    ensures corresponds ==> rows == [] && !indexError
    ensures rows <= MismatchesFrom(ServiceTripsByClock(t), departures, 0)
    ensures forall k :: k in rows <==> k in MismatchesFrom(ServiceTripsByClock(t), departures, 0) && k < |departures|
    ensures indexError <==> exists k :: k in MismatchesFrom(ServiceTripsByClock(t), departures, 0) && k >= |departures|
    ensures !corresponds && !indexError ==> rows != [] && rows == MismatchesFrom(ServiceTripsByClock(t), departures, 0)
  {
    var dfc := ServiceTripsByClock(t);
    CorrespondsMeansEveryServiceTrip(t, departures);
    MismatchesIffUnlisted(dfc, departures);
    ReportMeaning(dfc, departures, 0);
    corresponds := forall e :: e in dfc ==> Listed(e, departures);
    rows := [];
    indexError := false;
    if !corresponds {
      rows, indexError := MismatchRows(dfc, departures);
    }
  }
}
