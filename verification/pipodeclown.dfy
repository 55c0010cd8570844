/** pipodeclown (and the identical top-level loop of Project5MeerdereBussen): overlaps and
    battery feasibility on the raw sheet, grouped by bus in ascending order. The battery loop
    counts and subtracts a row, then stops when the new level is under the minimum. */
module Pipodeclown {
  import opened Schedule
  import opened Battery
  import opened Overlaps

  /** Overlap_Checker: the records for every bus, and whether the "no overlaps" message is
      printed, which happens exactly when no bus has two rows that overlap. */
  method OverlapReport(groups: seq<Group>) returns (results: seq<OverlapRecord>, noOverlaps: bool)
    ensures results == FleetOverlapsFrom(groups, 0)
    ensures noOverlaps <==>
              forall m :: 0 <= m < |groups| ==>
                forall a, b :: 0 <= a < b < |groups[m].rows| ==> !Overlap(groups[m].rows[a], groups[m].rows[b])
  {
    results := Overlaps.OverlapChecker(groups);
    NoFleetOverlaps(groups, 0);
    noOverlaps := |results| == 0;
  }

  /** The checker run on the sheet, buses ascending. */
  method OverlapChecker(rows: seq<Row>) returns (results: seq<OverlapRecord>, noOverlaps: bool)
    ensures var groups := GroupByBus(RawTable(rows));
            results == FleetOverlapsFrom(groups, 0) &&
            (noOverlaps <==>
              forall m :: 0 <= m < |groups| ==>
                forall a, b :: 0 <= a < b < |groups[m].rows| ==> !Overlap(groups[m].rows[a], groups[m].rows[b]))
  {
    results, noOverlaps := OverlapReport(GroupByBus(RawTable(rows)));
  }

  /** The loop over the rows of one bus: count a positive energy, subtract it, and stop at the
      first row that leaves the level under 25.5 kWh. */
  method CheckBus(g: Group) returns (v: BusVerdict)
    ensures v == PostVerdict(g)
  {
    var rows := g.rows;
    ghost var es := Energies(rows);
    var used, level := 0.0, MaxLevel;
    var feasible := true;
    var route: Option<int> := None;
    var i := 0;
    while i < |rows|
      invariant 0 <= i <= |rows|
      invariant PostCheckFrom(es, i, level, used) == PostCheck(es)
    {
      var e := rows[i].energy;
      if e > 0.0 {
        used := used + e;
      }
      level := level - e;
      if level < MinLevel {
        route := Some(rows[i].index + 1);
        feasible := false;
        break;
      }
      i := i + 1;
    }
    v := BusVerdict(g.bus, feasible, used, route, level);
  }

  /** The loop over the buses: one verdict each, in order, and the total of the energy counted
      for every bus, the failing rows included. */
  method CheckGroups(groups: seq<Group>) returns (verdicts: seq<BusVerdict>, totalUsed: real)
    ensures |verdicts| == |groups|
    ensures forall k :: 0 <= k < |groups| ==> verdicts[k] == PostVerdict(groups[k])
    ensures totalUsed == Total(UsedOf(verdicts))
  {
    verdicts := [];
    totalUsed := 0.0;
    var k := 0;
    while k < |groups|
      invariant 0 <= k <= |groups|
      invariant |verdicts| == k && forall m :: 0 <= m < k ==> verdicts[m] == PostVerdict(groups[m])
      invariant totalUsed == Total(UsedOf(verdicts))
    {
      var v := CheckBus(groups[k]);
      UsedOfSnoc(verdicts, v);
      TotalSnoc(UsedOf(verdicts), v.used);
      verdicts := verdicts + [v];
      totalUsed := totalUsed + v.used;
      k := k + 1;
    }
  }

  /** Energy_Checker on the sheet, buses ascending. */
  method EnergyChecker(rows: seq<Row>) returns (verdicts: seq<BusVerdict>, totalUsed: real)
    ensures var groups := GroupByBus(RawTable(rows));
            |verdicts| == |groups| &&
            (forall k :: 0 <= k < |groups| ==> verdicts[k] == PostVerdict(groups[k])) &&
            totalUsed == Total(UsedOf(verdicts))
  {
    verdicts, totalUsed := CheckGroups(GroupByBus(RawTable(rows)));
  }

  /** The feasible message appears for a bus exactly when its loop never broke, and the
      fleet total is non-negative and at least the energy counted for any one bus, failing
      buses included. */
  lemma FleetTotalBoundsEachBus(groups: seq<Group>, verdicts: seq<BusVerdict>)
    requires |verdicts| == |groups|
    requires forall k :: 0 <= k < |groups| ==> verdicts[k] == PostVerdict(groups[k])
    ensures Total(UsedOf(verdicts)) >= 0.0
    ensures forall k :: 0 <= k < |groups| ==> verdicts[k].used <= Total(UsedOf(verdicts))
    ensures forall k :: 0 <= k < |groups| ==> (verdicts[k].feasible <==> StaysAboveMinimum(Energies(groups[k].rows)))
  {
    forall k | 0 <= k < |verdicts|
      ensures UsedOf(verdicts)[k] >= 0.0
    {
      assert verdicts[k] == PostVerdict(groups[k]);
    }
    TotalNonNegative(UsedOf(verdicts));
    TotalAtLeastEach(UsedOf(verdicts));
  }
}
