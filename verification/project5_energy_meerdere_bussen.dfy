/** Project5EnergyMeerdereBussen: the battery levels come from set_energy_variables
    (Battery.EnergyVariables) and are passed to check_feasible_per_route, which checks each row
    before subtracting it and leaves the bus at the first violation. */
module Project5EnergyMeerdereBussen {
  import opened Schedule
  import opened Battery

  /** The loop over the rows of one bus, with the levels as parameters. */
  method CheckRoutes(minLevel: real, maxLevel: real, g: Group) returns (v: BusVerdict)
    requires (minLevel, maxLevel) == EnergyVariables()
    ensures v == PreVerdict(g)
  {
    var rows := g.rows;
    ghost var es := Energies(rows);
    var used, level := 0.0, maxLevel;
    var feasible := true;
    var route: Option<int> := None;
    var i := 0;
    while i < |rows|
      invariant 0 <= i <= |rows|
      invariant PreCheckFrom(es, i, level, used) == PreCheck(es)
    {
      var e := rows[i].energy;
      if level - e < minLevel {
        route := Some(rows[i].index + 1);
        feasible := false;
        break;
      }
      level := level - e;
      if e > 0.0 {
        used := used + e;
      }
      i := i + 1;
    }
    v := BusVerdict(g.bus, feasible, used, route, level);
  }

  /** check_feasible_per_route: a verdict per bus and the returned total, the sum over the
      buses of the positive energy of the rows that passed the check. */
  method CheckFeasiblePerRoute(minLevel: real, maxLevel: real, groups: seq<Group>)
    returns (verdicts: seq<BusVerdict>, totalUsed: real)
    requires (minLevel, maxLevel) == EnergyVariables()
    ensures |verdicts| == |groups|
    ensures forall k :: 0 <= k < |groups| ==> verdicts[k] == PreVerdict(groups[k])
    ensures totalUsed == Total(UsedOf(verdicts))
  {
    verdicts := [];
    totalUsed := 0.0;
    var k := 0;
    while k < |groups|
      invariant 0 <= k <= |groups|
      invariant |verdicts| == k && forall m :: 0 <= m < k ==> verdicts[m] == PreVerdict(groups[m])
      invariant totalUsed == Total(UsedOf(verdicts))
    {
      var v := CheckRoutes(minLevel, maxLevel, groups[k]);
      UsedOfSnoc(verdicts, v);
      TotalSnoc(UsedOf(verdicts), v.used);
      verdicts := verdicts + [v];
      totalUsed := totalUsed + v.used;
      k := k + 1;
    }
  }

  /** The returned total never exceeds what the post-check loops of Project5MeerdereBussen
      and pipodeclown count on the same groups: they also count each failing row. */
  lemma PreTotalAtMostPostTotal(groups: seq<Group>, pre: seq<BusVerdict>, post: seq<BusVerdict>)
    requires |pre| == |groups| && |post| == |groups|
    requires forall k :: 0 <= k < |groups| ==> pre[k] == PreVerdict(groups[k]) && post[k] == PostVerdict(groups[k])
    ensures Total(UsedOf(pre)) <= Total(UsedOf(post))
  {
    forall k | 0 <= k < |groups|
      ensures UsedOf(pre)[k] <= UsedOf(post)[k]
    {
      PreUsedAtMostPostUsed(groups[k]);
    }
    TotalMonotone(UsedOf(pre), UsedOf(post));
  }
}
