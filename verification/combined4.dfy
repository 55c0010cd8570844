/** combined4: change_data (gaps filled on the unfiltered table, rows of non-positive length
    dropped, idle energy set) and Energy_Checker (checked before the subtraction, stopping at
    the first violation). Its Overlap_Checker is Overlaps.OverlapChecker on the groups of the
    categorical bus column, GroupsIn(Rows(a), a.busOrder). */
module Combined4 {
  import opened Schedule
  import opened TimeNormalisation
  import opened GapFilling
  import opened Battery

  /** replace_empty_gaps_with_idle of combined4. Every row kept has positive length and every
      idle row the energy of 5 kW over its length; the rows that are not idle are, up to their
      index labels, rows of the table, and every row of the table of positive length that is
      not idle is kept. */
  function ReplaceEmptyGapsWithIdle(t: seq<Event>): (r: seq<Event>)
    ensures forall e :: e in r ==> e.end > e.start
    ensures forall i :: 0 <= i < |r| && r[i].activity == Idle ==>
              r[i].energy * 720.0 == (r[i].end - r[i].start) as real
    ensures forall e :: e in r && e.activity != Idle ==> Unlabelled(e) in UnlabelledRows(t)
    ensures forall o :: o in t && o.end > o.start && o.activity != Idle ==> Unlabelled(o) in UnlabelledRows(r)
    ensures (forall o :: o in t ==> OnOperatingDay(o)) ==> forall e :: e in r ==> OnOperatingDay(e)
  {
    ReplaceEnergy(t);
    ReplaceRows(t);
    SetIdleEnergy(KeepPositive(FillTable(t)))
  }

  lemma ReplaceEnergy(t: seq<Event>)
    ensures var r := SetIdleEnergy(KeepPositive(FillTable(t)));
            forall i :: 0 <= i < |r| && r[i].activity == Idle ==>
              r[i].energy * 720.0 == (r[i].end - r[i].start) as real
  {
    var s := KeepPositive(FillTable(t));
    var r := SetIdleEnergy(s);
    forall i | 0 <= i < |r| && r[i].activity == Idle
      ensures r[i].energy * 720.0 == (r[i].end - r[i].start) as real
    {
      assert r[i].(energy := s[i].energy) == s[i];
    }
  }

  lemma ReplaceRows(t: seq<Event>)
    ensures var r := SetIdleEnergy(KeepPositive(FillTable(t)));
            (forall e :: e in r ==> e.end > e.start) &&
            (forall e :: e in r && e.activity != Idle ==> Unlabelled(e) in UnlabelledRows(t)) &&
            (forall o :: o in t && o.end > o.start && o.activity != Idle ==> Unlabelled(o) in UnlabelledRows(r)) &&
            ((forall o :: o in t ==> OnOperatingDay(o)) ==> forall e :: e in r ==> OnOperatingDay(e))
  {
    var filled := FillTable(t);
    var positive := KeepPositive(filled);
    var r := SetIdleEnergy(positive);
    SetIdleFacts(positive);
    KeptRowsSurvive(t, filled, positive, r);
  }

  /** A row of the table with positive length and another activity than idle survives the
      three steps of replace_empty_gaps_with_idle. */
  lemma KeptRowsSurvive(t: seq<Event>, filled: seq<Event>, positive: seq<Event>, r: seq<Event>)
    requires forall o :: o in t ==> Unlabelled(o) in UnlabelledRows(filled)
    requires forall e :: e in filled && e.end > e.start ==> e in positive
    requires forall o :: o in positive && o.activity != Idle ==> o in r
    ensures forall o :: o in t && o.end > o.start && o.activity != Idle ==> Unlabelled(o) in UnlabelledRows(r)
  {
    forall o | o in t && o.end > o.start && o.activity != Idle
      ensures Unlabelled(o) in UnlabelledRows(r)
    {
      var j :| 0 <= j < |filled| && UnlabelledRows(filled)[j] == Unlabelled(o);
      var f := filled[j];
      assert f in filled && f.end > f.start && f.activity != Idle;
      assert f in r;
      var i :| 0 <= i < |r| && r[i] == f;
      assert UnlabelledRows(r)[i] == Unlabelled(o);
    }
  }

  /** change_data of combined4: night_rides_next_day finds nothing left to move, returning the
      rows of the gap filling, each displayed within the 24 hours from 04:00. */
  function ChangeData(rows: seq<Row>): (a: Arranged)
    ensures var filled := ReplaceEmptyGapsWithIdle(ReadAndChangeData(rows));
            Rows(a) == filled &&
            multiset(a.busOrder) == multiset(BusKeys(filled)) &&
            forall i :: 0 <= i < |a.rows| ==> 0 <= a.rows[i].startShifted < Day
  {
    NormalisedOnOperatingDay(rows);
    NightRidesKeepOperatingDay(ReplaceEmptyGapsWithIdle(ReadAndChangeData(rows)));
    NightRidesNextDay(ReplaceEmptyGapsWithIdle(ReadAndChangeData(rows)))
  }

  // ---------------------------------------------------------------------------
  // Energy_Checker

  /** The inner loop of Energy_Checker: the rows of one bus in table order, each checked
      before it is subtracted, leaving the loop at the first row that would take the level
      under 25.5 kWh. */
  method CheckBus(g: Group) returns (v: BusVerdict)
    ensures v == PreVerdict(g)
  {
    var rows := g.rows;
    ghost var es := Energies(rows);
    var used, level := 0.0, MaxLevel;
    var feasible := true;
    var route: Option<int> := None;
    var i := 0;
    while i < |rows|
      invariant 0 <= i <= |rows|
      invariant PreCheckFrom(es, i, level, used) == PreCheck(es)
    {
      var e := rows[i].energy;
      if level - e < MinLevel {
        route := Some(rows[i].index + 1);
        feasible := false;
        break;
      }
      if e > 0.0 {
        used := used + e;
      }
      level := level - e;
      i := i + 1;
    }
    v := BusVerdict(g.bus, feasible, used, route, level);
  }

  /** The outer loop: one verdict per group, in order, and the sum of the energy counted for
      every bus, feasible or not. */
  method CheckGroups(groups: seq<Group>) returns (verdicts: seq<BusVerdict>, totalUsed: real)
    ensures |verdicts| == |groups|
    ensures forall k :: 0 <= k < |groups| ==> verdicts[k] == PreVerdict(groups[k])
    ensures totalUsed == Total(UsedOf(verdicts))
  {
    verdicts := [];
    totalUsed := 0.0;
    var k := 0;
    while k < |groups|
      invariant 0 <= k <= |groups|
      invariant |verdicts| == k && forall m :: 0 <= m < k ==> verdicts[m] == PreVerdict(groups[m])
      invariant totalUsed == Total(UsedOf(verdicts))
    {
      var v := CheckBus(groups[k]);
      UsedOfSnoc(verdicts, v);
      TotalSnoc(UsedOf(verdicts), v.used);
      verdicts := verdicts + [v];
      totalUsed := totalUsed + v.used;
      k := k + 1;
    }
  }

  /** Energy_Checker of combined4: the buses in ascending order. */
  method EnergyChecker(table: seq<Event>) returns (verdicts: seq<BusVerdict>, totalUsed: real)
    ensures var groups := GroupByBus(table);
            |verdicts| == |groups| &&
            (forall k :: 0 <= k < |groups| ==> verdicts[k] == PreVerdict(groups[k])) &&
            totalUsed == Total(UsedOf(verdicts))
  {
    verdicts, totalUsed := CheckGroups(GroupByBus(table));
  }

  /** Only positive energies are counted, so "Total Energy Used on Bus Plan" is never
      negative, whatever the verdicts. */
  lemma {:induction false} TotalUsedNonNegative(groups: seq<Group>, verdicts: seq<BusVerdict>)
    requires |verdicts| == |groups|
    requires forall k :: 0 <= k < |groups| ==> verdicts[k] == PreVerdict(groups[k])
    ensures Total(UsedOf(verdicts)) >= 0.0
  {
    forall k | 0 <= k < |verdicts|
      ensures UsedOf(verdicts)[k] >= 0.0
    {
      assert verdicts[k] == PreVerdict(groups[k]);
    }
    TotalNonNegative(UsedOf(verdicts));
  }
}
