/** combined3: the pipeline built inside report_missing_data (gaps filled without any
    filter, the result then discarded) and Energy_Checker, which recomputes idle energy from
    the clock columns and tests the level after subtracting the energy a second time.
    Energies are Option<real>: None is the NaN an idle row without clock times produces. */
module Combined3 {
  import opened Schedule
  import opened TimeNormalisation
  import opened GapFilling
  import opened Battery

  /** The normalise, fill and night-ride steps of report_missing_data. No row is filtered: the
      table keeps every normalised row (up to its new index label) and adds only idle rows
      without clock times; everything stays on the operating day. The caller never sees this
      table, since report_missing_data returns the null mask. */
  function ChangeData(rows: seq<Row>): (a: Arranged)
    ensures forall o :: o in ReadAndChangeData(rows) ==> Unlabelled(o) in UnlabelledRows(Rows(a))
    ensures forall e :: e in Rows(a) ==> Unlabelled(e) in UnlabelledRows(ReadAndChangeData(rows)) || AddedIdle(e)
    ensures forall i :: 0 <= i < |a.rows| ==> 0 <= a.rows[i].startShifted < Day
  {
    NormalisedOnOperatingDay(rows);
    NightRidesKeepOperatingDay(FillTable(ReadAndChangeData(rows)));
    NightRidesNextDay(FillTable(ReadAndChangeData(rows)))
  }

  // ---------------------------------------------------------------------------
  // Energy_Checker

  /** The energy the loop uses for a row: an idle row's energy is recomputed as 5 kW over the
      time between its clock start and clock end (NaN when either is missing); any other row
      keeps its stored energy. */
  function RowEnergy(e: Event): (x: Option<real>)
    ensures e.activity != Idle ==> x == Some(e.energy)
    ensures e.activity == Idle && e.startTime.Some? && e.endTime.Some? ==>
              x.Some? && x.value * 720.0 == (e.endTime.value - e.startTime.value) as real
    ensures AddedIdle(e) ==> x == None
  {
    if e.activity != Idle then Some(e.energy)
    else if e.startTime.Some? && e.endTime.Some? then Some(IdleEnergy(e.startTime.value, e.endTime.value))
    else None
  }

  function RowEnergies(rows: seq<Event>): (xs: seq<Option<real>>)
    ensures |xs| == |rows| && forall i :: 0 <= i < |rows| ==> xs[i] == RowEnergy(rows[i])
  {
    seq(|rows|, i requires 0 <= i < |rows| => RowEnergy(rows[i]))
  }

  /** Known energies, none missing. */
  function Somes(xs: seq<real>): (os: seq<Option<real>>)
    ensures |os| == |xs| && forall i :: 0 <= i < |xs| ==> os[i] == Some(xs[i])
  {
    seq(|xs|, i requires 0 <= i < |xs| => Some(xs[i]))
  }

  /** How the loop over one bus ended; the level is None once it has become NaN. */
  datatype NanRun = NanRun(feasible: bool, stop: nat, consumed: real, level: Option<real>)

  /** The loop as written: count a positive energy, subtract it, then stop when the new level
      minus the same energy is under the minimum. NaN is never positive, turns the level into
      NaN, and makes every comparison false. */
  function DoubleCheckFrom(es: seq<Option<real>>, i: nat, level: Option<real>, consumed: real): (r: NanRun)
    requires i <= |es|
    ensures i <= r.stop <= |es| && (r.feasible <==> r.stop == |es|)
    decreases |es| - i
  {
    if i == |es| then NanRun(true, i, consumed, level)
    else
      var e := es[i];
      var used := if e.Some? && e.value > 0.0 then consumed + e.value else consumed;
      var next := if level.Some? && e.Some? then Some(level.value - e.value) else None;
      if next.Some? && e.Some? && next.value - e.value < MinLevel then NanRun(false, i, used, next)
      else DoubleCheckFrom(es, i + 1, next, used)
  }

  function DoubleCheck(es: seq<Option<real>>): NanRun {
    DoubleCheckFrom(es, 0, Some(MaxLevel), 0.0)
  }

  /** Once the level is NaN the check never fires again: the bus is reported feasible. */
  lemma {:induction false} NanLevelNeverFails(es: seq<Option<real>>, i: nat, consumed: real)
    requires i <= |es|
    ensures DoubleCheckFrom(es, i, None, consumed).feasible
    decreases |es| - i
  {
    if i < |es| {
      var e := es[i];
      NanLevelNeverFails(es, i + 1, if e.Some? && e.value > 0.0 then consumed + e.value else consumed);
    }
  }

  /** The test the loop applies to row k: the level after rows 0..k, less row k once more. */
  predicate PassesDoubleTest(xs: seq<real>) {
    forall k :: 0 <= k < |xs| ==> LevelAfter(xs, 0, k + 1, MaxLevel) - xs[k] >= MinLevel
  }

  /** What a run of the loop from row i, started at the given level and count, has done:
      every row before the stop passed the double test; a feasible run has counted and
      subtracted every row; a failed run stopped at a row failing the test, which it has
      counted and subtracted. */
  predicate RunFacts(xs: seq<real>, i: nat, level: real, consumed: real, r: NanRun)
    requires i <= r.stop <= |xs| && (r.feasible <==> r.stop == |xs|)
  {
    (forall k :: i <= k < r.stop ==> LevelAfter(xs, i, k + 1, level) - xs[k] >= MinLevel) &&
    (r.feasible ==> r.consumed == consumed + PositiveSumRange(xs, i, |xs|) &&
                    r.level == Some(LevelAfter(xs, i, |xs|, level))) &&
    (!r.feasible ==> LevelAfter(xs, i, r.stop + 1, level) - xs[r.stop] < MinLevel &&
                     r.consumed == consumed + PositiveSumRange(xs, i, r.stop + 1) &&
                     r.level == Some(LevelAfter(xs, i, r.stop + 1, level)))
  }

  /** A row passing the double test joins the run that follows it. */
  lemma PassJoinsRun(xs: seq<real>, i: nat, level: real, consumed: real, r: NanRun)
    requires i < |xs| && i + 1 <= r.stop <= |xs| && (r.feasible <==> r.stop == |xs|)
    requires level - xs[i] - xs[i] >= MinLevel
    requires RunFacts(xs, i + 1, level - xs[i], consumed + Positive(xs[i]), r)
    ensures RunFacts(xs, i, level, consumed, r)
  {
    forall m | i < m <= |xs|
      ensures LevelAfter(xs, i, m, level) == LevelAfter(xs, i + 1, m, level - xs[i])
      ensures PositiveSumRange(xs, i, m) == Positive(xs[i]) + PositiveSumRange(xs, i + 1, m)
    {
    }
    assert SumRange(xs, i + 1, i + 1) == 0.0;
  }

  lemma {:induction false} DoubleCheckFacts(xs: seq<real>, i: nat, level: real, consumed: real)
    requires i <= |xs|
    ensures RunFacts(xs, i, level, consumed, DoubleCheckFrom(Somes(xs), i, Some(level), consumed))
    decreases |xs| - i
  {
    if i < |xs| {
      var e := xs[i];
      var used := if e > 0.0 then consumed + e else consumed;
      assert used == consumed + Positive(e);
      if !(level - e - e < MinLevel) {
        DoubleCheckFacts(xs, i + 1, level - e, used);
        PassJoinsRun(xs, i, level, consumed, DoubleCheckFrom(Somes(xs), i + 1, Some(level - e), used));
      } else {
        assert SumRange(xs, i + 1, i + 1) == 0.0;
        assert LevelAfter(xs, i, i + 1, level) == level - e;
      }
    }
  }

  /** With every energy known, the loop passes a bus exactly when each row, taken twice from
      the level after it, leaves at least 25.5 kWh. */
  lemma DoubleCheckMeaning(xs: seq<real>)
    ensures DoubleCheck(Somes(xs)).feasible <==> PassesDoubleTest(xs)
  {
    DoubleCheckFacts(xs, 0, MaxLevel, 0.0);
  }

  /** Whatever the energies, the doubled test only adds rejections: a bus it passes stays
      above the minimum after every row. */
  lemma DoubleTestImpliesStaysAbove(xs: seq<real>)
    requires PassesDoubleTest(xs)
    ensures StaysAboveMinimum(xs)
  {
    forall k | 0 < k <= |xs|
      ensures LevelAfter(xs, 0, k, MaxLevel) >= MinLevel
    {
      DoubleTestPrefix(xs, k);
    }
  }

  lemma {:induction false} DoubleTestPrefix(xs: seq<real>, k: nat)
    requires PassesDoubleTest(xs) && k <= |xs|
    ensures LevelAfter(xs, 0, k, MaxLevel) >= MinLevel
    decreases k
  {
    if k == 0 {
      assert SumRange(xs, 0, 0) == 0.0;
    } else {
      DoubleTestPrefix(xs, k - 1);
      SumRangeSnoc(xs, 0, k - 1);
      assert LevelAfter(xs, 0, k - 1 + 1, MaxLevel) - xs[k - 1] >= MinLevel;
    }
  }

  /** The loop rejects a bus whose single row of 110 kWh leaves 119.5 kWh, well above the
      minimum: it tests 119.5 - 110 = 9.5. */
  lemma DoubleSubtractionRejectsFeasibleBus()
    ensures StaysAboveMinimum([110.0])
    ensures !DoubleCheck(Somes([110.0])).feasible
    ensures !PassesDoubleTest([110.0])
  {
    var xs := [110.0];
    assert LevelAfter(xs, 0, 1, MaxLevel) == 119.5;
    DoubleCheckMeaning(xs);
  }

  /** The evidently intended loop: count, subtract, and stop when the new level is under the
      minimum, with the same NaN behaviour. */
  function CorrectedCheckFrom(es: seq<Option<real>>, i: nat, level: Option<real>, consumed: real): (r: NanRun)
    requires i <= |es|
    ensures i <= r.stop <= |es| && (r.feasible <==> r.stop == |es|)
    decreases |es| - i
  {
    if i == |es| then NanRun(true, i, consumed, level)
    else
      var e := es[i];
      var used := if e.Some? && e.value > 0.0 then consumed + e.value else consumed;
      var next := if level.Some? && e.Some? then Some(level.value - e.value) else None;
      if next.Some? && next.value < MinLevel then NanRun(false, i, used, next)
      else CorrectedCheckFrom(es, i + 1, next, used)
  }

  /** With every energy known, the corrected loop is the post-check: same verdict, same
      stopping row, same energy counted and same level. */
  lemma {:induction false} CorrectedIsPostCheck(xs: seq<real>, i: nat, level: real, consumed: real)
    requires i <= |xs|
    ensures var c := CorrectedCheckFrom(Somes(xs), i, Some(level), consumed);
            var p := PostCheckFrom(xs, i, level, consumed);
            c == NanRun(p.feasible, p.stop, p.consumed, Some(p.level))
    decreases |xs| - i
  {
    if i < |xs| {
      var e := xs[i];
      CorrectedIsPostCheck(xs, i + 1, level - e, consumed + Positive(e));
    }
  }

  /** So the corrected loop passes exactly the buses that stay above the minimum. */
  lemma CorrectedMeaning(xs: seq<real>)
    ensures CorrectedCheckFrom(Somes(xs), 0, Some(MaxLevel), 0.0).feasible <==> StaysAboveMinimum(xs)
  {
    CorrectedIsPostCheck(xs, 0, MaxLevel, 0.0);
    PostCheckMeaning(xs);
  }

  /** What combined3 reports for one bus. */
  datatype NanVerdict = NanVerdict(bus: int, feasible: bool, used: real, route: Option<int>, level: Option<real>)

  /** Every row of the bus has a known energy: none is an idle row without clock times. */
  predicate AllKnown(rows: seq<Event>) {
    forall i :: 0 <= i < |rows| ==> RowEnergy(rows[i]).Some?
  }

  /** The energies the loop uses, when all are known. */
  function KnownEnergies(rows: seq<Event>): (xs: seq<real>)
    requires AllKnown(rows)
    ensures Somes(xs) == RowEnergies(rows)
  {
    seq(|rows|, i requires 0 <= i < |rows| => RowEnergy(rows[i]).value)
  }

  /** Row k is the first row whose double test fails. */
  predicate FirstDoubleFailure(xs: seq<real>, k: nat) {
    k < |xs| && LevelAfter(xs, 0, k + 1, MaxLevel) - xs[k] < MinLevel &&
    forall j :: 0 <= j < k ==> LevelAfter(xs, 0, j + 1, MaxLevel) - xs[j] >= MinLevel
  }

  /** The verdict for one bus. When it is infeasible, the message names the index label plus
      one of a row whose energy is known. With every energy known, the bus is feasible
      exactly when every row passes the double test; otherwise the message names the first
      row that fails it, and the counts include that row. */
  function DoubleVerdict(g: Group): (v: NanVerdict)
    ensures v.bus == g.bus && v.used >= 0.0
    ensures v.feasible ==> v.route == None
    ensures !v.feasible ==>
              exists i :: 0 <= i < |g.rows| && v.route == Some(g.rows[i].index + 1) && RowEnergy(g.rows[i]).Some?
    ensures AllKnown(g.rows) ==> (v.feasible <==> PassesDoubleTest(KnownEnergies(g.rows)))
    ensures AllKnown(g.rows) && v.feasible ==>
              v.used == PositiveSumRange(KnownEnergies(g.rows), 0, |g.rows|) &&
              v.level == Some(LevelAfter(KnownEnergies(g.rows), 0, |g.rows|, MaxLevel))
    ensures AllKnown(g.rows) && !v.feasible ==>
              exists k: nat :: FirstDoubleFailure(KnownEnergies(g.rows), k) &&
                v.route == Some(g.rows[k].index + 1) &&
                v.used == PositiveSumRange(KnownEnergies(g.rows), 0, k + 1) &&
                v.level == Some(LevelAfter(KnownEnergies(g.rows), 0, k + 1, MaxLevel))
  {
    var es := RowEnergies(g.rows);
    var r := DoubleCheck(es);
    DoubleCheckStop(es, 0, Some(MaxLevel), 0.0);
    var v := NanVerdict(g.bus, r.feasible, r.consumed, if r.feasible then None else Some(g.rows[r.stop].index + 1), r.level);
    if AllKnown(g.rows) then
      KnownVerdict(g, v);
      v
    else v
  }

  /** With every energy known, the loop's verdict is the double test's, its stopping row is
      the first that fails it, and its counts are those of the rows up to there. */
  lemma KnownVerdict(g: Group, v: NanVerdict)
    requires AllKnown(g.rows)
    requires var r := DoubleCheck(RowEnergies(g.rows));
             v == NanVerdict(g.bus, r.feasible, r.consumed, if r.feasible then None else Some(g.rows[r.stop].index + 1), r.level)
    ensures v.feasible <==> PassesDoubleTest(KnownEnergies(g.rows))
    ensures v.feasible ==>
              v.used == PositiveSumRange(KnownEnergies(g.rows), 0, |g.rows|) &&
              v.level == Some(LevelAfter(KnownEnergies(g.rows), 0, |g.rows|, MaxLevel))
    ensures !v.feasible ==>
              exists k: nat :: FirstDoubleFailure(KnownEnergies(g.rows), k) &&
                v.route == Some(g.rows[k].index + 1) &&
                v.used == PositiveSumRange(KnownEnergies(g.rows), 0, k + 1) &&
                v.level == Some(LevelAfter(KnownEnergies(g.rows), 0, k + 1, MaxLevel))
  {
    var xs := KnownEnergies(g.rows);
    var r := DoubleCheck(Somes(xs));
    DoubleCheckFacts(xs, 0, MaxLevel, 0.0);
    DoubleCheckMeaning(xs);
    if !r.feasible {
      assert FirstDoubleFailure(xs, r.stop);
    }
  }

  /** The row the loop stops at has a known energy, and the energy counted never decreases. */
  lemma {:induction false} DoubleCheckStop(es: seq<Option<real>>, i: nat, level: Option<real>, consumed: real)
    requires i <= |es|
    ensures var r := DoubleCheckFrom(es, i, level, consumed);
            r.consumed >= consumed && (!r.feasible ==> es[r.stop].Some?)
    decreases |es| - i
  {
    if i < |es| {
      var e := es[i];
      var used := if e.Some? && e.value > 0.0 then consumed + e.value else consumed;
      var next := if level.Some? && e.Some? then Some(level.value - e.value) else None;
      DoubleCheckStop(es, i + 1, next, used);
    }
  }

  /** The inner loop of Energy_Checker over the rows of one bus. */
  method CheckBus(g: Group) returns (v: NanVerdict)
    ensures v == DoubleVerdict(g)
  {
    var rows := g.rows;
    ghost var es := RowEnergies(rows);
    var used := 0.0;
    var level: Option<real> := Some(MaxLevel);
    var feasible := true;
    var route: Option<int> := None;
    var i := 0;
    while i < |rows|
      invariant 0 <= i <= |rows|
      invariant DoubleCheckFrom(es, i, level, used) == DoubleCheck(es)
    {
      var e := RowEnergy(rows[i]);
      if e.Some? && e.value > 0.0 {
        used := used + e.value;
      }
      level := if level.Some? && e.Some? then Some(level.value - e.value) else None;
      if level.Some? && e.Some? && level.value - e.value < MinLevel {
        route := Some(rows[i].index + 1);
        feasible := false;
        break;
      }
      i := i + 1;
    }
    v := NanVerdict(g.bus, feasible, used, route, level);
  }

  /** The per-bus totals the fleet total adds up. Battery.UsedOf does the same for
      BusVerdict; a NanVerdict is a different type, since its level may be NaN, so it needs
      its own projection. */
  function UsedOfNan(vs: seq<NanVerdict>): (us: seq<real>)
    ensures |us| == |vs| && forall k :: 0 <= k < |vs| ==> us[k] == vs[k].used
  {
    seq(|vs|, k requires 0 <= k < |vs| => vs[k].used)
  }

  /** Energy_Checker of combined3 on the groups of the bus column, with the fleet total of the
      energy counted, failing rows included. */
  method CheckGroups(groups: seq<Group>) returns (verdicts: seq<NanVerdict>, totalUsed: real)
    ensures |verdicts| == |groups|
    ensures forall k :: 0 <= k < |groups| ==> verdicts[k] == DoubleVerdict(groups[k])
    ensures totalUsed == Total(UsedOfNan(verdicts))
  {
    verdicts := [];
    totalUsed := 0.0;
    var k := 0;
    while k < |groups|
      invariant 0 <= k <= |groups|
      invariant |verdicts| == k && forall m :: 0 <= m < k ==> verdicts[m] == DoubleVerdict(groups[m])
      invariant totalUsed == Total(UsedOfNan(verdicts))
    {
      var v := CheckBus(groups[k]);
      TotalSnoc(UsedOfNan(verdicts), v.used);
      assert UsedOfNan(verdicts + [v]) == UsedOfNan(verdicts) + [v.used];
      verdicts := verdicts + [v];
      totalUsed := totalUsed + v.used;
      k := k + 1;
    }
  }

  method EnergyChecker(table: seq<Event>) returns (verdicts: seq<NanVerdict>, totalUsed: real)
    ensures var groups := GroupByBus(table);
            |verdicts| == |groups| &&
            (forall k :: 0 <= k < |groups| ==> verdicts[k] == DoubleVerdict(groups[k])) &&
            totalUsed == Total(UsedOfNan(verdicts))
  {
    verdicts, totalUsed := CheckGroups(GroupByBus(table));
  }
}
