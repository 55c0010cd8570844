/** make_feasible_busplan of imporvedbusplan: for every bus, its rows in start order are
    copied to a new plan. A positive gap since the previous row becomes an idle row whose
    energy (5 kW) is deducted from the battery without any check. When the next row's energy
    would take the battery under 25.5 kWh, a charging row is put in front of it and the battery
    is set back to 229.5 kWh. Times are the plain clock seconds: nothing is wrapped or shifted
    to the next day. */
module FeasibleBusplan {
  import opened Schedule
  import opened Battery
  import opened GapFilling

  /** The shortest charging stop, in seconds (15 minutes). */
  const MinChargeSeconds: real := 15.0 * 60.0

  /** Where an inserted idle row waits: the bus station. */
  const IdleLocation: string := "EHVBST"

  /** Where an inserted charging row charges: the garage. */
  const ChargeLocation: string := "EHVGAR"

  /** A row of the new plan. Charging rows may start at a fractional second. */
  datatype PlanRow =
    | IdleGap(bus: int, start: int, end: int, energy: real, startLocation: string, endLocation: string)
    | ChargeStop(bus: int, from: real, until: real, energy: real, startLocation: string, endLocation: string)
    | Trip(event: Event)

  /** Length of a charging stop: the time to charge back to 229.5 kWh at 450 kWh per hour,
      and never less than 15 minutes. */
  function ChargeSeconds(battery: real): (d: real)
    ensures d >= MinChargeSeconds
    ensures d / 3600.0 * ChargeRate >= MaxLevel - battery
    ensures d == MinChargeSeconds || d / 3600.0 * ChargeRate == MaxLevel - battery
  {
    var hours := (MaxLevel - battery) / ChargeRate;
    if MinChargeSeconds > hours * 3600.0 then MinChargeSeconds else hours * 3600.0
  }

  /** The idle row for the gap between the previous row's end and the next start, if the gap
      is positive. */
  function GapRows(bus: int, prevEnd: Option<int>, start: int): seq<PlanRow> {
    if prevEnd.Some? && start > prevEnd.value then
      [IdleGap(bus, prevEnd.value, start, IdleEnergy(prevEnd.value, start), IdleLocation, IdleLocation)]
    else []
  }

  /** There is one idle row exactly when the gap is positive; it spans the gap, uses 5 kW
      over it and waits at the bus station. */
  lemma GapRowsFacts(bus: int, prevEnd: Option<int>, start: int)
    ensures var g := GapRows(bus, prevEnd, start);
            |g| <= 1 &&
            (g != [] <==> prevEnd.Some? && start > prevEnd.value) &&
            forall x :: x in g ==>
              x.IdleGap? && x.bus == bus && x.start == prevEnd.value && x.end == start &&
              x.energy * 720.0 == (x.end - x.start) as real && x.energy > 0.0 &&
              x.startLocation == IdleLocation && x.endLocation == IdleLocation
  {
  }

  /** The energy the gap rows take from the battery. */
  function GapDrain(g: seq<PlanRow>): real {
    if g != [] && !g[0].Trip? then g[0].energy else 0.0
  }

  /** The charging row before a row starting at `start`, with the battery at `battery`. Its
      energy is minus the kWh charged. */
  function ChargeRow(bus: int, prevEnd: Option<int>, start: int, battery: real): PlanRow {
    var d := ChargeSeconds(battery);
    var cs := if prevEnd.Some? && prevEnd.value != 0 then prevEnd.value as real else start as real - d;
    ChargeStop(bus, cs, cs + d, -(d / 3600.0) * ChargeRate, ChargeLocation, ChargeLocation)
  }

  /** The charging row, at the garage, lasts ChargeSeconds and charges at least the way back
      to 229.5 kWh and at least 112.5 kWh. It starts at the previous row's end when that is a non-zero second;
      otherwise it ends exactly when the row starts. */
  lemma ChargeRowFacts(bus: int, prevEnd: Option<int>, start: int, battery: real)
    ensures var c := ChargeRow(bus, prevEnd, start, battery);
            c.ChargeStop? && c.bus == bus &&
            c.startLocation == ChargeLocation && c.endLocation == ChargeLocation &&
            c.until - c.from == ChargeSeconds(battery) &&
            -c.energy >= MaxLevel - battery && -c.energy >= 112.5 &&
            (prevEnd.Some? && prevEnd.value != 0 ==> c.from == prevEnd.value as real) &&
            (prevEnd.None? || prevEnd.value == 0 ==> c.until == start as real)
  {
  }

  /** What one row of the bus produces: the idle row (if any), the charging row (if any), the
      row itself; the battery after the idle deduction (`before`) and after the row (`level`). */
  datatype Stage = Stage(gap: seq<PlanRow>, charge: seq<PlanRow>, trip: Event, before: real, level: real)

  /** The promise about a single stage: at most one idle row, at the bus station, and at most
      one charging row, at the garage; a charging row exactly when the row's energy would take the battery under the minimum;
      the charge covers at least the way back to the maximum and at least 112.5 kWh; without
      a charge the level stays at or above the minimum, and after one it is the maximum minus
      the row's energy, so it is at or above the minimum exactly when that energy is at most
      204 kWh. */
  predicate Sound(bus: int, s: Stage) {
    && |s.gap| <= 1
    && (forall x :: x in s.gap ==> x.IdleGap? && x.bus == bus && x.end == s.trip.start && x.energy > 0.0 &&
                                   x.startLocation == IdleLocation && x.endLocation == IdleLocation)
    && |s.charge| <= 1
    && (s.charge != [] <==> s.before - s.trip.energy < MinLevel)
    && (forall x :: x in s.charge ==>
          x.ChargeStop? && x.bus == bus && x.until - x.from >= MinChargeSeconds &&
          x.startLocation == ChargeLocation && x.endLocation == ChargeLocation &&
          -x.energy >= MaxLevel - s.before && -x.energy >= 112.5)
    && (s.charge == [] ==> s.level == s.before - s.trip.energy && s.level >= MinLevel)
    && (s.charge != [] ==> s.level == MaxLevel - s.trip.energy &&
                           (s.level >= MinLevel <==> s.trip.energy <= MaxLevel - MinLevel))
  }

  /** The stage of one row, the previous row having ended at `prevEnd` (None for the first
      row of the bus) and left the battery at `battery`. */
  function StageAt(bus: int, prevEnd: Option<int>, battery: real, row: Event): Stage {
    var gap := GapRows(bus, prevEnd, row.start);
    var before := battery - GapDrain(gap);
    if before - row.energy < MinLevel then
      Stage(gap, [ChargeRow(bus, prevEnd, row.start, before)], row, before, MaxLevel - row.energy)
    else
      Stage(gap, [], row, before, before - row.energy)
  }

  /** Every stage keeps the promise of Sound; the idle energy is taken from the battery the
      previous row left, with no check; there is an idle row exactly when the row starts after
      the previous one ended. */
  lemma StageKeepsPromise(bus: int, prevEnd: Option<int>, battery: real, row: Event)
    ensures var s := StageAt(bus, prevEnd, battery, row);
            Sound(bus, s) && s.trip == row &&
            s.before == battery - GapDrain(s.gap) &&
            (s.gap != [] <==> prevEnd.Some? && row.start > prevEnd.value)
  {
    GapRowsFacts(bus, prevEnd, row.start);
    ChargeRowFacts(bus, prevEnd, row.start, battery - GapDrain(GapRows(bus, prevEnd, row.start)));
  }

  /** The stages of the rows from position i on, the previous row having ended at `prevEnd`
      and left the battery at `battery`: one stage per row. */
  function StagesFrom(bus: int, rows: seq<Event>, i: nat, prevEnd: Option<int>, battery: real): (st: seq<Stage>)
    requires i <= |rows|
    ensures |st| == |rows| - i
    decreases |rows| - i
  {
    if i == |rows| then []
    else
      var s := StageAt(bus, prevEnd, battery, rows[i]);
      [s] + StagesFrom(bus, rows, i + 1, Some(rows[i].end), s.level)
  }

  /** The stages from row i: the stage of row i, then the stages from row i + 1 made from
      the end of row i and the level that stage left. */
  lemma StagesCons(bus: int, rows: seq<Event>, i: nat, prevEnd: Option<int>, battery: real)
    requires i < |rows|
    ensures var st := StagesFrom(bus, rows, i, prevEnd, battery);
            st[0] == StageAt(bus, prevEnd, battery, rows[i]) &&
            st[1..] == StagesFrom(bus, rows, i + 1, Some(rows[i].end), st[0].level)
  {
    var s := StageAt(bus, prevEnd, battery, rows[i]);
    assert StagesFrom(bus, rows, i, prevEnd, battery) ==
           [s] + StagesFrom(bus, rows, i + 1, Some(rows[i].end), s.level);
  }

  /** One link of the chain: the stage of row p + 1 is made from the end of row p and the
      level the stage of row p left. */
  lemma {:induction false} StageLink(bus: int, rows: seq<Event>, i: nat, prevEnd: Option<int>, battery: real, p: nat)
    requires i <= p && p + 1 < |rows|
    ensures var st := StagesFrom(bus, rows, i, prevEnd, battery);
            st[p + 1 - i] == StageAt(bus, Some(rows[p].end), st[p - i].level, rows[p + 1])
    decreases p - i
  {
    var st := StagesFrom(bus, rows, i, prevEnd, battery);
    StagesCons(bus, rows, i, prevEnd, battery);
    var rest := StagesFrom(bus, rows, i + 1, Some(rows[i].end), st[0].level);
    if p == i {
      StagesCons(bus, rows, i + 1, Some(rows[i].end), st[0].level);
      assert st[1] == rest[0];
    } else {
      StageLink(bus, rows, i + 1, Some(rows[i].end), st[0].level, p);
      TailIndex(st, rest, p - i);
    }
  }

  /** Dropping the first stage shifts every later index down by one. */
  lemma TailIndex(st: seq<Stage>, rest: seq<Stage>, q: nat)
    requires 0 < q && q + 1 < |st| && st[1..] == rest
    ensures st[q + 1] == rest[q] && st[q] == rest[q - 1]
  {
  }

  /** The closed form of the stages: the first is made from `prevEnd` and `battery`, and every
      later one from the end and the level of the row before it. */
  lemma StagesChain(bus: int, rows: seq<Event>, i: nat, prevEnd: Option<int>, battery: real)
    requires i <= |rows|
    ensures var st := StagesFrom(bus, rows, i, prevEnd, battery);
            (|st| > 0 ==> st[0] == StageAt(bus, prevEnd, battery, rows[i])) &&
            forall j, k :: 0 <= j && k == j + 1 && k < |st| ==>
              st[k] == StageAt(bus, Some(rows[i + j].end), st[j].level, rows[i + k])
  {
    var st := StagesFrom(bus, rows, i, prevEnd, battery);
    forall j, k | 0 <= j && k == j + 1 && k < |st|
      ensures st[k] == StageAt(bus, Some(rows[i + j].end), st[j].level, rows[i + k])
    {
      var p := i + j;
      StageLink(bus, rows, i, prevEnd, battery, p);
      assert p + 1 - i == k && p - i == j;
      assert rows[p] == rows[i + j] && rows[p + 1] == rows[i + k];
      assert st[p + 1 - i] == st[k] && st[p - i] == st[j];
    }
  }

  /** Every stage keeps its promise, in order: one stage per row; the idle energy is taken
      from the level the previous row left, unchecked; and an idle row stands before a row
      exactly when it starts after the previous row ended. */
  lemma StagesKeepPromise(bus: int, rows: seq<Event>, i: nat, prevEnd: Option<int>, battery: real)
    requires i <= |rows|
    ensures var st := StagesFrom(bus, rows, i, prevEnd, battery);
            |st| == |rows| - i &&
            (forall k :: 0 <= k < |st| ==> st[k].trip == rows[i + k] && Sound(bus, st[k])) &&
            StagesLinkUp(st, rows, i, prevEnd, battery)
  {
    StagesSound(bus, rows, i, prevEnd, battery);
    StagesLinked(bus, rows, i, prevEnd, battery);
  }

  /** The stages from row i link up: the idle energy of each is taken from the level the
      stage before it left (the first from `battery`), and it has an idle row exactly when its
      row starts after the previous one ended. */
  ghost predicate StagesLinkUp(st: seq<Stage>, rows: seq<Event>, i: nat, prevEnd: Option<int>, battery: real)
    requires i <= |rows| && |st| == |rows| - i
  {
    (|st| > 0 ==> st[0].before == battery - GapDrain(st[0].gap) &&
                  (st[0].gap != [] <==> prevEnd.Some? && rows[i].start > prevEnd.value)) &&
    (forall j, k :: 0 <= j && k == j + 1 && k < |st| ==>
       st[k].before == st[j].level - GapDrain(st[k].gap) &&
       (st[k].gap != [] <==> rows[i + k].start > rows[i + j].end))
  }

  /** Each stage holds its own row and keeps the promise of Sound. */
  lemma StagesSound(bus: int, rows: seq<Event>, i: nat, prevEnd: Option<int>, battery: real)
    requires i <= |rows|
    ensures var st := StagesFrom(bus, rows, i, prevEnd, battery);
            forall k :: 0 <= k < |st| ==> st[k].trip == rows[i + k] && Sound(bus, st[k])
  {
    var st := StagesFrom(bus, rows, i, prevEnd, battery);
    StagesChain(bus, rows, i, prevEnd, battery);
    forall k | 0 <= k < |st|
      ensures st[k].trip == rows[i + k] && Sound(bus, st[k])
    {
      if k > 0 {
        assert st[k] == StageAt(bus, Some(rows[i + k - 1].end), st[k - 1].level, rows[i + k]);
        StageKeepsPromise(bus, Some(rows[i + k - 1].end), st[k - 1].level, rows[i + k]);
      } else {
        StageKeepsPromise(bus, prevEnd, battery, rows[i]);
      }
    }
  }

  /** The idle energy of each stage is taken from the level the stage before it left, and
      it has an idle row exactly when its row starts after the previous one ended. */
  lemma StagesLinked(bus: int, rows: seq<Event>, i: nat, prevEnd: Option<int>, battery: real)
    requires i <= |rows|
    ensures StagesLinkUp(StagesFrom(bus, rows, i, prevEnd, battery), rows, i, prevEnd, battery)
  {
    var st := StagesFrom(bus, rows, i, prevEnd, battery);
    StagesChain(bus, rows, i, prevEnd, battery);
    forall j, k | 0 <= j && k == j + 1 && k < |st|
      ensures st[k].before == st[j].level - GapDrain(st[k].gap)
      ensures st[k].gap != [] <==> rows[i + k].start > rows[i + j].end
    {
      StageKeepsPromise(bus, Some(rows[i + j].end), st[j].level, rows[i + k]);
    }
    if |st| > 0 {
      StageKeepsPromise(bus, prevEnd, battery, rows[i]);
    }
  }

  /** The rows the stages append, in order. */
  function Flatten(st: seq<Stage>): seq<PlanRow> {
    if st == [] then []
    else st[0].gap + st[0].charge + [Trip(st[0].trip)] + Flatten(st[1..])
  }

  /** The new plan of one bus, given its rows in start order. */
  function RepairedRows(bus: int, rows: seq<Event>): seq<PlanRow> {
    Flatten(StagesFrom(bus, rows, 0, None, MaxLevel))
  }

  /** The plan from row i on: the rows of the stage of row i, then the plan from row i + 1. */
  lemma FlattenStep(bus: int, rows: seq<Event>, i: nat, prevEnd: Option<int>, battery: real)
    requires i < |rows|
    ensures var s := StageAt(bus, prevEnd, battery, rows[i]);
            Flatten(StagesFrom(bus, rows, i, prevEnd, battery)) ==
              s.gap + s.charge + [Trip(rows[i])] + Flatten(StagesFrom(bus, rows, i + 1, Some(rows[i].end), s.level))
  {
    var s := StageAt(bus, prevEnd, battery, rows[i]);
    var rest := StagesFrom(bus, rows, i + 1, Some(rows[i].end), s.level);
    assert StagesFrom(bus, rows, i, prevEnd, battery) == [s] + rest;
    assert ([s] + rest)[1..] == rest;
  }

  /** One step of the loop over the rows: what is appended for row i, then the rest. */
  lemma RepairLoopStep(bus: int, rows: seq<Event>, i: nat, prevEnd: Option<int>, battery: real, out: seq<PlanRow>)
    requires i < |rows|
    ensures var s := StageAt(bus, prevEnd, battery, rows[i]);
            out + Flatten(StagesFrom(bus, rows, i, prevEnd, battery)) ==
              (out + (s.gap + s.charge + [Trip(rows[i])])) + Flatten(StagesFrom(bus, rows, i + 1, Some(rows[i].end), s.level))
  {
    var s := StageAt(bus, prevEnd, battery, rows[i]);
    var tail := Flatten(StagesFrom(bus, rows, i + 1, Some(rows[i].end), s.level));
    FlattenStep(bus, rows, i, prevEnd, battery);
    assert s.gap + s.charge + [Trip(rows[i])] + tail == (s.gap + s.charge + [Trip(rows[i])]) + tail;
    ConcatAssoc(out, s.gap + s.charge + [Trip(rows[i])], tail);
  }

  /** The body of the loop over the rows: the idle row of the gap, if any, with its energy
      taken from the battery; the charging row, if the trip would leave the battery under
      the minimum; then the trip itself. */
  method RepairRow(bus: int, prevEnd: Option<int>, battery: real, row: Event)
    returns (appended: seq<PlanRow>, level: real)
    ensures var s := StageAt(bus, prevEnd, battery, row);
            appended == s.gap + s.charge + [Trip(row)] && level == s.level
  {
    ghost var s := StageAt(bus, prevEnd, battery, row);
    appended := [];
    level := battery;
    if prevEnd.Some? && row.start > prevEnd.value {
      var idle := IdleEnergy(prevEnd.value, row.start);
      appended := appended + [IdleGap(bus, prevEnd.value, row.start, idle, IdleLocation, IdleLocation)];
      level := level - idle;
    }
    assert appended == s.gap && level == s.before;
    var e := row.energy;
    if level - e < MinLevel {
      // the charge end also becomes prev_end, but the row's own end replaces it after the trip
      appended := appended + [ChargeRow(bus, prevEnd, row.start, level)];
      level := MaxLevel;
    }
    appended := appended + [Trip(row)];
    level := level - e;
  }

  /** The loop over the rows of one bus. */
  method RepairBus(bus: int, rows: seq<Event>) returns (out: seq<PlanRow>)
    ensures out == RepairedRows(bus, rows)
  {
    out := [];
    var prevEnd: Option<int> := None;
    var battery := MaxLevel;
    var i := 0;
    while i < |rows|
      invariant 0 <= i <= |rows|
      invariant out + Flatten(StagesFrom(bus, rows, i, prevEnd, battery)) == RepairedRows(bus, rows)
    {
      var row := rows[i];
      RepairLoopStep(bus, rows, i, prevEnd, battery, out);
      var appended, level := RepairRow(bus, prevEnd, battery, row);
      out := out + appended;
      battery := level;
      prevEnd := Some(row.end);
      i := i + 1;
    }
  }

  /** The plans of the groups from k on, each bus's rows sorted by start first. */
  function FleetPlan(groups: seq<Group>, k: nat): seq<PlanRow>
    requires k <= |groups|
    decreases |groups| - k
  {
    if k == |groups| then []
    else RepairedRows(groups[k].bus, SortByStart(groups[k].rows)) + FleetPlan(groups, k + 1)
  }

  lemma FleetLoopStep(groups: seq<Group>, k: nat, acc: seq<PlanRow>)
    requires k < |groups|
    ensures acc + FleetPlan(groups, k)
            == (acc + RepairedRows(groups[k].bus, SortByStart(groups[k].rows))) + FleetPlan(groups, k + 1)
  {
    var head := RepairedRows(groups[k].bus, SortByStart(groups[k].rows));
    var tail := FleetPlan(groups, k + 1);
    assert FleetPlan(groups, k) == head + tail;
    ConcatAssoc(acc, head, tail);
  }

  /** The loop over the buses. */
  method RepairFleet(groups: seq<Group>) returns (plan: seq<PlanRow>)
    ensures plan == FleetPlan(groups, 0)
  {
    plan := [];
    var k := 0;
    while k < |groups|
      invariant 0 <= k <= |groups|
      invariant plan + FleetPlan(groups, k) == FleetPlan(groups, 0)
    {
      var busRows := SortByStart(groups[k].rows);
      var out := RepairBus(groups[k].bus, busRows);
      FleetLoopStep(groups, k, plan);
      plan := plan + out;
      k := k + 1;
    }
  }

  /** make_feasible_busplan on the sheet, buses ascending. */
  method MakeFeasibleBusplan(rows: seq<Row>) returns (plan: seq<PlanRow>)
    ensures plan == FleetPlan(GroupByBus(RawTable(rows)), 0)
  {
    plan := RepairFleet(GroupByBus(RawTable(rows)));
  }

  // ---------------------------------------------------------------------------
  // What the new plan keeps

  /** The original rows in the plan, in order. */
  function TripsOf(p: seq<PlanRow>): seq<Event> {
    if p == [] then []
    else (if p[0].Trip? then [p[0].event] else []) + TripsOf(p[1..])
  }

  lemma {:induction false} TripsOfAppend(a: seq<PlanRow>, b: seq<PlanRow>)
    ensures TripsOf(a + b) == TripsOf(a) + TripsOf(b)
  {
    if a != [] {
      assert (a + b)[0] == a[0] && (a + b)[1..] == a[1..] + b;
      TripsOfAppend(a[1..], b);
      var x := if a[0].Trip? then [a[0].event] else [];
      assert TripsOf(a + b) == x + TripsOf(a[1..] + b);
      assert TripsOf(a) == x + TripsOf(a[1..]);
    } else {
      assert a + b == b;
    }
  }

  lemma NoTrips(p: seq<PlanRow>)
    requires forall x :: x in p ==> !x.Trip?
    ensures TripsOf(p) == []
  {
    if p != [] {
      assert p[0] in p;
      NoTrips(p[1..]);
    }
  }

  /** Every original row is appended exactly once, in the order given, and nothing else the
      loop appends is taken for an original row. */
  lemma RepairKeepsTrips(bus: int, rows: seq<Event>, i: nat, prevEnd: Option<int>, battery: real)
    requires i <= |rows|
    ensures TripsOf(Flatten(StagesFrom(bus, rows, i, prevEnd, battery))) == rows[i..]
  {
    var st := StagesFrom(bus, rows, i, prevEnd, battery);
    StagesKeepPromise(bus, rows, i, prevEnd, battery);
    forall k, x | 0 <= k < |st| && x in st[k].gap + st[k].charge
      ensures !x.Trip?
    {
      assert Sound(bus, st[k]);
    }
    FlattenTrips(st);
  }

  /** The original rows of a flattened list of stages are the stages' own rows, when the idle
      and charging rows hold none. */
  lemma {:induction false} FlattenTrips(st: seq<Stage>)
    requires forall k, x :: 0 <= k < |st| && x in st[k].gap + st[k].charge ==> !x.Trip?
    ensures TripsOf(Flatten(st)) == seq(|st|, k requires 0 <= k < |st| => st[k].trip)
  {
    if st != [] {
      var s := st[0];
      var head := s.gap + s.charge + [Trip(s.trip)];
      var tail := Flatten(st[1..]);
      assert Flatten(st) == head + tail;
      FlattenTrips(st[1..]);
      NoTrips(s.gap + s.charge);
      TripsOfAppend(s.gap + s.charge, [Trip(s.trip)]);
      assert TripsOf([Trip(s.trip)]) == [s.trip];
      TripsOfAppend(head, tail);
      assert seq(|st|, k requires 0 <= k < |st| => st[k].trip) ==
             [s.trip] + seq(|st[1..]|, k requires 0 <= k < |st[1..]| => st[1..][k].trip);
    }
  }

  /** Each bus's plan holds exactly its rows, sorted by start, as its original rows. */
  lemma BusPlanTrips(g: Group)
    ensures TripsOf(RepairedRows(g.bus, SortByStart(g.rows))) == SortByStart(g.rows)
    ensures multiset(TripsOf(RepairedRows(g.bus, SortByStart(g.rows)))) == multiset(g.rows)
    ensures SortedByStart(TripsOf(RepairedRows(g.bus, SortByStart(g.rows))))
  {
    RepairKeepsTrips(g.bus, SortByStart(g.rows), 0, None, MaxLevel);
    assert SortByStart(g.rows)[0..] == SortByStart(g.rows);
  }

  // ---------------------------------------------------------------------------
  // When no charge is needed

  /** The reference run of the bus without any charging: the check never fires when every
      row, after the idle deduction, leaves at least the minimum. */
  predicate NeverFires(rows: seq<Event>, i: nat, prevEnd: Option<int>, battery: real)
    requires i <= |rows|
    decreases |rows| - i
  {
    i == |rows| ||
    var before := battery - IdleDrain(prevEnd, rows[i].start);
    before - rows[i].energy >= MinLevel && NeverFires(rows, i + 1, Some(rows[i].end), before - rows[i].energy)
  }

  /** The energy an idle gap takes: 5 kW over the gap, if there is one. */
  function IdleDrain(prevEnd: Option<int>, start: int): real {
    if prevEnd.Some? && start > prevEnd.value then IdleEnergy(prevEnd.value, start) else 0.0
  }

  /** The plan with only the idle rows filled in. */
  function Unrepaired(bus: int, rows: seq<Event>, i: nat, prevEnd: Option<int>): seq<PlanRow>
    requires i <= |rows|
    decreases |rows| - i
  {
    if i == |rows| then []
    else GapRows(bus, prevEnd, rows[i].start) + [Trip(rows[i])] + Unrepaired(bus, rows, i + 1, Some(rows[i].end))
  }

  predicate NoCharges(st: seq<Stage>) {
    forall k :: 0 <= k < |st| ==> st[k].charge == []
  }

  /** No charging row is inserted exactly when the check never fires on the run without
      charging. */
  lemma {:induction false} NoChargeIff(bus: int, rows: seq<Event>, i: nat, prevEnd: Option<int>, battery: real)
    requires i <= |rows|
    ensures NoCharges(StagesFrom(bus, rows, i, prevEnd, battery)) <==> NeverFires(rows, i, prevEnd, battery)
    decreases |rows| - i
  {
    var st := StagesFrom(bus, rows, i, prevEnd, battery);
    if i < |rows| {
      var after := battery - IdleDrain(prevEnd, rows[i].start) - rows[i].energy;
      HeadCharge(bus, rows, i, prevEnd, battery);
      NoChargeIff(bus, rows, i + 1, Some(rows[i].end), st[0].level);
      assert NeverFires(rows, i, prevEnd, battery) <==>
             after >= MinLevel && NeverFires(rows, i + 1, Some(rows[i].end), after);
      if after >= MinLevel {
        assert st[0].level == after;
      }
      NoChargeStep(st, NeverFires(rows, i, prevEnd, battery),
                   NeverFires(rows, i + 1, Some(rows[i].end), after), after < MinLevel);
    }
  }

  /** No stage charges exactly when the first does not fire and none after it charges. */
  lemma NoChargeStep(st: seq<Stage>, never: bool, neverRest: bool, fires: bool)
    requires st != []
    requires st[0].charge == [] <==> !fires
    requires never <==> !fires && neverRest
    requires !fires ==> (NoCharges(st[1..]) <==> neverRest)
    ensures NoCharges(st) <==> never
  {
    NoChargesCons(st[0], st[1..]);
    assert st == [st[0]] + st[1..];
  }

  /** The first of the stages from row i charges exactly when row i would take the battery,
      drained by the idle gap, under the minimum; the stages after it start from its level. */
  lemma HeadCharge(bus: int, rows: seq<Event>, i: nat, prevEnd: Option<int>, battery: real)
    requires i < |rows|
    ensures var st := StagesFrom(bus, rows, i, prevEnd, battery);
            var before := battery - IdleDrain(prevEnd, rows[i].start);
            (st[0].charge == [] <==> before - rows[i].energy >= MinLevel) &&
            (st[0].charge == [] ==> st[0].level == before - rows[i].energy) &&
            st[1..] == StagesFrom(bus, rows, i + 1, Some(rows[i].end), st[0].level)
  {
    StagesCons(bus, rows, i, prevEnd, battery);
    StageCharge(bus, prevEnd, battery, rows[i]);
  }

  /** A stage charges exactly when the trip would take the battery, drained by the idle gap,
      under the minimum; otherwise it leaves that battery minus the trip. */
  lemma StageCharge(bus: int, prevEnd: Option<int>, battery: real, row: Event)
    ensures var s := StageAt(bus, prevEnd, battery, row);
            var before := battery - IdleDrain(prevEnd, row.start);
            (s.charge == [] <==> before - row.energy >= MinLevel) &&
            (s.charge == [] ==> s.level == before - row.energy)
  {
    var s := StageAt(bus, prevEnd, battery, row);
    assert s.before == battery - IdleDrain(prevEnd, row.start);
  }

  lemma NoChargesCons(s: Stage, rest: seq<Stage>)
    ensures NoCharges([s] + rest) <==> s.charge == [] && NoCharges(rest)
  {
    var st := [s] + rest;
    if s.charge == [] && NoCharges(rest) {
      forall k | 0 <= k < |st|
        ensures st[k].charge == []
      {
        if k > 0 {
          assert st[k] == rest[k - 1];
        }
      }
    }
    if NoCharges(st) {
      assert st[0] == s;
      forall k | 0 <= k < |rest|
        ensures rest[k].charge == []
      {
        assert rest[k] == st[k + 1];
      }
    }
  }

  /** When the check never fires, the new plan is the original rows with the idle rows in
      between. */
  lemma {:induction false} NoChargeMeansIdleOnly(bus: int, rows: seq<Event>, i: nat, prevEnd: Option<int>, battery: real)
    requires i <= |rows|
    requires NeverFires(rows, i, prevEnd, battery)
    ensures Flatten(StagesFrom(bus, rows, i, prevEnd, battery)) == Unrepaired(bus, rows, i, prevEnd)
    decreases |rows| - i
  {
    if i < |rows| {
      var s := StageAt(bus, prevEnd, battery, rows[i]);
      FlattenStep(bus, rows, i, prevEnd, battery);
      assert s.before == battery - IdleDrain(prevEnd, rows[i].start);
      assert s.charge == [];
      NoChargeMeansIdleOnly(bus, rows, i + 1, Some(rows[i].end), s.level);
    }
  }

  /** A charging row inserted into a gap after a row that ended at a non-zero second starts
      where the idle row of the same gap starts: the new plan can have the bus idle and
      charging at once. */
  lemma ChargeStartsWithIdle(bus: int, rows: seq<Event>, i: nat, prevEnd: Option<int>, battery: real, k: nat)
    requires i <= |rows|
    requires k < |rows| - i
    requires var st := StagesFrom(bus, rows, i, prevEnd, battery);
             st[k].gap != [] && st[k].charge != [] &&
             (if k == 0 then prevEnd.Some? && prevEnd.value != 0 else rows[i + k - 1].end != 0)
    ensures var st := StagesFrom(bus, rows, i, prevEnd, battery);
            st[k].gap[0].IdleGap? && st[k].charge[0].ChargeStop? &&
            st[k].charge[0].from == st[k].gap[0].start as real
  {
    var st := StagesFrom(bus, rows, i, prevEnd, battery);
    StagesChain(bus, rows, i, prevEnd, battery);
    if k > 0 {
      assert st[k] == StageAt(bus, Some(rows[i + k - 1].end), st[k - 1].level, rows[i + k]);
    }
  }
}
