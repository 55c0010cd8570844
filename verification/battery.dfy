/** The battery simulation of the energy checkers. Each bus starts at 90% of a 255 kWh
    battery, every row's 'energy consumption' is subtracted in turn, and the bus is infeasible
    when the level would fall under 10%. The copies differ in where the check sits and in
    whether the loop stops; each variant is a function of the energies of one bus, and the
    lemmas relate the variants to each other and to the levels the bus passes through. */
module Battery {
  import opened Schedule

  /** State of health: the usable capacity in kWh. */
  const Capacity: real := 255.0
  /** 10% of the capacity: 25.5 kWh. */
  const MinLevel: real := 0.10 * Capacity
  /** 90% of the capacity, where every bus starts: 229.5 kWh. */
  const MaxLevel: real := 0.90 * Capacity
  /** Charging speed in kWh per hour. */
  const ChargeRate: real := 450.0

  /** set_energy_variables of Project5EnergyMeerdereBussen: (min, max). */
  function EnergyVariables(): (levels: (real, real))
    ensures levels.0 == 25.5 && levels.1 == 229.5
    ensures levels.0 < levels.1 && levels.1 - levels.0 == 0.8 * Capacity
  {
    (MinLevel, MaxLevel)
  }

  /** How the loop over one bus ended: whether no check fired, how many rows were processed
      before it stopped (the position of the failing row, or all rows), the positive
      energy counted and the battery level at the end. */
  datatype Run = Run(feasible: bool, stop: nat, consumed: real, level: real)

  /** The level after the rows es[i..j] starting from `level`. */
  function LevelAfter(es: seq<real>, i: nat, j: nat, level: real): real
    requires i <= j <= |es|
  {
    level - SumRange(es, i, j)
  }

  lemma {:induction false} SumRangeSnoc(es: seq<real>, i: nat, j: nat)
    requires i <= j < |es|
    ensures SumRange(es, i, j + 1) == SumRange(es, i, j) + es[j]
    decreases j - i
  {
    if i < j {
      SumRangeSnoc(es, i + 1, j);
    }
  }

  lemma {:induction false} PositiveSumRangeSnoc(es: seq<real>, i: nat, j: nat)
    requires i <= j < |es|
    ensures PositiveSumRange(es, i, j + 1) == PositiveSumRange(es, i, j) + Positive(es[j])
    decreases j - i
  {
    if i < j {
      PositiveSumRangeSnoc(es, i + 1, j);
    }
  }

  // ---------------------------------------------------------------------------
  // Check before the subtraction, stop at the first violation
  // (combined4 Energy_Checker, Project5EnergyMeerdereBussen check_feasible_per_route)

  function PreCheckFrom(es: seq<real>, i: nat, level: real, consumed: real): (r: Run)
    requires i <= |es|
    ensures i <= r.stop <= |es| && (r.feasible <==> r.stop == |es|)
    decreases |es| - i
  {
    if i == |es| then Run(true, i, consumed, level)
    else if level - es[i] < MinLevel then Run(false, i, consumed, level)
    else PreCheckFrom(es, i + 1, level - es[i], consumed + Positive(es[i]))
  }

  function PreCheck(es: seq<real>): Run {
    PreCheckFrom(es, 0, MaxLevel, 0.0)
  }

  /** The pre-check stops at the first row that would take the level under the minimum;
      every row before it was processed, leaving the level at or above the minimum, and
      only those rows' positive energies are counted. */
  lemma {:induction false} PreCheckFacts(es: seq<real>, i: nat, level: real, consumed: real)
    requires i <= |es|
    ensures var r := PreCheckFrom(es, i, level, consumed);
            i <= r.stop <= |es| &&
            (r.feasible <==> r.stop == |es|) &&
            r.level == LevelAfter(es, i, r.stop, level) &&
            r.consumed == consumed + PositiveSumRange(es, i, r.stop) &&
            (forall k :: i < k <= r.stop ==> LevelAfter(es, i, k, level) >= MinLevel) &&
            (!r.feasible ==> r.level - es[r.stop] < MinLevel)
    decreases |es| - i
  {
    if i < |es| && level - es[i] >= MinLevel {
      PreCheckFacts(es, i + 1, level - es[i], consumed + Positive(es[i]));
      var r := PreCheckFrom(es, i, level, consumed);
      forall k | i < k <= r.stop
        ensures LevelAfter(es, i, k, level) >= MinLevel
      {
        assert LevelAfter(es, i, k, level) == LevelAfter(es, i + 1, k, level - es[i]);
      }
    }
  }

  /** A bus passes the pre-check exactly when the level after each of its rows, counted from
      the full 229.5 kWh, stays at or above 25.5 kWh; when it fails, it fails at the first
      row after which the level is under the minimum. */
  lemma PreCheckVerdict(es: seq<real>)
    ensures PreCheck(es).feasible <==> forall k :: 0 < k <= |es| ==> LevelAfter(es, 0, k, MaxLevel) >= MinLevel
    ensures !PreCheck(es).feasible ==>
              LevelAfter(es, 0, PreCheck(es).stop + 1, MaxLevel) < MinLevel &&
              forall k :: 0 < k <= PreCheck(es).stop ==> LevelAfter(es, 0, k, MaxLevel) >= MinLevel
  {
    PreCheckFacts(es, 0, MaxLevel, 0.0);
    var r := PreCheck(es);
    if !r.feasible {
      SumRangeSnoc(es, 0, r.stop);
      assert LevelAfter(es, 0, r.stop + 1, MaxLevel) < MinLevel;
    }
  }

  /** The level never drops under the minimum on a row the pre-check processed. */
  lemma PreCheckKeepsMinimum(es: seq<real>)
    ensures PreCheck(es).level >= MinLevel
    ensures PreCheck(es).consumed == PositiveSumRange(es, 0, PreCheck(es).stop)
  {
    PreCheckFacts(es, 0, MaxLevel, 0.0);
  }

  // ---------------------------------------------------------------------------
  // Subtract, then check the new level, stop at the first violation
  // (pipodeclown and Project5MeerdereBussen Energy_Checker, Project5Energy)

  function PostCheckFrom(es: seq<real>, i: nat, level: real, consumed: real): (r: Run)
    requires i <= |es|
    ensures i <= r.stop <= |es| && (r.feasible <==> r.stop == |es|)
    decreases |es| - i
  {
    if i == |es| then Run(true, i, consumed, level)
    else
      var used := consumed + Positive(es[i]);
      var next := level - es[i];
      if next < MinLevel then Run(false, i, used, next)
      else PostCheckFrom(es, i + 1, next, used)
  }

  function PostCheck(es: seq<real>): Run {
    PostCheckFrom(es, 0, MaxLevel, 0.0)
  }

  /** `level - e < min` and `(level - e) < min` are the same test, so both variants stop at
      the same row with the same verdict; the post-check has also counted and subtracted the
      failing row. */
  lemma {:induction false} PostAgreesWithPre(es: seq<real>, i: nat, level: real, consumed: real)
    requires i <= |es|
    ensures var p := PreCheckFrom(es, i, level, consumed);
            var q := PostCheckFrom(es, i, level, consumed);
            q.feasible == p.feasible && q.stop == p.stop &&
            (p.feasible ==> q == p) &&
            (!p.feasible ==> p.stop < |es| && q.consumed == p.consumed + Positive(es[p.stop]) &&
                             q.level == p.level - es[p.stop])
    decreases |es| - i
  {
    if i < |es| && level - es[i] >= MinLevel {
      PostAgreesWithPre(es, i + 1, level - es[i], consumed + Positive(es[i]));
    }
  }

  lemma PostCheckVerdict(es: seq<real>)
    ensures PostCheck(es).feasible <==> forall k :: 0 < k <= |es| ==> LevelAfter(es, 0, k, MaxLevel) >= MinLevel
    ensures PostCheck(es).stop == PreCheck(es).stop
    ensures PostCheck(es).feasible ==> PostCheck(es).consumed == PositiveSumRange(es, 0, |es|)
    ensures !PostCheck(es).feasible ==>
              PostCheck(es).consumed == PositiveSumRange(es, 0, PostCheck(es).stop + 1) &&
              PostCheck(es).level == LevelAfter(es, 0, PostCheck(es).stop + 1, MaxLevel) &&
              PostCheck(es).level < MinLevel
  {
    PostAgreesWithPre(es, 0, MaxLevel, 0.0);
    PreCheckVerdict(es);
    PreCheckFacts(es, 0, MaxLevel, 0.0);
    var p := PreCheck(es);
    if !p.feasible {
      PositiveSumRangeSnoc(es, 0, p.stop);
      SumRangeSnoc(es, 0, p.stop);
    }
  }

  // ---------------------------------------------------------------------------
  // Check before the subtraction, never stop (combined8 Energy_Checker)

  /** The accumulators of the loop: the verdict so far, positive energy, the charge time
      (energy / 450 summed over rows with energy <= 0) and the level. */
  datatype Tally = Tally(feasible: bool, used: real, chargeHours: real, level: real)

  /** One row of the loop: the verdict turns false if the row would take the level under the
      minimum; a positive energy is counted as used, any other adds energy / 450 to the charge
      time; the energy is subtracted either way. */
  function NoBreakStep(t: Tally, e: real): (n: Tally)
    ensures n.feasible <==> t.feasible && t.level - e >= MinLevel
    ensures n.level == t.level - e
    ensures n.used == t.used + Positive(e) && n.chargeHours <= t.chargeHours
  {
    Tally(t.feasible && !(t.level - e < MinLevel),
          if e > 0.0 then t.used + e else t.used,
          if e > 0.0 then t.chargeHours else t.chargeHours + e / ChargeRate,
          t.level - e)
  }

  function NoBreakFrom(es: seq<real>, i: nat, t: Tally): Tally
    requires i <= |es|
    decreases |es| - i
  {
    if i == |es| then t
    else NoBreakFrom(es, i + 1, NoBreakStep(t, es[i]))
  }

  function NoBreak(es: seq<real>): Tally {
    NoBreakFrom(es, 0, Tally(true, 0.0, 0.0, MaxLevel))
  }

  lemma {:induction false} NoBreakFacts(es: seq<real>, i: nat, t: Tally)
    requires i <= |es|
    ensures var n := NoBreakFrom(es, i, t);
            n.feasible == (t.feasible && PreCheckFrom(es, i, t.level, 0.0).feasible) &&
            n.used == t.used + PositiveSumRange(es, i, |es|) &&
            n.level == LevelAfter(es, i, |es|, t.level) &&
            n.chargeHours <= t.chargeHours
    decreases |es| - i
  {
    if i < |es| {
      var e := es[i];
      var t' := NoBreakStep(t, e);
      NoBreakFacts(es, i + 1, t');
      if t.level - e >= MinLevel {
        PreCheckFrom0(es, i + 1, t.level - e, Positive(e));
      }
    }
  }

  /** The verdict of the pre-check does not depend on the energy counted so far. */
  lemma {:induction false} PreCheckFrom0(es: seq<real>, i: nat, level: real, consumed: real)
    requires i <= |es|
    ensures PreCheckFrom(es, i, level, consumed).feasible == PreCheckFrom(es, i, level, 0.0).feasible
    ensures PreCheckFrom(es, i, level, consumed).stop == PreCheckFrom(es, i, level, 0.0).stop
    decreases |es| - i
  {
    if i < |es| && level - es[i] >= MinLevel {
      PreCheckFrom0(es, i + 1, level - es[i], consumed + Positive(es[i]));
      PreCheckFrom0(es, i + 1, level - es[i], Positive(es[i]));
    }
  }

  /** Without the break every row is subtracted and counted, yet the verdict is the same as
      with it: infeasible exactly when some row would take the level under the minimum. The
      charge time it adds up is never positive. */
  lemma NoBreakVerdict(es: seq<real>)
    ensures NoBreak(es).feasible == PreCheck(es).feasible
    ensures NoBreak(es).feasible <==> forall k :: 0 < k <= |es| ==> LevelAfter(es, 0, k, MaxLevel) >= MinLevel
    ensures NoBreak(es).used == PositiveSumRange(es, 0, |es|)
    ensures NoBreak(es).level == LevelAfter(es, 0, |es|, MaxLevel)
    ensures NoBreak(es).chargeHours <= 0.0
  {
    NoBreakFacts(es, 0, Tally(true, 0.0, 0.0, MaxLevel));
    PreCheckVerdict(es);
  }

  /** A single charging row of -450 kWh is tallied as -1 hour of charging. */
  lemma NegativeChargeTime()
    ensures NoBreak([-450.0]).chargeHours == -1.0
  {
  }

  /** The charge time meant by "Total Charge Time": hours at 450 kWh/h to put back the energy
      of the rows with energy <= 0. */
  function ChargeHoursFrom(es: seq<real>, i: nat): (h: real)
    requires i <= |es|
    ensures h >= 0.0
    decreases |es| - i
  {
    if i == |es| then 0.0
    else (if es[i] > 0.0 then 0.0 else -es[i] / ChargeRate) + ChargeHoursFrom(es, i + 1)
  }

  /** The corrected charge time is the tallied one with its sign flipped. */
  lemma {:induction false} ChargeHoursCorrected(es: seq<real>, i: nat, t: Tally)
    requires i <= |es|
    ensures ChargeHoursFrom(es, i) == t.chargeHours - NoBreakFrom(es, i, t).chargeHours
    decreases |es| - i
  {
    if i < |es| {
      var e := es[i];
      ChargeHoursCorrected(es, i + 1, NoBreakStep(t, e));
    }
  }

  lemma ChargeHoursOfOneCharge()
    ensures ChargeHoursFrom([-450.0], 0) == 1.0
  {
  }

  // ---------------------------------------------------------------------------
  // Verdicts per bus

  /** The level after every row of the bus, counted from the full 229.5 kWh, is at least
      25.5 kWh. */
  predicate StaysAboveMinimum(es: seq<real>) {
    forall k :: 0 < k <= |es| ==> LevelAfter(es, 0, k, MaxLevel) >= MinLevel
  }

  /** Row i is the first row after which the level is under the minimum. */
  predicate FirstFailure(es: seq<real>, i: nat) {
    i < |es| && LevelAfter(es, 0, i + 1, MaxLevel) < MinLevel &&
    forall k :: 0 < k <= i ==> LevelAfter(es, 0, k, MaxLevel) >= MinLevel
  }

  /** What a checker reports for one bus: the verdict, the positive energy it counted, the
      number in its "infeasible ... route N" message (None when it reports the bus feasible)
      and the battery level when it left the bus. */
  datatype BusVerdict = BusVerdict(bus: int, feasible: bool, used: real, route: Option<int>, level: real)

  /** The pre-check in terms of the levels: it passes exactly the buses that stay above the
      minimum, and otherwise stops at the first failure, having counted the rows before it. */
  lemma PreCheckMeaning(es: seq<real>)
    ensures PreCheck(es).feasible <==> StaysAboveMinimum(es)
    ensures PreCheck(es).feasible ==> PreCheck(es).consumed == PositiveSumRange(es, 0, |es|)
    ensures !PreCheck(es).feasible ==>
              FirstFailure(es, PreCheck(es).stop) &&
              PreCheck(es).consumed == PositiveSumRange(es, 0, PreCheck(es).stop) &&
              PreCheck(es).level == LevelAfter(es, 0, PreCheck(es).stop, MaxLevel) &&
              PreCheck(es).level >= MinLevel
  {
    PreCheckVerdict(es);
    PreCheckFacts(es, 0, MaxLevel, 0.0);
  }

  /** The post-check in the same terms: the same verdict and stopping row, with the failing
      row counted and subtracted. */
  lemma PostCheckMeaning(es: seq<real>)
    ensures PostCheck(es).feasible <==> StaysAboveMinimum(es)
    ensures PostCheck(es).feasible ==> PostCheck(es).consumed == PositiveSumRange(es, 0, |es|)
    ensures !PostCheck(es).feasible ==>
              FirstFailure(es, PostCheck(es).stop) &&
              PostCheck(es).consumed == PositiveSumRange(es, 0, PostCheck(es).stop + 1) &&
              PostCheck(es).level == LevelAfter(es, 0, PostCheck(es).stop + 1, MaxLevel) &&
              PostCheck(es).level < MinLevel
  {
    PostCheckVerdict(es);
    PreCheckMeaning(es);
  }

  /** The verdict of a pre-check with break (combined4, Project5EnergyMeerdereBussen): the
      message names the failing row's index label plus one. */
  function PreVerdict(g: Group): (v: BusVerdict)
    ensures v.bus == g.bus
    ensures v.feasible <==> StaysAboveMinimum(Energies(g.rows))
    ensures v.feasible ==> v.route == None && v.used == PositiveSumRange(Energies(g.rows), 0, |g.rows|)
    ensures !v.feasible ==>
              (exists i: nat :: FirstFailure(Energies(g.rows), i) && i < |g.rows| &&
                 v.route == Some(g.rows[i].index + 1) && v.used == PositiveSumRange(Energies(g.rows), 0, i) &&
                 v.level == LevelAfter(Energies(g.rows), 0, i, MaxLevel) && v.level >= MinLevel)
  {
    var es := Energies(g.rows);
    var r := PreCheck(es);
    PreCheckMeaning(es);
    var v := BusVerdict(g.bus, r.feasible, r.consumed, if r.feasible then None else Some(g.rows[r.stop].index + 1), r.level);
    if !r.feasible then
      assert FirstFailure(es, r.stop) && r.stop < |g.rows| && v.route == Some(g.rows[r.stop].index + 1);
      v
    else v
  }

  /** The verdict of a post-check with break (pipodeclown, Project5MeerdereBussen): the failing
      row is counted and subtracted, and the message gives its index label plus one and the
      level under the minimum. */
  function PostVerdict(g: Group): (v: BusVerdict)
    ensures v.bus == g.bus
    ensures v.feasible <==> StaysAboveMinimum(Energies(g.rows))
    ensures v.feasible ==> v.route == None && v.used == PositiveSumRange(Energies(g.rows), 0, |g.rows|)
    ensures !v.feasible ==>
              (exists i: nat :: FirstFailure(Energies(g.rows), i) && i < |g.rows| &&
                 v.route == Some(g.rows[i].index + 1) && v.used == PositiveSumRange(Energies(g.rows), 0, i + 1) &&
                 v.level == LevelAfter(Energies(g.rows), 0, i + 1, MaxLevel) && v.level < MinLevel)
  {
    var es := Energies(g.rows);
    var r := PostCheck(es);
    PostCheckMeaning(es);
    var v := BusVerdict(g.bus, r.feasible, r.consumed, if r.feasible then None else Some(g.rows[r.stop].index + 1), r.level);
    if !r.feasible then
      assert FirstFailure(es, r.stop) && r.stop < |g.rows| && v.route == Some(g.rows[r.stop].index + 1);
      v
    else v
  }

  /** At most one row is the first failure. */
  lemma FirstFailureUnique(es: seq<real>, i: nat, j: nat)
    requires FirstFailure(es, i) && FirstFailure(es, j)
    ensures i == j
  {
  }

  /** Both checks give every bus the same verdict and name the same route. A feasible bus
      gets the same counts from both; on an infeasible bus the post-check has also counted
      and subtracted the failing row, and nothing else. */
  lemma PreAndPostVerdictsAgree(g: Group)
    ensures PreVerdict(g).feasible == PostVerdict(g).feasible
    ensures PreVerdict(g).route == PostVerdict(g).route
    ensures PreVerdict(g).feasible ==>
              PostVerdict(g).used == PreVerdict(g).used && PostVerdict(g).level == PreVerdict(g).level
    ensures forall i: nat :: FirstFailure(Energies(g.rows), i) ==>
              PostVerdict(g).used == PreVerdict(g).used + Positive(g.rows[i].energy) &&
              PostVerdict(g).level == PreVerdict(g).level - g.rows[i].energy
  {
    var es := Energies(g.rows);
    PostAgreesWithPre(es, 0, MaxLevel, 0.0);
    PreCheckMeaning(es);
    forall i: nat | FirstFailure(es, i)
      ensures PostVerdict(g).used == PreVerdict(g).used + Positive(g.rows[i].energy)
      ensures PostVerdict(g).level == PreVerdict(g).level - g.rows[i].energy
    {
      assert !StaysAboveMinimum(es);
      FirstFailureUnique(es, i, PreCheck(es).stop);
      assert es[i] == g.rows[i].energy;
    }
  }

  // ---------------------------------------------------------------------------
  // Fleet totals

  /** Sum of a list, added up from the front as the loops do. */
  function Total(xs: seq<real>): real {
    if xs == [] then 0.0 else Total(xs[..|xs| - 1]) + xs[|xs| - 1]
  }

  function UsedOf(vs: seq<BusVerdict>): (us: seq<real>)
    ensures |us| == |vs| && forall k :: 0 <= k < |vs| ==> us[k] == vs[k].used
  {
    seq(|vs|, k requires 0 <= k < |vs| => vs[k].used)
  }

  lemma UsedOfSnoc(vs: seq<BusVerdict>, v: BusVerdict)
    ensures UsedOf(vs + [v]) == UsedOf(vs) + [v.used]
  {
  }

  lemma TotalSnoc(xs: seq<real>, x: real)
    ensures Total(xs + [x]) == Total(xs) + x
  {
    assert (xs + [x])[..|xs|] == xs;
  }

  /** A list that is pointwise no larger adds up to no more. */
  lemma {:induction false} TotalMonotone(xs: seq<real>, ys: seq<real>)
    requires |xs| == |ys|
    requires forall k :: 0 <= k < |xs| ==> xs[k] <= ys[k]
    ensures Total(xs) <= Total(ys)
  {
    if xs != [] {
      var n := |xs| - 1;
      TotalMonotone(xs[..n], ys[..n]);
    }
  }

  /** The pre-check never counts more energy for a bus than the post-check: they agree up
      to the failing row, which only the post-check counts. */
  lemma PreUsedAtMostPostUsed(g: Group)
    ensures PreVerdict(g).used <= PostVerdict(g).used
  {
    PreAndPostVerdictsAgree(g);
  }

  /** Positive energies count towards the fleet total, so it is never negative. */
  lemma {:induction false} TotalNonNegative(xs: seq<real>)
    requires forall k :: 0 <= k < |xs| ==> xs[k] >= 0.0
    ensures Total(xs) >= 0.0
  {
    if xs != [] {
      TotalNonNegative(xs[..|xs| - 1]);
    }
  }

  /** With non-negative terms, the fleet total is at least each bus's share of it. */
  lemma {:induction false} TotalAtLeastEach(xs: seq<real>)
    requires forall k :: 0 <= k < |xs| ==> xs[k] >= 0.0
    ensures forall k :: 0 <= k < |xs| ==> xs[k] <= Total(xs)
  {
    if xs != [] {
      var init := xs[..|xs| - 1];
      TotalAtLeastEach(init);
      TotalNonNegative(init);
      forall k | 0 <= k < |xs| - 1
        ensures xs[k] <= Total(xs)
      {
        assert xs[k] == init[k];
      }
    }
  }
}
