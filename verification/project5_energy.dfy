/** Project5Energy: one battery for the whole sheet, rows in sheet order, no grouping by bus.
    Each row is counted and subtracted, and the loop stops at the first row that leaves the
    level under the minimum; the message names the row's position plus one. */
module Project5Energy {
  import opened Schedule
  import opened Battery

  /** What the script reports: the verdict, the energy counted, the route number of the
      failing row and the level it left. */
  datatype SheetRun = SheetRun(feasible: bool, used: real, route: Option<int>, level: real)

  method SingleBattery(table: seq<Event>) returns (r: SheetRun)
    ensures var es := Energies(table);
            (r.feasible <==> StaysAboveMinimum(es)) &&
            (r.feasible ==> r.route == None && r.used == PositiveSumRange(es, 0, |es|) &&
                            r.level == LevelAfter(es, 0, |es|, MaxLevel)) &&
            (!r.feasible ==> exists i: nat :: FirstFailure(es, i) && r.route == Some(i + 1) &&
                               r.used == PositiveSumRange(es, 0, i + 1) &&
                               r.level == LevelAfter(es, 0, i + 1, MaxLevel) && r.level < MinLevel)
  {
    ghost var es := Energies(table);
    var used, level := 0.0, MaxLevel;
    var feasible := true;
    var route: Option<int> := None;
    var i := 0;
    while i < |table|
      invariant 0 <= i <= |table|
      invariant PostCheckFrom(es, i, level, used) == PostCheck(es)
    {
      var e := table[i].energy;
      level := level - e;
      if e > 0.0 {
        used := used + e;
      }
      if level < MinLevel {
        route := Some(i + 1);
        feasible := false;
        break;
      }
      i := i + 1;
    }
    r := SheetRun(feasible, used, route, level);
    PostCheckMeaning(es);
    PostCheckFacts(es);
    if !feasible {
      assert FirstFailure(es, PostCheck(es).stop) && route == Some(PostCheck(es).stop + 1);
    }
  }

  lemma PostCheckFacts(es: seq<real>)
    ensures PostCheck(es).feasible ==> PostCheck(es).level == LevelAfter(es, 0, |es|, MaxLevel)
  {
    PostAgreesWithPre(es, 0, MaxLevel, 0.0);
    PreCheckFacts(es, 0, MaxLevel, 0.0);
  }
}
