/** GanttChartForTransdev: the chart's table (gaps filled, rows of non-positive length
    dropped, night rides and the 04:00 display shift) and print_routes_for_bus. Inserted idle
    rows carry no energy; none is computed here. */
module GanttChart {
  import opened Schedule
  import opened TimeNormalisation
  import opened GapFilling

  /** replace_empty_gaps_with_idle of GanttChartForTransdev: the rows left all have positive
      length; each is a row of the table (up to its new index label) or an idle row the loop
      added, and every row of the table with positive length is kept. */
  function ReplaceEmptyGapsWithIdle(t: seq<Event>): (r: seq<Event>)
    ensures forall e :: e in r ==> e.end > e.start
    ensures forall e :: e in r ==> Unlabelled(e) in UnlabelledRows(t) || AddedIdle(e)
    ensures forall o :: o in t && o.end > o.start ==> Unlabelled(o) in UnlabelledRows(r)
    ensures (forall o :: o in t ==> OnOperatingDay(o)) ==> forall e :: e in r ==> OnOperatingDay(e)
  {
    ReplaceRows(t);
    KeepPositive(FillTable(t))
  }

  lemma ReplaceRows(t: seq<Event>)
    ensures forall o :: o in t && o.end > o.start ==> Unlabelled(o) in UnlabelledRows(KeepPositive(FillTable(t)))
  {
    PositiveRowsSurvive(t, FillTable(t), KeepPositive(FillTable(t)));
  }

  lemma PositiveRowsSurvive(t: seq<Event>, filled: seq<Event>, r: seq<Event>)
    requires forall o :: o in t ==> Unlabelled(o) in UnlabelledRows(filled)
    requires forall e :: e in filled && e.end > e.start ==> e in r
    ensures forall o :: o in t && o.end > o.start ==> Unlabelled(o) in UnlabelledRows(r)
  {
    forall o | o in t && o.end > o.start
      ensures Unlabelled(o) in UnlabelledRows(r)
    {
      var j :| 0 <= j < |filled| && UnlabelledRows(filled)[j] == Unlabelled(o);
      var f := filled[j];
      assert Unlabelled(f).end == o.end && Unlabelled(f).start == o.start;
      assert f in r;
      var i :| 0 <= i < |r| && r[i] == f;
      assert UnlabelledRows(r)[i] == Unlabelled(o);
    }
  }

  /** The table main builds: night_rides_next_day moves nothing, and every row is displayed
      within the 24 hours from 04:00. */
  function ChartTable(rows: seq<Row>): (a: Arranged)
    ensures var filled := ReplaceEmptyGapsWithIdle(ReadAndChangeData(rows));
            Rows(a) == filled &&
            multiset(a.busOrder) == multiset(BusKeys(filled)) &&
            forall i :: 0 <= i < |a.rows| ==> 0 <= a.rows[i].startShifted < Day
  {
    NormalisedOnOperatingDay(rows);
    NightRidesKeepOperatingDay(ReplaceEmptyGapsWithIdle(ReadAndChangeData(rows)));
    NightRidesNextDay(ReplaceEmptyGapsWithIdle(ReadAndChangeData(rows)))
  }

  /** One printed line: number, activity, start and end second, and the length in minutes. */
  datatype RouteLine = RouteLine(number: nat, activity: Activity, start: int, end: int, minutes: real)

  /** The line printed for a row numbered n. */
  function LineOf(n: nat, e: Event): (l: RouteLine)
    ensures l.number == n && l.activity == e.activity && l.start == e.start && l.end == e.end
    ensures l.minutes * 60.0 == (e.end - e.start) as real
  {
    RouteLine(n, e.activity, e.start, e.end, (e.end - e.start) as real / 60.0)
  }

  /** The loop of print_routes_for_bus: one line per row, numbered from 1. */
  method NumberLines(busRows: seq<Event>) returns (lines: seq<RouteLine>)
    ensures |lines| == |busRows| && forall k :: 0 <= k < |busRows| ==> lines[k] == LineOf(k + 1, busRows[k])
  {
    lines := [];
    var i := 0;
    while i < |busRows|
      invariant 0 <= i <= |busRows|
      invariant |lines| == i && forall k :: 0 <= k < i ==> lines[k] == LineOf(k + 1, busRows[k])
    {
      var row := busRows[i];
      lines := lines + [RouteLine(i + 1, row.activity, row.start, row.end, (row.end - row.start) as real / 60.0)];
      i := i + 1;
    }
  }

  /** l is the line numbered n for some row of the bus in the table. */
  predicate IsLineOfBus(table: seq<Event>, bus: int, n: nat, l: RouteLine) {
    exists e :: e in table && e.bus == bus && l == LineOf(n, e)
  }

  /** The lines are the rows, in that order, numbered from 1. */
  predicate NumberedLines(lines: seq<RouteLine>, rows: seq<Event>) {
    |lines| == |rows| && forall k :: 0 <= k < |rows| ==> lines[k] == LineOf(k + 1, rows[k])
  }

  /** print_routes_for_bus: the rows of the given bus in start order, numbered from 1, each
      with its length in minutes. Every row of the bus is printed as often as it occurs in
      the table, and no row of another bus is printed. */
  method PrintRoutesForBus(table: seq<Event>, bus: int) returns (lines: seq<RouteLine>)
    ensures |lines| == |OfBus(table, bus)|
    ensures NumberedLines(lines, SortByStart(OfBus(table, bus)))
    ensures exists rows: seq<Event> :: NumberedLines(lines, rows) && SortedByStart(rows) &&
              forall x :: multiset(rows)[x] == if x.bus == bus then multiset(table)[x] else 0
    ensures forall i :: 0 <= i < |lines| ==>
              lines[i].number == i + 1 && lines[i].minutes * 60.0 == (lines[i].end - lines[i].start) as real
    ensures forall i, j :: 0 <= i < j < |lines| ==> lines[i].start <= lines[j].start
    ensures forall i :: 0 <= i < |lines| ==> IsLineOfBus(table, bus, i + 1, lines[i])
  {
    var busRows := SortByStart(OfBus(table, bus));
    BusRowsFacts(table, bus);
    lines := NumberLines(busRows);
    assert NumberedLines(lines, busRows);
    forall a, b | 0 <= a < b < |lines|
      ensures lines[a].start <= lines[b].start
    {
      assert busRows[a].start <= busRows[b].start;
    }
    forall i | 0 <= i < |lines|
      ensures IsLineOfBus(table, bus, i + 1, lines[i])
    {
      var e := busRows[i];
      assert e in table && e.bus == bus && lines[i] == LineOf(i + 1, e);
    }
  }

  /** The rows print_routes_for_bus walks through: those of the bus, sorted by start. */
  lemma BusRowsFacts(table: seq<Event>, bus: int)
    ensures var busRows := SortByStart(OfBus(table, bus));
            |busRows| == |OfBus(table, bus)| &&
            (forall k :: 0 <= k < |busRows| ==> busRows[k] in table && busRows[k].bus == bus) &&
            forall x :: multiset(busRows)[x] == if x.bus == bus then multiset(table)[x] else 0
  {
    var busRows := SortByStart(OfBus(table, bus));
    assert |busRows| == |multiset(busRows)| == |OfBus(table, bus)|;
    forall k | 0 <= k < |busRows|
      ensures busRows[k] in table && busRows[k].bus == bus
    {
      assert busRows[k] in multiset(busRows);
      assert busRows[k] in OfBus(table, bus);
    }
  }
}
