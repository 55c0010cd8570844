/** TestGantt2: the gaps are filled without any filter (GapFilling.FillTable),
    night_rides_next_day only shifts and orders, and main goes straight from the filled table
    to change_operational_day. */
module TestGantt2 {
  import opened Schedule
  import opened TimeNormalisation
  import opened GapFilling

  /** The table night_rides_next_day returns here: the bus order and the shifted rows, with no
      display columns. */
  datatype Ordered = Ordered(busOrder: seq<int>, rows: seq<Event>)

  /** night_rides_next_day(df_filled, df): the second table is never read. Every row gets the
      second night shift, the buses that end after midnight come last, and a table already on
      the operating day keeps its rows. */
  function NightRidesNextDay(filled: seq<Event>, unused: seq<Event>): (o: Ordered)
    ensures multiset(o.busOrder) == multiset(BusKeys(filled))
    ensures forall i, j :: 0 <= i < j < |o.busOrder| && IsNightBus(o.rows, o.busOrder[i]) ==>
              IsNightBus(o.rows, o.busOrder[j])
    ensures forall i, j :: 0 <= i < j < |o.busOrder| && IsNightBus(o.rows, o.busOrder[i]) == IsNightBus(o.rows, o.busOrder[j]) ==>
              o.busOrder[i] < o.busOrder[j]
    ensures o.busOrder == BusOrder(ShiftNightRides(filled))
    ensures o.rows == ShiftNightRides(filled)
    ensures |o.rows| == |filled| && forall i :: 0 <= i < |filled| ==> o.rows[i].end - o.rows[i].start == filled[i].end - filled[i].start
    ensures (forall e :: e in filled ==> OnOperatingDay(e)) ==> o.rows == filled
  {
    var shifted := ShiftNightRides(filled);
    SameBusesSameKeys(filled, shifted);
    if forall e :: e in filled ==> OnOperatingDay(e) then
      SecondShiftIsIdentity(filled);
      Ordered(BusOrder(shifted), shifted)
    else
      Ordered(BusOrder(shifted), shifted)
  }

  /** What main hands to the chart: every normalised row is shown (up to its new index label),
      the only other rows are added idle rows, and every start is displayed in [0, 86400). */
  function ChartTable(rows: seq<Row>): (shown: seq<Shown>)
    ensures forall i :: 0 <= i < |shown| ==> 0 <= shown[i].startShifted < Day
    ensures forall i :: 0 <= i < |shown| ==>
              Unlabelled(shown[i].row) in UnlabelledRows(ReadAndChangeData(rows)) || AddedIdle(shown[i].row)
    ensures forall o :: o in ReadAndChangeData(rows) ==>
              exists i :: 0 <= i < |shown| && Unlabelled(shown[i].row) == Unlabelled(o)
  {
    NormalisedOnOperatingDay(rows);
    var filled := FillTable(ReadAndChangeData(rows));
    var shown := ChangeOperationalDay(filled);
    ChartTableFacts(ReadAndChangeData(rows), filled, shown);
    shown
  }

  lemma ChartTableFacts(t: seq<Event>, filled: seq<Event>, shown: seq<Shown>)
    requires filled == FillTable(t) && shown == ChangeOperationalDay(filled)
    requires forall e :: e in t ==> OnOperatingDay(e)
    ensures forall i :: 0 <= i < |shown| ==> 0 <= shown[i].startShifted < Day
    ensures forall i :: 0 <= i < |shown| ==> Unlabelled(shown[i].row) in UnlabelledRows(t) || AddedIdle(shown[i].row)
    ensures forall o :: o in t ==> exists i :: 0 <= i < |shown| && Unlabelled(shown[i].row) == Unlabelled(o)
  {
    forall i | 0 <= i < |shown|
      ensures 0 <= shown[i].startShifted < Day
      ensures Unlabelled(shown[i].row) in UnlabelledRows(t) || AddedIdle(shown[i].row)
    {
      assert filled[i] in filled;
    }
    forall o | o in t
      ensures exists i :: 0 <= i < |shown| && Unlabelled(shown[i].row) == Unlabelled(o)
    {
      var i :| 0 <= i < |filled| && UnlabelledRows(filled)[i] == Unlabelled(o);
      assert Unlabelled(shown[i].row) == Unlabelled(o);
    }
  }
}
