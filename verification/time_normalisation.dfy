/** Putting clock times on one timeline for the operating day: the midnight wrap, the
    night-window shift, the day-first ordering of buses and the 04:00 display shift.
    The pandas code rewrites whole columns under a mask; here each rewrite is a function of
    one row, mapped over the table. */
module TimeNormalisation {
  import opened Schedule

  /** Trips starting in [0, NightWindowEnd) belong to the previous operating day. */
  const NightWindowEnd: int := 2 * 3600
  /** The displayed operating day starts at 04:00. */
  const OperatingDayStart: int := 4 * 3600

  /** end_seconds gets a day added when the clock end is before the clock start. */
  function WrapMidnight(start: int, end: int): (e: int)
    requires 0 <= start < Day && 0 <= end < Day
    ensures start <= e < start + Day
    ensures e - start == (end - start) % Day
  {
    if end < start then end + Day else end
  }

  /** The night-window shift, decided by the start second and applied to both ends. */
  function NightShift(start: int): (d: int)
    ensures d == 0 || d == Day
    ensures d == Day <==> 0 <= start < NightWindowEnd
  {
    if 0 <= start && start < NightWindowEnd then Day else 0
  }

  /** read_and_change_data for one row: clock seconds, midnight wrap, night shift.
      The 'start time'/'end time' columns keep the clock values. */
  function Normalise(index: int, r: Row): (e: Event)
    ensures NightWindowEnd <= e.start < Day + NightWindowEnd
    ensures e.start <= e.end && e.end - e.start < Day
    ensures e.end - e.start == (ClockSeconds(r.endClock) - ClockSeconds(r.startClock)) % Day
    ensures e.start == ClockSeconds(r.startClock) || e.start == ClockSeconds(r.startClock) + Day
    ensures e.startTime == Some(ClockSeconds(r.startClock)) && e.endTime == Some(ClockSeconds(r.endClock))
    ensures e.index == index && e.bus == r.bus && e.activity == r.activity && e.energy == r.energy
    ensures e.startLocation == r.startLocation && e.endLocation == r.endLocation
  {
    var s := ClockSeconds(r.startClock);
    var t := WrapMidnight(s, ClockSeconds(r.endClock));
    var shift := NightShift(s);
    FromRow(index, r).(start := s + shift, end := t + shift)
  }

  /** read_and_change_data over the whole table (index labels 0, 1, 2, ...). */
  function ReadAndChangeData(rows: seq<Row>): (t: seq<Event>)
    ensures |t| == |rows|
    ensures forall i :: 0 <= i < |t| ==> t[i] == Normalise(i, rows[i])
  {
    seq(|rows|, i requires 0 <= i < |rows| => Normalise(i, rows[i]))
  }

  /** Every normalised row starts in [02:00, 26:00) and does not end before it starts. */
  predicate OnOperatingDay(e: Event) {
    NightWindowEnd <= e.start < Day + NightWindowEnd && e.start <= e.end
  }

  lemma {:induction false} NormalisedOnOperatingDay(rows: seq<Row>)
    ensures forall e :: e in ReadAndChangeData(rows) ==> OnOperatingDay(e)
  {
    var t := ReadAndChangeData(rows);
    forall e | e in t
      ensures OnOperatingDay(e)
    {
      var i :| 0 <= i < |t| && t[i] == e;
      assert e == Normalise(i, rows[i]);
    }
  }

  /** A trip from 23:30 to 00:15 runs from second 84600 to second 87300. */
  lemma MidnightExample(r: Row)
    requires r.startClock == ClockTime(23, 30, 0) && r.endClock == ClockTime(0, 15, 0)
    ensures Normalise(0, r).start == 84600 && Normalise(0, r).end == 87300
  {
  }

  /** A trip from 01:00 to 01:30 moves to the next day: seconds 90000 to 91800. */
  lemma NightExample(r: Row)
    requires r.startClock == ClockTime(1, 0, 0) && r.endClock == ClockTime(1, 30, 0)
    ensures Normalise(0, r).start == 90000 && Normalise(0, r).end == 91800
  {
  }

  // ---------------------------------------------------------------------------
  // night_rides_next_day

  /** The second night-window shift of night_rides_next_day, on one row. */
  function ShiftNightRow(e: Event): (r: Event)
    ensures r.end - r.start == e.end - e.start
    ensures r == e <==> !(0 <= e.start < NightWindowEnd)
  {
    var d := NightShift(e.start);
    e.(start := e.start + d, end := e.end + d)
  }

  function ShiftNightRides(s: seq<Event>): (r: seq<Event>)
    ensures |r| == |s| && forall i :: 0 <= i < |s| ==> r[i] == ShiftNightRow(s[i])
  {
    seq(|s|, i requires 0 <= i < |s| => ShiftNightRow(s[i]))
  }

  /** On a table whose rows all start at 02:00 or later the second shift changes nothing. */
  lemma {:induction false} SecondShiftIsIdentity(s: seq<Event>)
    requires forall e :: e in s ==> e.start >= NightWindowEnd
    ensures ShiftNightRides(s) == s
  {
    forall i | 0 <= i < |s|
      ensures ShiftNightRides(s)[i] == s[i]
    {
      assert s[i] in s;
    }
  }

  /** The latest end second of a bus's rows. */
  function MaxEnd(rows: seq<Event>): (m: int)
    requires rows != []
    ensures forall e :: e in rows ==> e.end <= m
    ensures exists e :: e in rows && e.end == m
  {
    if |rows| == 1 then rows[0].end
    else
      assert rows == [rows[0]] + rows[1..];
      var m := MaxEnd(rows[1..]);
      if rows[0].end > m then rows[0].end else m
  }

  /** A bus whose rows run past midnight (its latest end is after second 86400). */
  predicate IsNightBus(s: seq<Event>, b: int) {
    OfBus(s, b) != [] && MaxEnd(OfBus(s, b)) > Day
  }

  /** The keys whose night flag is `night`, in the given order: the index of one half of
      the per-bus maximum, which groupby leaves in ascending bus order. */
  function KeysWhere(s: seq<Event>, keys: seq<int>, night: bool): (r: seq<int>)
    ensures forall k :: k in r <==> k in keys && IsNightBus(s, k) == night
    ensures StrictlyAscending(keys) ==> StrictlyAscending(r)
  {
    if keys == [] then []
    else
      var rest := KeysWhere(s, keys[1..], night);
      KeepAscending(keys, rest);
      if IsNightBus(s, keys[0]) == night then [keys[0]] + rest else rest
  }

  /** Dropping keys from an ascending list, with or without its head, keeps it ascending. */
  lemma KeepAscending(keys: seq<int>, rest: seq<int>)
    requires keys != []
    requires StrictlyAscending(keys[1..]) ==> StrictlyAscending(rest)
    requires forall k :: k in rest ==> k in keys[1..]
    ensures StrictlyAscending(keys) ==> StrictlyAscending(rest) && StrictlyAscending([keys[0]] + rest)
  {
    if StrictlyAscending(keys) {
      AscendingTail(keys);
      AscendingCons(keys[0], rest);
    }
  }

  lemma {:induction false} PartitionPermutes(s: seq<Event>, keys: seq<int>)
    ensures multiset(KeysWhere(s, keys, false) + KeysWhere(s, keys, true)) == multiset(keys)
  {
    if keys != [] {
      assert keys == [keys[0]] + keys[1..];
      PartitionPermutes(s, keys[1..]);
    }
  }

  lemma DayBeforeNight(s: seq<Event>, day: seq<int>, night: seq<int>)
    requires forall k :: k in day ==> !IsNightBus(s, k)
    requires forall k :: k in night ==> IsNightBus(s, k)
    ensures forall i, j :: 0 <= i < j < |day + night| && IsNightBus(s, (day + night)[i]) ==> IsNightBus(s, (day + night)[j])
  {
    var order := day + night;
    forall i, j | 0 <= i < j < |order| && IsNightBus(s, order[i])
      ensures IsNightBus(s, order[j])
    {
      assert order[i] !in day;
      assert forall k :: 0 <= k < |day| ==> order[k] in day;
      assert order[j] == night[j - |day|] && order[j] in night;
    }
  }

  /** Two ascending lists, of day buses and of night buses, placed one after the other:
      any two buses of the same kind stay in ascending order. */
  lemma DayNightAscending(s: seq<Event>, day: seq<int>, night: seq<int>)
    requires StrictlyAscending(day) && StrictlyAscending(night)
    requires forall k :: k in day ==> !IsNightBus(s, k)
    requires forall k :: k in night ==> IsNightBus(s, k)
    ensures forall i, j :: 0 <= i < j < |day + night| && IsNightBus(s, (day + night)[i]) == IsNightBus(s, (day + night)[j]) ==>
              (day + night)[i] < (day + night)[j]
  {
    var order := day + night;
    forall i, j | 0 <= i < j < |day|
      ensures order[i] < order[j]
    {
      assert order[i] == day[i] && order[j] == day[j];
    }
    forall i, j | |day| <= i < j < |order|
      ensures order[i] < order[j]
    {
      assert order[i] == night[i - |day|] && order[j] == night[j - |day|];
    }
    forall i, j | 0 <= i < |day| <= j < |order|
      ensures IsNightBus(s, order[i]) != IsNightBus(s, order[j])
    {
      assert order[i] == day[i] && day[i] in day;
      assert order[j] == night[j - |day|] && night[j - |day|] in night;
    }
  }

  /** The bus order night_rides_next_day gives the categorical 'bus' column: the buses in
      groupby order, day buses (latest end at or before second 86400) first, then night
      buses, each kind in ascending bus order. */
  function BusOrder(s: seq<Event>): (order: seq<int>)
    ensures multiset(order) == multiset(BusKeys(s))
    ensures forall i, j :: 0 <= i < j < |order| && IsNightBus(s, order[i]) ==> IsNightBus(s, order[j])
    ensures forall i, j :: 0 <= i < j < |order| && IsNightBus(s, order[i]) == IsNightBus(s, order[j]) ==>
              order[i] < order[j]
  {
    var keys := BusKeys(s);
    var day := KeysWhere(s, keys, false);
    var night := KeysWhere(s, keys, true);
    PartitionPermutes(s, keys);
    DayBeforeNight(s, day, night);
    DayNightAscending(s, day, night);
    day + night
  }

  // ---------------------------------------------------------------------------
  // The 04:00 display shift (start_shifted / end_shifted)

  /** x - 14400, plus a day exactly when that is negative. */
  function DisplayShift(t: int): (d: int)
    ensures d == t - OperatingDayStart || d == t - OperatingDayStart + Day
    ensures t - OperatingDayStart >= 0 ==> d == t - OperatingDayStart
    ensures t - OperatingDayStart < 0 ==> d == t - OperatingDayStart + Day
  {
    var d := t - OperatingDayStart;
    if d < 0 then d + Day else d
  }

  /** Undoes the display shift for a second of the operating day [02:00, 26:00). */
  function DisplayUnshift(d: int): (t: int)
    requires 0 <= d < Day
    ensures NightWindowEnd <= t < Day + NightWindowEnd
  {
    if d + OperatingDayStart < Day + NightWindowEnd then d + OperatingDayStart
    else d + OperatingDayStart - Day
  }

  /** Every start of the operating day lands in [0, 86400), and the display value
      determines the start second. */
  lemma DisplayShiftRoundTrip(t: int)
    requires NightWindowEnd <= t < Day + NightWindowEnd
    ensures 0 <= DisplayShift(t) < Day
    ensures DisplayUnshift(DisplayShift(t)) == t
  {
  }

  /** Start and end are shifted independently: a row that runs across 04:00 is displayed
      ending before it starts; any other row keeps its length. */
  lemma DisplaySpanning(start: int, end: int)
    requires NightWindowEnd <= start <= end && end - start < Day
    ensures start < OperatingDayStart <= end ==> DisplayShift(end) < DisplayShift(start)
    ensures end < OperatingDayStart || OperatingDayStart <= start ==>
              DisplayShift(end) - DisplayShift(start) == end - start
  {
  }

  /** A row with its start_shifted and end_shifted columns. */
  datatype Shown = Shown(row: Event, startShifted: int, endShifted: int)

  /** Both display columns hold the display shift of the row's own seconds. */
  predicate Displayed(x: Shown) {
    x.startShifted == DisplayShift(x.row.start) && x.endShifted == DisplayShift(x.row.end)
  }

  /** change_operational_day: every row keeps its columns and gets both display columns;
      a start on the operating day is displayed within the 24 hours from 04:00 and can be
      read back. */
  function ChangeOperationalDay(s: seq<Event>): (r: seq<Shown>)
    ensures |r| == |s|
    ensures forall i :: 0 <= i < |s| ==> r[i].row == s[i] && Displayed(r[i])
    ensures forall i :: 0 <= i < |s| && OnOperatingDay(s[i]) ==> 0 <= r[i].startShifted < Day
    ensures forall i :: 0 <= i < |s| && OnOperatingDay(s[i]) ==> DisplayUnshift(r[i].startShifted) == s[i].start
  {
    var r := seq(|s|, i requires 0 <= i < |s| => Shown(s[i], DisplayShift(s[i].start), DisplayShift(s[i].end)));
    forall i | 0 <= i < |s| && OnOperatingDay(s[i])
      ensures 0 <= r[i].startShifted < Day && DisplayUnshift(r[i].startShifted) == s[i].start
    {
      DisplayShiftRoundTrip(s[i].start);
    }
    r
  }

  /** What night_rides_next_day returns: the table with the bus order of its categorical
      'bus' column and the display columns. */
  datatype Arranged = Arranged(busOrder: seq<int>, rows: seq<Shown>)

  /** night_rides_next_day of combined8, combined4, combined3 and GanttChartForTransdev:
      the second night shift, the day-then-night bus order, the display shift. On rows
      already on the operating day the second shift changes nothing and every displayed
      start falls in the 24 hours from 04:00. */
  function NightRidesNextDay(s: seq<Event>): (a: Arranged)
    ensures multiset(a.busOrder) == multiset(BusKeys(s))
    ensures a.busOrder == BusOrder(ShiftNightRides(s))
    ensures forall i, j :: 0 <= i < j < |a.busOrder| && IsNightBus(ShiftNightRides(s), a.busOrder[i]) ==>
              IsNightBus(ShiftNightRides(s), a.busOrder[j])
    ensures forall i, j ::
              0 <= i < j < |a.busOrder| &&
              IsNightBus(ShiftNightRides(s), a.busOrder[i]) == IsNightBus(ShiftNightRides(s), a.busOrder[j])
              ==> a.busOrder[i] < a.busOrder[j]
    ensures |a.rows| == |s|
    ensures forall i :: 0 <= i < |s| ==> a.rows[i].row == ShiftNightRow(s[i]) && Displayed(a.rows[i])
    ensures forall i :: 0 <= i < |s| && OnOperatingDay(s[i]) ==>
              a.rows[i].row == s[i] && 0 <= a.rows[i].startShifted < Day &&
              DisplayUnshift(a.rows[i].startShifted) == s[i].start
  {
    var shifted := ShiftNightRides(s);
    SameBusesSameKeys(s, shifted);
    var order := BusOrder(shifted);
    Arranged(order, ChangeOperationalDay(shifted))
  }

  /** On a displayed row of the operating day, shorter than a day, the end is shown before
      the start exactly when the row runs across 04:00; otherwise the displayed length is the
      row's length. */
  lemma DisplayedSpanning(x: Shown)
    requires Displayed(x) && OnOperatingDay(x.row) && x.row.end - x.row.start < Day
    ensures x.endShifted < x.startShifted <==> x.row.start < OperatingDayStart <= x.row.end
    ensures !(x.row.start < OperatingDayStart <= x.row.end) ==>
              x.endShifted - x.startShifted == x.row.end - x.row.start
  {
    DisplaySpanning(x.row.start, x.row.end);
  }

  /** The same for the table change_operational_day returns. */
  lemma ShownSpanning(s: seq<Event>)
    requires forall e :: e in s ==> OnOperatingDay(e) && e.end - e.start < Day
    ensures forall i :: 0 <= i < |s| ==>
              (ChangeOperationalDay(s)[i].endShifted < ChangeOperationalDay(s)[i].startShifted <==>
               s[i].start < OperatingDayStart <= s[i].end)
  {
    var r := ChangeOperationalDay(s);
    forall i | 0 <= i < |s|
      ensures r[i].endShifted < r[i].startShifted <==> s[i].start < OperatingDayStart <= s[i].end
    {
      assert s[i] in s;
      DisplayedSpanning(r[i]);
    }
  }

  /** In the table night_rides_next_day returns for rows on the operating day, each shorter
      than a day, a row is shown ending before it starts exactly when it runs across 04:00. */
  lemma NightRidesSpanning(s: seq<Event>)
    requires forall e :: e in s ==> OnOperatingDay(e) && e.end - e.start < Day
    ensures forall i :: 0 <= i < |s| ==>
              (NightRidesNextDay(s).rows[i].endShifted < NightRidesNextDay(s).rows[i].startShifted <==>
               s[i].start < OperatingDayStart <= s[i].end)
  {
    var a := NightRidesNextDay(s);
    forall i | 0 <= i < |s|
      ensures a.rows[i].endShifted < a.rows[i].startShifted <==> s[i].start < OperatingDayStart <= s[i].end
    {
      assert s[i] in s;
      DisplayedSpanning(a.rows[i]);
    }
  }

  /** The table night_rides_next_day returns, without the display columns. */
  function Rows(a: Arranged): (s: seq<Event>)
    ensures |s| == |a.rows| && forall i :: 0 <= i < |s| ==> s[i] == a.rows[i].row
  {
    seq(|a.rows|, i requires 0 <= i < |a.rows| => a.rows[i].row)
  }

  /** On a table already on the operating day night_rides_next_day moves no row: it returns
      the same rows, each displayed within the 24 hours from 04:00. */
  lemma NightRidesKeepOperatingDay(s: seq<Event>)
    requires forall e :: e in s ==> OnOperatingDay(e)
    ensures Rows(NightRidesNextDay(s)) == s
    ensures forall i :: 0 <= i < |s| ==> 0 <= NightRidesNextDay(s).rows[i].startShifted < Day
  {
    KeptRows(s, NightRidesNextDay(s));
  }

  /** Rows that each stay as they were, when every row is on the operating day, make up the
      table unchanged. */
  lemma KeptRows(s: seq<Event>, a: Arranged)
    requires forall e :: e in s ==> OnOperatingDay(e)
    requires |a.rows| == |s|
    requires forall i :: 0 <= i < |s| && OnOperatingDay(s[i]) ==>
               a.rows[i].row == s[i] && 0 <= a.rows[i].startShifted < Day
    ensures Rows(a) == s
    ensures forall i :: 0 <= i < |s| ==> 0 <= a.rows[i].startShifted < Day
  {
    forall i | 0 <= i < |s|
      ensures Rows(a)[i] == s[i] && 0 <= a.rows[i].startShifted < Day
    {
      assert s[i] in s;
    }
  }
}
