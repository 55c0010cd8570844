/** replace_empty_gaps_with_idle: per bus, rows in start order, an idle row appended in
    front of every row that starts after the previous row ended. The loop is the same in
    combined8, combined4, combined3, GanttChartForTransdev and TestGantt2; what they do
    before and after it differs and is in their own modules. */
module GapFilling {
  import opened Schedule
  import opened TimeNormalisation

  /** Idle consumption in kW. */
  const IdlePower: real := 5.0

  /** The row appended for a gap: only bus, start_seconds, end_seconds and activity are
      set, so index, times and locations are absent. The energy column is also absent
      (NaN); 0.0 stands for it until a script overwrites it. */
  function IdleRow(bus: int, from: int, to: int): Event {
    Event(0, bus, Idle, None, None, from, to, 0.0, "", "")
  }

  /** What the inner loop appends for one row, given prev_end. */
  function StepRows(bus: int, prevEnd: Option<int>, row: Event): (r: seq<Event>)
    ensures 1 <= |r| <= 2 && r[|r| - 1] == row
    ensures |r| == 2 <==> prevEnd.Some? && row.start > prevEnd.value
    ensures |r| == 2 ==> AddedIdle(r[0]) && r[0].bus == bus && r[0].start == prevEnd.value && r[0].end == row.start
  {
    (if prevEnd.Some? && row.start > prevEnd.value then [IdleRow(bus, prevEnd.value, row.start)] else [])
    + [row]
  }

  /** What the inner loop appends for rows[i..], given prev_end. */
  function FillFrom(bus: int, rows: seq<Event>, i: nat, prevEnd: Option<int>): seq<Event>
    requires i <= |rows|
    decreases |rows| - i
  {
    if i == |rows| then []
    else StepRows(bus, prevEnd, rows[i]) + FillFrom(bus, rows, i + 1, Some(rows[i].end))
  }

  /** The rows appended for one bus whose rows are already sorted. */
  function FillBus(bus: int, rows: seq<Event>): seq<Event> {
    FillFrom(bus, rows, 0, None)
  }

  /** What the outer loop appends for groups[k..]: each group sorted by start, then filled. */
  function FillGroupsFrom(groups: seq<Group>, k: nat): seq<Event>
    requires k <= |groups|
    decreases |groups| - k
  {
    if k == |groups| then []
    else FillBus(groups[k].bus, SortByStart(groups[k].rows)) + FillGroupsFrom(groups, k + 1)
  }

  /** The two loops of replace_empty_gaps_with_idle, building filled_rows. */
  method FillGaps(groups: seq<Group>) returns (filledRows: seq<Event>)
    ensures filledRows == FillGroupsFrom(groups, 0)
  {
    filledRows := [];
    var k := 0;
    while k < |groups|
      invariant 0 <= k <= |groups|
      invariant filledRows + FillGroupsFrom(groups, k) == FillGroupsFrom(groups, 0)
    {
      var bus := groups[k].bus;
      var busRows := SortByStart(groups[k].rows);
      var busFilled := FillBusRows(bus, busRows);
      GroupsLoopStep(groups, k, filledRows);
      filledRows := filledRows + busFilled;
      k := k + 1;
    }
  }

  lemma GroupsLoopStep(groups: seq<Group>, k: nat, acc: seq<Event>)
    requires k < |groups|
    ensures acc + FillGroupsFrom(groups, k)
            == (acc + FillBus(groups[k].bus, SortByStart(groups[k].rows))) + FillGroupsFrom(groups, k + 1)
  {
    var head := FillBus(groups[k].bus, SortByStart(groups[k].rows));
    var tail := FillGroupsFrom(groups, k + 1);
    assert FillGroupsFrom(groups, k) == head + tail;
    ConcatAssoc(acc, head, tail);
  }

  /** The inner loop: the rows of one bus with an idle row in each positive gap. */
  method FillBusRows(bus: int, busRows: seq<Event>) returns (out: seq<Event>)
    ensures out == FillBus(bus, busRows)
  {
    out := [];
    var prevEnd: Option<int> := None;
    var i := 0;
    while i < |busRows|
      invariant 0 <= i <= |busRows|
      invariant out + FillFrom(bus, busRows, i, prevEnd) == FillBus(bus, busRows)
    {
      var row := busRows[i];
      ghost var before := out;
      FillLoopStep(bus, busRows, i, prevEnd, out);
      if prevEnd.Some? && row.start > prevEnd.value {
        out := out + [IdleRow(bus, prevEnd.value, row.start)];
      }
      out := out + [row];
      assert out == before + StepRows(bus, prevEnd, row);
      prevEnd := Some(row.end);
      i := i + 1;
    }
  }

  lemma FillLoopStep(bus: int, rows: seq<Event>, i: nat, prevEnd: Option<int>, out: seq<Event>)
    requires i < |rows|
    ensures out + FillFrom(bus, rows, i, prevEnd)
            == (out + StepRows(bus, prevEnd, rows[i])) + FillFrom(bus, rows, i + 1, Some(rows[i].end))
  {
    var head := StepRows(bus, prevEnd, rows[i]);
    var tail := FillFrom(bus, rows, i + 1, Some(rows[i].end));
    assert FillFrom(bus, rows, i, prevEnd) == head + tail;
    ConcatAssoc(out, head, tail);
  }

  // ---------------------------------------------------------------------------
  // What the filled rows of one bus look like

  /** prev_end is the end of the row just before, not the latest end seen so far: row i is
      preceded by an idle row exactly when it starts after row i-1 ends. */
  function Block(bus: int, rows: seq<Event>, i: nat): seq<Event>
    requires i < |rows|
  {
    (if i > 0 && rows[i].start > rows[i - 1].end then [IdleRow(bus, rows[i - 1].end, rows[i].start)] else [])
    + [rows[i]]
  }

  function Blocks(bus: int, rows: seq<Event>, i: nat): seq<Event>
    requires i <= |rows|
    decreases |rows| - i
  {
    if i == |rows| then [] else Block(bus, rows, i) + Blocks(bus, rows, i + 1)
  }

  lemma {:induction false} FillIsBlocks(bus: int, rows: seq<Event>, i: nat)
    requires i <= |rows|
    ensures FillFrom(bus, rows, i, if i == 0 then None else Some(rows[i - 1].end)) == Blocks(bus, rows, i)
    decreases |rows| - i
  {
    if i < |rows| {
      FillIsBlocks(bus, rows, i + 1);
      var prevEnd := if i == 0 then None else Some(rows[i - 1].end);
      var rest := FillFrom(bus, rows, i + 1, Some(rows[i].end));
      assert FillFrom(bus, rows, i, prevEnd) == Block(bus, rows, i) + rest;
    }
  }

  /** The number of rows that start after the previous row ended, from row i on. */
  function GapsFrom(rows: seq<Event>, i: nat): nat
    requires i <= |rows|
    decreases |rows| - i
  {
    if i == |rows| then 0
    else (if i > 0 && rows[i].start > rows[i - 1].end then 1 else 0) + GapsFrom(rows, i + 1)
  }

  /** One idle row per positive gap, and nothing else added. */
  lemma {:induction false} FillCount(bus: int, rows: seq<Event>)
    ensures |FillBus(bus, rows)| == |rows| + GapsFrom(rows, 0)
  {
    FillIsBlocks(bus, rows, 0);
    BlocksCount(bus, rows, 0);
  }

  lemma {:induction false} BlocksCount(bus: int, rows: seq<Event>, i: nat)
    requires i <= |rows|
    ensures |Blocks(bus, rows, i)| == |rows| - i + GapsFrom(rows, i)
    decreases |rows| - i
  {
    if i < |rows| {
      BlocksCount(bus, rows, i + 1);
    }
  }

  /** The rows whose activity is not idle, in order. */
  function NonIdle(s: seq<Event>): (r: seq<Event>)
    ensures forall e :: e in r ==> e in s && e.activity != Idle
  {
    if s == [] then []
    else (if s[0].activity != Idle then [s[0]] else []) + NonIdle(s[1..])
  }

  lemma NonIdleConcat(a: seq<Event>, b: seq<Event>)
    ensures NonIdle(a + b) == NonIdle(a) + NonIdle(b)
  {
    if a == [] {
      assert a + b == b;
    } else {
      assert (a + b)[0] == a[0];
      assert (a + b)[1..] == a[1..] + b;
      NonIdleConcat(a[1..], b);
    }
  }

  /** Removing the idle rows gives back the bus's own rows that are not idle, in order:
      no original row is lost, duplicated or moved. */
  lemma {:induction false} FillKeepsRows(bus: int, rows: seq<Event>, i: nat, prevEnd: Option<int>)
    requires i <= |rows|
    ensures NonIdle(FillFrom(bus, rows, i, prevEnd)) == NonIdle(rows[i..])
    decreases |rows| - i
  {
    if i < |rows| {
      FillKeepsRows(bus, rows, i + 1, Some(rows[i].end));
      var step := StepRows(bus, prevEnd, rows[i]);
      var rest := FillFrom(bus, rows, i + 1, Some(rows[i].end));
      assert FillFrom(bus, rows, i, prevEnd) == step + rest;
      NonIdleConcat(step, rest);
      StepKeepsRow(bus, prevEnd, rows[i]);
      NonIdleSuffix(rows, i);
    }
  }

  lemma StepKeepsRow(bus: int, prevEnd: Option<int>, row: Event)
    ensures NonIdle(StepRows(bus, prevEnd, row)) == NonIdle([row])
  {
    var step := StepRows(bus, prevEnd, row);
    if |step| == 2 {
      assert step == [step[0]] + [row];
      NonIdleConcat([step[0]], [row]);
    }
  }

  lemma NonIdleSuffix(rows: seq<Event>, i: nat)
    requires i < |rows|
    ensures NonIdle(rows[i..]) == NonIdle([rows[i]]) + NonIdle(rows[i + 1..])
  {
    assert rows[i..] == [rows[i]] + rows[i + 1..];
    NonIdleConcat([rows[i]], rows[i + 1..]);
  }

  /** Every filled row is one of the bus's rows or an idle row of positive length with no
      clock times. */
  lemma {:induction false} FillAddsOnlyIdle(bus: int, rows: seq<Event>, i: nat, prevEnd: Option<int>)
    requires i <= |rows|
    ensures forall e :: e in FillFrom(bus, rows, i, prevEnd) ==>
              e in rows[i..] || (AddedIdle(e) && e.bus == bus)
    decreases |rows| - i
  {
    if i < |rows| {
      FillAddsOnlyIdle(bus, rows, i + 1, Some(rows[i].end));
      assert rows[i..] == [rows[i]] + rows[i + 1..];
    }
  }

  /** Consecutive rows do not overlap: each ends no later than the next one starts. */
  predicate Chained(rows: seq<Event>) {
    forall i :: 0 < i < |rows| ==> rows[i - 1].end <= rows[i].start
  }

  /** Consecutive rows meet: each ends exactly where the next one starts. */
  predicate Contiguous(s: seq<Event>) {
    forall i :: 0 < i < |s| ==> s[i - 1].end == s[i].start
  }

  lemma {:induction false} FillFromContiguous(bus: int, rows: seq<Event>, i: nat)
    requires i < |rows| && Chained(rows)
    ensures var f := FillFrom(bus, rows, i + 1, Some(rows[i].end));
            Contiguous([rows[i]] + f) && ([rows[i]] + f)[|f|] == rows[|rows| - 1]
    decreases |rows| - i
  {
    var f := FillFrom(bus, rows, i + 1, Some(rows[i].end));
    if i + 1 < |rows| {
      FillFromContiguous(bus, rows, i + 1);
      var g := FillFrom(bus, rows, i + 2, Some(rows[i + 1].end));
      if rows[i + 1].start > rows[i].end {
        assert f == [IdleRow(bus, rows[i].end, rows[i + 1].start)] + ([rows[i + 1]] + g);
      } else {
        assert f == [rows[i + 1]] + g;
      }
    }
  }

  /** On a bus whose rows do not overlap, the filled rows cover its day without gaps, and
      start and end with the bus's first and last rows. */
  lemma {:induction false} FillContiguous(bus: int, rows: seq<Event>)
    requires Chained(rows) && rows != []
    ensures Contiguous(FillBus(bus, rows))
    ensures FillBus(bus, rows) != [] && FillBus(bus, rows)[0] == rows[0]
    ensures FillBus(bus, rows)[|FillBus(bus, rows)| - 1] == rows[|rows| - 1]
  {
    FillFromContiguous(bus, rows, 0);
    assert FillBus(bus, rows) == [rows[0]] + FillFrom(bus, rows, 1, Some(rows[0].end));
  }

  /** Total length of the rows in seconds. */
  function DurationSum(s: seq<Event>): int {
    if s == [] then 0 else (s[0].end - s[0].start) + DurationSum(s[1..])
  }

  /** The lengths of contiguous rows add up to the span from first start to last end. */
  lemma {:induction false} ContiguousSpan(s: seq<Event>)
    requires Contiguous(s) && s != []
    ensures DurationSum(s) == s[|s| - 1].end - s[0].start
  {
    if |s| > 1 {
      assert Contiguous(s[1..]);
      ContiguousSpan(s[1..]);
      assert s[1..][0] == s[1];
    }
  }

  /** Filling the gaps of a bus whose rows do not overlap accounts for every second of its
      operating day exactly once. */
  lemma FillSpan(bus: int, rows: seq<Event>)
    requires Chained(rows) && rows != []
    ensures DurationSum(FillBus(bus, rows)) == rows[|rows| - 1].end - rows[0].start
  {
    FillContiguous(bus, rows);
    ContiguousSpan(FillBus(bus, rows));
  }

  /** Idle rows start at some row's end and end at a later row's start, so filling keeps
      every row on the operating day. */
  lemma {:induction false} FillOnOperatingDay(bus: int, rows: seq<Event>, i: nat, prevEnd: Option<int>)
    requires i <= |rows|
    requires forall e :: e in rows ==> OnOperatingDay(e)
    requires prevEnd.Some? ==> NightWindowEnd <= prevEnd.value
    ensures forall e :: e in FillFrom(bus, rows, i, prevEnd) ==> OnOperatingDay(e)
    decreases |rows| - i
  {
    if i < |rows| {
      assert rows[i] in rows;
      FillOnOperatingDay(bus, rows, i + 1, Some(rows[i].end));
    }
  }

  /** The same for one bus, sorted first. */
  lemma FillBusOnOperatingDay(bus: int, rows: seq<Event>)
    requires forall e :: e in rows ==> OnOperatingDay(e)
    ensures forall e :: e in FillBus(bus, SortByStart(rows)) ==> OnOperatingDay(e)
  {
    SortKeepsRows(rows);
    FillOnOperatingDay(bus, SortByStart(rows), 0, None);
  }

  lemma {:induction false} FillGroupsOnOperatingDay(groups: seq<Group>, k: nat)
    requires k <= |groups|
    requires forall g :: g in groups ==> forall e :: e in g.rows ==> OnOperatingDay(e)
    ensures forall e :: e in FillGroupsFrom(groups, k) ==> OnOperatingDay(e)
    decreases |groups| - k
  {
    if k < |groups| {
      var g := groups[k];
      assert g in groups;
      FillBusOnOperatingDay(g.bus, g.rows);
      FillGroupsOnOperatingDay(groups, k + 1);
      var head := FillBus(g.bus, SortByStart(g.rows));
      var tail := FillGroupsFrom(groups, k + 1);
      assert FillGroupsFrom(groups, k) == head + tail;
      forall e | e in head + tail
        ensures OnOperatingDay(e)
      {
        if e in head {
        } else {
          assert e in tail;
        }
      }
    }
  }

  /** Filling the gaps of a normalised table keeps every row on the operating day. */
  lemma TableFillOnOperatingDay(t: seq<Event>)
    requires forall e :: e in t ==> OnOperatingDay(e)
    ensures forall e :: e in FillGroupsFrom(GroupByBus(t), 0) ==> OnOperatingDay(e)
  {
    var gs := GroupByBus(t);
    forall g | g in gs
      ensures forall e :: e in g.rows ==> OnOperatingDay(e)
    {
      var k :| 0 <= k < |gs| && gs[k] == g;
    }
    FillGroupsOnOperatingDay(gs, 0);
  }

  /** Every row of a bus is among its filled rows. */
  lemma {:induction false} FillContainsRows(bus: int, rows: seq<Event>, i: nat, prevEnd: Option<int>)
    requires i <= |rows|
    ensures forall e :: e in rows[i..] ==> e in FillFrom(bus, rows, i, prevEnd)
    decreases |rows| - i
  {
    if i < |rows| {
      FillContainsRows(bus, rows, i + 1, Some(rows[i].end));
      assert rows[i..] == [rows[i]] + rows[i + 1..];
    }
  }

  /** An idle row the gap loop made: positive length, no clock times. */
  predicate AddedIdle(e: Event) {
    e.activity == Idle && e.startTime == None && e.endTime == None && e.start < e.end
  }

  /** The rows of groups[k..], one group after the other. */
  function AllRows(groups: seq<Group>, k: nat): seq<Event>
    requires k <= |groups|
    decreases |groups| - k
  {
    if k == |groups| then [] else groups[k].rows + AllRows(groups, k + 1)
  }

  /** Filling one bus, sorted first, keeps its rows and adds only idle rows. */
  lemma FillBusRowsAndIdle(bus: int, rows: seq<Event>)
    ensures forall e :: e in FillBus(bus, SortByStart(rows)) ==> e in rows || AddedIdle(e)
    ensures forall e :: e in rows ==> e in FillBus(bus, SortByStart(rows))
  {
    var sorted := SortByStart(rows);
    SortKeepsRows(rows);
    FillAddsOnlyIdle(bus, sorted, 0, None);
    FillContainsRows(bus, sorted, 0, None);
    assert sorted[0..] == sorted;
  }

  lemma {:induction false} FillGroupsSound(groups: seq<Group>, k: nat)
    requires k <= |groups|
    ensures forall e :: e in FillGroupsFrom(groups, k) ==> e in AllRows(groups, k) || AddedIdle(e)
    decreases |groups| - k
  {
    if k < |groups| {
      var g := groups[k];
      FillGroupsSound(groups, k + 1);
      FillBusRowsAndIdle(g.bus, g.rows);
      var head := FillBus(g.bus, SortByStart(g.rows));
      var tail := FillGroupsFrom(groups, k + 1);
      assert FillGroupsFrom(groups, k) == head + tail;
      assert AllRows(groups, k) == g.rows + AllRows(groups, k + 1);
      forall e | e in head + tail
        ensures e in AllRows(groups, k) || AddedIdle(e)
      {
        if e in head {
          assert e in g.rows || AddedIdle(e);
        } else {
          assert e in tail;
        }
      }
    }
  }

  lemma {:induction false} FillGroupsComplete(groups: seq<Group>, k: nat)
    requires k <= |groups|
    ensures forall e :: e in AllRows(groups, k) ==> e in FillGroupsFrom(groups, k)
    decreases |groups| - k
  {
    if k < |groups| {
      var g := groups[k];
      FillGroupsComplete(groups, k + 1);
      FillBusRowsAndIdle(g.bus, g.rows);
      var head := FillBus(g.bus, SortByStart(g.rows));
      var tail := FillGroupsFrom(groups, k + 1);
      assert FillGroupsFrom(groups, k) == head + tail;
      assert AllRows(groups, k) == g.rows + AllRows(groups, k + 1);
      forall e | e in g.rows + AllRows(groups, k + 1)
        ensures e in head + tail
      {
        if e in g.rows {
          assert e in head;
        } else {
          assert e in tail;
        }
      }
    }
  }

  /** Some group from position k on is the group of bus b. */
  predicate HasGroup(groups: seq<Group>, k: nat, b: int) {
    exists m :: k <= m < |groups| && groups[m].bus == b
  }

  /** Each group holds its bus's rows of the table, each as often as the table does, and
      no other row. */
  ghost predicate GroupCounts(t: seq<Event>, groups: seq<Group>) {
    forall m, x :: 0 <= m < |groups| ==>
      multiset(groups[m].rows)[x] == if x.bus == groups[m].bus then multiset(t)[x] else 0
  }

  /** Looking for bus b from position k on: either position k holds it, or a later one does,
      and with strictly ascending buses not both. */
  lemma HasGroupStep(groups: seq<Group>, k: nat, b: int)
    requires k < |groups|
    requires forall i, j :: 0 <= i < j < |groups| ==> groups[i].bus < groups[j].bus
    ensures HasGroup(groups, k, b) <==> b == groups[k].bus || HasGroup(groups, k + 1, b)
    ensures b == groups[k].bus ==> !HasGroup(groups, k + 1, b)
  {
    if HasGroup(groups, k, b) && b != groups[k].bus {
      var m :| k <= m < |groups| && groups[m].bus == b;
      assert k + 1 <= m;
    }
  }

  /** One group more: row x is counted in groups[k..] as in groups[k + 1..], plus its
      occurrences in the table when group k is its bus's group. */
  lemma AllRowsCountAt(t: seq<Event>, groups: seq<Group>, k: nat, x: Event)
    requires k < |groups|
    requires forall i, j :: 0 <= i < j < |groups| ==> groups[i].bus < groups[j].bus
    requires multiset(groups[k].rows)[x] == if x.bus == groups[k].bus then multiset(t)[x] else 0
    requires multiset(AllRows(groups, k + 1))[x] == if HasGroup(groups, k + 1, x.bus) then multiset(t)[x] else 0
    ensures multiset(AllRows(groups, k))[x] == if HasGroup(groups, k, x.bus) then multiset(t)[x] else 0
  {
    HasGroupStep(groups, k, x.bus);
    var head := groups[k].rows;
    var tail := AllRows(groups, k + 1);
    assert AllRows(groups, k) == head + tail;
    assert multiset(head + tail)[x] == multiset(head)[x] + multiset(tail)[x];
  }

  /** Groups of distinct buses, each holding its bus's rows of the table as often as the
      table does, hold between them
      every row whose bus has a group, each as often as in the table, and no other row. */
  lemma {:induction false} AllRowsCount(t: seq<Event>, groups: seq<Group>, k: nat)
    requires k <= |groups|
    requires forall i, j :: 0 <= i < j < |groups| ==> groups[i].bus < groups[j].bus
    requires GroupCounts(t, groups)
    ensures forall x :: multiset(AllRows(groups, k))[x] == if HasGroup(groups, k, x.bus) then multiset(t)[x] else 0
    decreases |groups| - k
  {
    if k < |groups| {
      AllRowsCount(t, groups, k + 1);
      forall x: Event
        ensures multiset(AllRows(groups, k))[x] == if HasGroup(groups, k, x.bus) then multiset(t)[x] else 0
      {
        AllRowsCountAt(t, groups, k, x);
      }
    }
  }

  /** When, moreover, every row's bus has a group, the groups hold exactly the table's rows,
      each as often as in the table. */
  lemma AllRowsAreTable(t: seq<Event>, groups: seq<Group>)
    requires forall i, j :: 0 <= i < j < |groups| ==> groups[i].bus < groups[j].bus
    requires GroupCounts(t, groups)
    requires forall e :: e in t ==> HasGroup(groups, 0, e.bus)
    ensures multiset(AllRows(groups, 0)) == multiset(t)
  {
    AllRowsCount(t, groups, 0);
    CountsCover(t, AllRows(groups, 0), groups);
  }

  /** A row list counting every row whose bus has a group as often as the table does, and
      nothing else, is the table up to order once every bus of the table has a group. */
  lemma CountsCover(t: seq<Event>, all: seq<Event>, groups: seq<Group>)
    requires forall x :: multiset(all)[x] == if HasGroup(groups, 0, x.bus) then multiset(t)[x] else 0
    requires forall e :: e in t ==> HasGroup(groups, 0, e.bus)
    ensures multiset(all) == multiset(t)
  {
    forall x: Event
      ensures multiset(all)[x] == multiset(t)[x]
    {
      if x in t {
        assert HasGroup(groups, 0, x.bus);
      }
    }
  }

  /** Two row lists with the same multiset hold the same rows. */
  lemma SameRows(a: seq<Event>, b: seq<Event>)
    requires multiset(a) == multiset(b)
    ensures forall e :: e in a <==> e in b
  {
    forall e
      ensures e in a <==> e in b
    {
      assert e in a <==> e in multiset(a);
      assert e in b <==> e in multiset(b);
    }
  }

  /** Grouping by bus loses no row and repeats none: the groups, one after the other, hold
      the table's rows, each as often as in the table. */
  lemma GroupedRowsAreTable(t: seq<Event>)
    ensures forall e :: e in AllRows(GroupByBus(t), 0) <==> e in t
    ensures multiset(AllRows(GroupByBus(t), 0)) == multiset(t)
  {
    var gs := GroupByBus(t);
    forall m, x | 0 <= m < |gs|
      ensures multiset(gs[m].rows)[x] == if x.bus == gs[m].bus then multiset(t)[x] else 0
    {
      assert gs[m].rows == OfBus(t, gs[m].bus);
    }
    forall e | e in t
      ensures HasGroup(gs, 0, e.bus)
    {
      var m :| 0 <= m < |gs| && gs[m].bus == e.bus && e in gs[m].rows;
    }
    AllRowsAreTable(t, gs);
    SameRows(AllRows(gs, 0), t);
  }

  /** A row with its index label cleared, to compare rows regardless of their numbering. */
  function Unlabelled(e: Event): Event {
    e.(index := 0)
  }

  function UnlabelledRows(t: seq<Event>): (r: seq<Event>)
    ensures |r| == |t| && forall i :: 0 <= i < |t| ==> r[i] == Unlabelled(t[i])
  {
    seq(|t|, i requires 0 <= i < |t| => Unlabelled(t[i]))
  }

  /** The DataFrame built from filled_rows: rows numbered 0, 1, 2, ... Apart from that
      numbering, every row of the table is among its rows, and every other row is an idle
      row of positive length without clock times. */
  function FillTable(t: seq<Event>): (r: seq<Event>)
    ensures forall i :: 0 <= i < |r| ==> r[i].index == i
    ensures forall e :: e in r ==> Unlabelled(e) in UnlabelledRows(t) || AddedIdle(e)
    ensures forall o :: o in t ==> Unlabelled(o) in UnlabelledRows(r)
    ensures (forall o :: o in t ==> OnOperatingDay(o)) ==> forall e :: e in r ==> OnOperatingDay(e)
  {
    var r := Relabel(FillGroupsFrom(GroupByBus(t), 0));
    FillTableFacts(t, r);
    r
  }

  lemma FillTableFacts(t: seq<Event>, r: seq<Event>)
    requires r == Relabel(FillGroupsFrom(GroupByBus(t), 0))
    ensures forall e :: e in r ==> Unlabelled(e) in UnlabelledRows(t) || AddedIdle(e)
    ensures forall o :: o in t ==> Unlabelled(o) in UnlabelledRows(r)
    ensures (forall o :: o in t ==> OnOperatingDay(o)) ==> forall e :: e in r ==> OnOperatingDay(e)
  {
    var filled := FillGroupsFrom(GroupByBus(t), 0);
    assert forall e :: e in r ==> Unlabelled(e) in UnlabelledRows(t) || AddedIdle(e) by {
      FilledRowsSound(t);
      RelabelSound(filled, t);
    }
    assert forall o :: o in t ==> Unlabelled(o) in UnlabelledRows(r) by {
      FilledRowsComplete(t);
      RelabelComplete(filled, t);
    }
    if forall o :: o in t ==> OnOperatingDay(o) {
      assert forall e :: e in r ==> OnOperatingDay(e) by {
        TableFillOnOperatingDay(t);
        RelabelOnOperatingDay(filled);
      }
    }
  }

  /** The filled rows are rows of the table or added idle rows. */
  lemma FilledRowsSound(t: seq<Event>)
    ensures forall e :: e in FillGroupsFrom(GroupByBus(t), 0) ==> e in t || AddedIdle(e)
  {
    GroupedRowsAreTable(t);
    FillGroupsSound(GroupByBus(t), 0);
  }

  /** Every row of the table is among the filled rows. */
  lemma FilledRowsComplete(t: seq<Event>)
    ensures forall o :: o in t ==> o in FillGroupsFrom(GroupByBus(t), 0)
  {
    GroupedRowsAreTable(t);
    FillGroupsComplete(GroupByBus(t), 0);
  }

  lemma RelabelSound(filled: seq<Event>, t: seq<Event>)
    requires forall e :: e in filled ==> e in t || AddedIdle(e)
    ensures forall e :: e in Relabel(filled) ==> Unlabelled(e) in UnlabelledRows(t) || AddedIdle(e)
  {
    var r := Relabel(filled);
    var ut := UnlabelledRows(t);
    forall e | e in r
      ensures Unlabelled(e) in ut || AddedIdle(e)
    {
      var i :| 0 <= i < |r| && r[i] == e;
      assert filled[i] in filled;
      if filled[i] in t {
        var j :| 0 <= j < |t| && t[j] == filled[i];
        assert ut[j] == Unlabelled(e);
      }
    }
  }

  lemma RelabelComplete(filled: seq<Event>, t: seq<Event>)
    requires forall o :: o in t ==> o in filled
    ensures forall o :: o in t ==> Unlabelled(o) in UnlabelledRows(Relabel(filled))
  {
    var r := Relabel(filled);
    var ur := UnlabelledRows(r);
    forall o | o in t
      ensures Unlabelled(o) in ur
    {
      var i :| 0 <= i < |filled| && filled[i] == o;
      assert r[i] == o.(index := i);
      assert ur[i] == Unlabelled(r[i]) == Unlabelled(o);
    }
  }

  lemma RelabelOnOperatingDay(s: seq<Event>)
    requires forall e :: e in s ==> OnOperatingDay(e)
    ensures forall e :: e in Relabel(s) ==> OnOperatingDay(e)
  {
    forall e | e in Relabel(s)
      ensures OnOperatingDay(e)
    {
      var i :| 0 <= i < |s| && Relabel(s)[i] == e;
      assert s[i] in s;
    }
  }

  // ---------------------------------------------------------------------------
  // Filters and the idle energy column

  predicate PositiveLength(e: Event) {
    e.end > e.start
  }

  /** df_filled[df_filled["end_seconds"] > df_filled["start_seconds"]] */
  function KeepPositive(s: seq<Event>): (r: seq<Event>)
    ensures forall e :: e in r <==> e in s && e.end > e.start
    ensures Selects(r, s, PositiveLength)
  {
    Where(s, PositiveLength)
  }

  /** When every row of a bus has positive length, the length filter after filling removes
      nothing: the idle rows it adds always have positive length. */
  lemma FilterKeepsFilledBus(bus: int, rows: seq<Event>)
    requires forall e :: e in rows ==> e.end > e.start
    ensures KeepPositive(FillBus(bus, rows)) == FillBus(bus, rows)
  {
    FillAddsOnlyIdle(bus, rows, 0, None);
    assert rows[0..] == rows;
    WhereAll(FillBus(bus, rows), PositiveLength);
  }

  /** Idle energy of a row in kWh: hours times 5 kW. */
  function IdleEnergy(start: int, end: int): (kwh: real)
    ensures start <= end ==> kwh >= 0.0
    ensures kwh * 720.0 == (end - start) as real
  {
    ((end - start) as real / 3600.0) * IdlePower
  }

  /** The masked rewrite of 'energy consumption' for every row whose activity is idle,
      the rows the scripts added and any idle rows of the plan itself. */
  function SetIdleEnergy(s: seq<Event>): (r: seq<Event>)
    ensures |r| == |s|
    ensures forall i :: 0 <= i < |s| ==> r[i].(energy := s[i].energy) == s[i]
    ensures forall i :: 0 <= i < |s| && s[i].activity == Idle ==> r[i].energy * 720.0 == (s[i].end - s[i].start) as real
    ensures forall i :: 0 <= i < |s| && s[i].activity != Idle ==> r[i] == s[i]
  {
    seq(|s|, i requires 0 <= i < |s| =>
      if s[i].activity == Idle then s[i].(energy := IdleEnergy(s[i].start, s[i].end)) else s[i])
  }

  /** Filling in idle energy keeps the rows that are not idle and changes only the energy of
      the idle ones. */
  lemma SetIdleFacts(s: seq<Event>)
    ensures forall e :: e in SetIdleEnergy(s) && e.activity != Idle ==> e in s
    ensures forall o :: o in s && o.activity != Idle ==> o in SetIdleEnergy(s)
    ensures (forall o :: o in s ==> o.end > o.start) ==> forall e :: e in SetIdleEnergy(s) ==> e.end > e.start
    ensures (forall o :: o in s ==> OnOperatingDay(o)) ==> forall e :: e in SetIdleEnergy(s) ==> OnOperatingDay(e)
  {
    var r := SetIdleEnergy(s);
    forall e | e in r
      ensures e.activity != Idle ==> e in s
      ensures (forall o :: o in s ==> o.end > o.start) ==> e.end > e.start
      ensures (forall o :: o in s ==> OnOperatingDay(o)) ==> OnOperatingDay(e)
    {
      var i :| 0 <= i < |r| && r[i] == e;
      assert s[i] in s;
    }
    forall o | o in s && o.activity != Idle
      ensures o in r
    {
      var i :| 0 <= i < |s| && s[i] == o;
      assert r[i] == o;
    }
  }
}
