/** The bus plan as a table of rows, and the table operations the scripts borrow from
    pandas: sorting a bus's rows by start second, and grouping the rows by bus. */
module Schedule {

  datatype Option<T> = None | Some(value: T)

  /** A wall-clock time parsed from "HH:MM:SS". */
  datatype ClockTime = ClockTime(hour: int, minute: int, second: int)

  predicate ValidClock(c: ClockTime) {
    0 <= c.hour < 24 && 0 <= c.minute < 60 && 0 <= c.second < 60
  }

  /** Only valid clock times survive parsing: a malformed string raises in the scripts. */
  type Clock = c: ClockTime | ValidClock(c) witness ClockTime(0, 0, 0)

  /** The `activity` column; `Idle` and `Charging` are also what the scripts synthesise. */
  datatype Activity = ServiceTrip | Idle | Charging | Other(name: string)

  /** One row of the bus-plan spreadsheet, as read. */
  datatype Row = Row(bus: int, activity: Activity, startClock: Clock, endClock: Clock,
                     startLocation: string, endLocation: string, energy: real)

  /** One row of a working table.
      `index` is the pandas index label of the row.
      `startTime`/`endTime` are the 'start time'/'end time' columns as seconds of the fixed
      parse date; rows the scripts synthesise have no such value (NaT), hence None.
      `start`/`end` are the 'start_seconds'/'end_seconds' columns. */
  datatype Event = Event(index: int, bus: int, activity: Activity,
                         startTime: Option<int>, endTime: Option<int>,
                         start: int, end: int, energy: real,
                         startLocation: string, endLocation: string)

  const Day: int := 24 * 3600

  /** Seconds since midnight of a clock time. */
  function ClockSeconds(c: Clock): (t: int)
    ensures 0 <= t < Day
  {
    c.hour * 3600 + c.minute * 60 + c.second
  }

  /** The clock time of a second of the day: the inverse of ClockSeconds. */
  function ClockOf(t: int): (c: Clock)
    requires 0 <= t < Day
  {
    ClockTime(t / 3600, (t % 3600) / 60, t % 60)
  }

  lemma ClockRoundTrip(c: Clock)
    ensures ClockOf(ClockSeconds(c)) == c
  {
    var t := ClockSeconds(c);
    var r := c.minute * 60 + c.second;
    assert 0 <= r < 3600;
    assert t == c.hour * 3600 + r;
    assert t / 3600 == c.hour && t % 3600 == r;
    assert r / 60 == c.minute && r % 60 == c.second;
    assert t % 60 == c.second;
  }

  lemma SecondsRoundTrip(t: int)
    requires 0 <= t < Day
    ensures ClockSeconds(ClockOf(t)) == t
  {
    var r := t % 3600;
    assert t == (t / 3600) * 3600 + r;
    assert r == (r / 60) * 60 + r % 60;
    assert t % 60 == r % 60;
  }

  /** The row as it stands in the raw table, before any time normalisation:
      the seconds columns hold the plain clock seconds. */
  function FromRow(index: int, r: Row): (e: Event)
    ensures e.startTime == Some(e.start) && e.endTime == Some(e.end)
    ensures 0 <= e.start < Day && 0 <= e.end < Day
  {
    Event(index, r.bus, r.activity,
          Some(ClockSeconds(r.startClock)), Some(ClockSeconds(r.endClock)),
          ClockSeconds(r.startClock), ClockSeconds(r.endClock), r.energy,
          r.startLocation, r.endLocation)
  }

  /** The raw table with index labels 0, 1, 2, ... */
  function RawTable(rows: seq<Row>): (t: seq<Event>)
    ensures |t| == |rows|
    ensures forall i :: 0 <= i < |t| ==> t[i].index == i && t[i].bus == rows[i].bus
  {
    seq(|rows|, i requires 0 <= i < |rows| => FromRow(i, rows[i]))
  }

  /** Building a DataFrame from a list of row dicts numbers the rows 0, 1, 2, ... */
  function Relabel(s: seq<Event>): (r: seq<Event>)
    ensures |r| == |s|
    ensures forall i :: 0 <= i < |s| ==> r[i] == s[i].(index := i)
    ensures forall i :: 0 <= i < |r| ==> r[i].index == i
  {
    seq(|s|, i requires 0 <= i < |s| => s[i].(index := i))
  }

  function Energies(s: seq<Event>): (es: seq<real>)
    ensures |es| == |s| && forall i :: 0 <= i < |s| ==> es[i] == s[i].energy
  {
    seq(|s|, i requires 0 <= i < |s| => s[i].energy)
  }

  // ---------------------------------------------------------------------------
  // sort_values("start_seconds")

  predicate SortedByStart(s: seq<Event>) {
    forall i, j :: 0 <= i < j < |s| ==> s[i].start <= s[j].start
  }

  function InsertByStart(e: Event, s: seq<Event>): (r: seq<Event>)
    ensures multiset(r) == multiset(s) + multiset{e}
    ensures forall x :: x in r ==> x == e || x in s
  {
    if s == [] || e.start <= s[0].start then [e] + s
    else
      assert s == [s[0]] + s[1..];
      [s[0]] + InsertByStart(e, s[1..])
  }

  lemma {:induction false} InsertKeepsSorted(e: Event, s: seq<Event>)
    requires SortedByStart(s)
    ensures SortedByStart(InsertByStart(e, s))
  {
    if s != [] && e.start > s[0].start {
      assert SortedByStart(s[1..]);
      InsertKeepsSorted(e, s[1..]);
      var rest := InsertByStart(e, s[1..]);
      forall x | x in rest
        ensures s[0].start <= x.start
      {
        if x != e {
          var j :| 0 <= j < |s[1..]| && s[1..][j] == x;
          assert s[j + 1] == x;
        }
      }
      assert InsertByStart(e, s) == [s[0]] + rest;
      forall i, j | 0 <= i < j < |[s[0]] + rest|
        ensures ([s[0]] + rest)[i].start <= ([s[0]] + rest)[j].start
      {
        if i == 0 {
          assert ([s[0]] + rest)[j] == rest[j - 1];
          assert rest[j - 1] in rest;
        }
      }
    }
  }

  /** An insertion sort by start second. Rows that start at the same second keep their
      order; pandas' default sort does not promise that, so the order of ties is a choice. */
  function SortByStart(s: seq<Event>): (r: seq<Event>)
    ensures SortedByStart(r)
    ensures multiset(r) == multiset(s)
  {
    if s == [] then []
    else
      assert s == [s[0]] + s[1..];
      var rest := SortByStart(s[1..]);
      InsertKeepsSorted(s[0], rest);
      InsertByStart(s[0], rest)
  }

  /** Concatenation regroups freely; the loops that append use it to move one step's rows
      from the pending part to the part already built. */
  lemma ConcatAssoc<T>(a: seq<T>, b: seq<T>, c: seq<T>)
    ensures a + (b + c) == (a + b) + c
  {
  }

  /** Sorting keeps exactly the rows it was given. */
  lemma SortKeepsRows(s: seq<Event>)
    ensures forall e :: e in SortByStart(s) <==> e in s
  {
    var r := SortByStart(s);
    forall e
      ensures e in r <==> e in s
    {
      assert e in r <==> e in multiset(r);
      assert e in s <==> e in multiset(s);
    }
  }

  /** Sorting rows that are already in start order changes nothing. */
  lemma {:induction false} SortSorted(s: seq<Event>)
    requires SortedByStart(s)
    ensures SortByStart(s) == s
  {
    if s != [] {
      assert SortedByStart(s[1..]);
      SortSorted(s[1..]);
      assert s[1..] == [] || s[0].start <= s[1..][0].start;
    }
  }

  // ---------------------------------------------------------------------------
  // Boolean-mask selection (df[mask])

  /** r is s with some rows left out and the others in their table order. */
  predicate SubsequenceOf(r: seq<Event>, s: seq<Event>)
    decreases |s|
  {
    r == [] || (s != [] && ((r[0] == s[0] && SubsequenceOf(r[1..], s[1..])) || SubsequenceOf(r, s[1..])))
  }

  /** r is what a mask built from `keep` selects from s: the rows `keep` accepts, in table
      order, each as many times as it occurs in s, and no other row. */
  ghost predicate Selects(r: seq<Event>, s: seq<Event>, keep: Event -> bool) {
    SubsequenceOf(r, s) && forall x :: multiset(r)[x] == if keep(x) then multiset(s)[x] else 0
  }

  /** The rows that satisfy `keep`, in order (a boolean-mask selection). */
  function Where(s: seq<Event>, keep: Event -> bool): (r: seq<Event>)
    ensures |r| <= |s|
    ensures forall e :: e in r <==> e in s && keep(e)
    ensures Selects(r, s, keep)
  {
    if s == [] then []
    else
      assert s == [s[0]] + s[1..];
      var rest := Where(s[1..], keep);
      SelectsCons(s[0], s[1..], rest, keep);
      (if keep(s[0]) then [s[0]] else []) + rest
  }

  /** Selecting from one more row in front: the row is kept in front if accepted. */
  lemma SelectsCons(x: Event, t: seq<Event>, rest: seq<Event>, keep: Event -> bool)
    requires Selects(rest, t, keep)
    ensures Selects((if keep(x) then [x] else []) + rest, [x] + t, keep)
  {
    var r := (if keep(x) then [x] else []) + rest;
    var s := [x] + t;
    assert s[1..] == t;
    if keep(x) {
      assert r[0] == s[0] && r[1..] == rest;
    } else {
      assert r == rest;
    }
    assert SubsequenceOf(r, s);
  }

  /** A row of a subsequence occurs in it no more often than in the sequence. */
  lemma {:induction false} SubsequenceCount(r: seq<Event>, s: seq<Event>)
    requires SubsequenceOf(r, s)
    ensures forall x :: multiset(r)[x] <= multiset(s)[x]
    decreases |s|
  {
    if r != [] {
      assert s == [s[0]] + s[1..];
      if r[0] == s[0] && SubsequenceOf(r[1..], s[1..]) {
        SubsequenceCount(r[1..], s[1..]);
        assert r == [r[0]] + r[1..];
      } else {
        SubsequenceCount(r, s[1..]);
      }
    }
  }

  /** A subsequence holding a row more often than the tail does starts with that row. */
  lemma SubsequenceFront(r: seq<Event>, s: seq<Event>)
    requires SubsequenceOf(r, s) && s != []
    ensures multiset(r)[s[0]] > multiset(s[1..])[s[0]] ==>
              r != [] && r[0] == s[0] && SubsequenceOf(r[1..], s[1..])
  {
    if r != [] && !(r[0] == s[0] && SubsequenceOf(r[1..], s[1..])) {
      SubsequenceCount(r, s[1..]);
    }
  }

  /** The selection is determined by the mask: whatever keeps exactly the accepted rows,
      each as often as in s and in table order, is Where(s, keep). */
  lemma {:induction false} SelectionIsWhere(r: seq<Event>, s: seq<Event>, keep: Event -> bool)
    requires Selects(r, s, keep)
    ensures r == Where(s, keep)
    decreases |s|
  {
    if s != [] {
      var x, t := s[0], s[1..];
      assert s == [x] + t;
      if keep(x) {
        SubsequenceFront(r, s);
        assert multiset(s)[x] == multiset(t)[x] + 1;
        assert r == [x] + r[1..];
        forall y
          ensures multiset(r[1..])[y] == if keep(y) then multiset(t)[y] else 0
        {
          if !keep(y) {
            assert y != x;
          }
        }
        SelectionIsWhere(r[1..], t, keep);
      } else {
        if r != [] {
          assert r[0] in multiset(r);
          assert r[0] != x;
        }
        assert SubsequenceOf(r, t);
        forall y
          ensures multiset(r)[y] == if keep(y) then multiset(t)[y] else 0
        {
          if keep(y) {
            assert y != x;
          }
        }
        SelectionIsWhere(r, t, keep);
      }
    }
  }

  /** A mask every row passes returns the table unchanged. */
  lemma {:induction false} WhereAll(s: seq<Event>, keep: Event -> bool)
    requires forall e :: e in s ==> keep(e)
    ensures Where(s, keep) == s
  {
    if s != [] {
      assert s[0] in s;
      assert forall e :: e in s[1..] ==> e in s;
      WhereAll(s[1..], keep);
    }
  }

  /** Every row of a subsequence is a row of the sequence. */
  lemma SubsequenceIn(r: seq<Event>, s: seq<Event>)
    requires SubsequenceOf(r, s)
    ensures forall e :: e in r ==> e in s
  {
    SubsequenceCount(r, s);
    forall e | e in r
      ensures e in s
    {
      assert e in multiset(r);
    }
  }

  /** A selection from rows in start order is in start order. */
  lemma {:induction false} SubsequenceSorted(r: seq<Event>, s: seq<Event>)
    requires SubsequenceOf(r, s) && SortedByStart(s)
    ensures SortedByStart(r)
    decreases |s|
  {
    if r != [] {
      assert SortedByStart(s[1..]);
      if r[0] == s[0] && SubsequenceOf(r[1..], s[1..]) {
        SubsequenceSorted(r[1..], s[1..]);
        SubsequenceIn(r[1..], s[1..]);
        forall i, j | 0 <= i < j < |r|
          ensures r[i].start <= r[j].start
        {
          assert r[j] == r[1..][j - 1] && r[j] in s[1..];
          if i > 0 {
            assert r[i] == r[1..][i - 1];
          } else {
            var m :| 0 <= m < |s[1..]| && s[1..][m] == r[j];
            assert s[m + 1] == r[j];
          }
        }
      } else {
        SubsequenceSorted(r, s[1..]);
      }
    }
  }

  // ---------------------------------------------------------------------------
  // groupby("bus")

  /** The mask `df["bus"] == b`. */
  function OnBus(b: int): (keep: Event -> bool)
    ensures forall e :: keep(e) <==> e.bus == b
  {
    (e: Event) => e.bus == b
  }

  /** The rows of one bus: what the mask on the bus column selects, in table order. */
  function OfBus(s: seq<Event>, b: int): (r: seq<Event>)
    ensures |r| <= |s|
    ensures forall e :: e in r <==> e in s && e.bus == b
    ensures SubsequenceOf(r, s)
    ensures forall x :: multiset(r)[x] == if x.bus == b then multiset(s)[x] else 0
  {
    Where(s, OnBus(b))
  }

  /** Inserts a key into a strictly ascending list of keys, unless already there. */
  function InsertKey(b: int, keys: seq<int>): (r: seq<int>)
    requires StrictlyAscending(keys)
    ensures StrictlyAscending(r)
    ensures forall k :: k in r <==> k == b || k in keys
  {
    if keys == [] || b < keys[0] then
      AscendingTail(keys);
      AscendingCons(b, keys);
      [b] + keys
    else if b == keys[0] then keys
    else
      AscendingTail(keys);
      var rest := InsertKey(b, keys[1..]);
      AscendingCons(keys[0], rest);
      [keys[0]] + rest
  }

  predicate StrictlyAscending(s: seq<int>) {
    forall i, j :: 0 <= i < j < |s| ==> s[i] < s[j]
  }

  /** The tail of an ascending list is ascending and above its head. */
  lemma AscendingTail(s: seq<int>)
    requires StrictlyAscending(s)
    ensures s != [] ==> StrictlyAscending(s[1..]) && forall k :: k in s[1..] ==> s[0] < k
  {
    if s != [] {
      forall k | k in s[1..]
        ensures s[0] < k
      {
        var j :| 0 <= j < |s[1..]| && s[1..][j] == k;
        assert s[j + 1] == k;
      }
    }
  }

  lemma AscendingCons(x: int, s: seq<int>)
    requires StrictlyAscending(s)
    requires forall k :: k in s ==> x < k
    ensures StrictlyAscending([x] + s)
  {
    var r := [x] + s;
    forall i, j | 0 <= i < j < |r|
      ensures r[i] < r[j]
    {
      assert r[j] == s[j - 1];
      if i == 0 {
        assert s[j - 1] in s;
      } else {
        assert r[i] == s[i - 1];
      }
    }
  }

  /** The buses of a table in ascending order, each once: the order in which groupby
      visits them. */
  function BusKeys(s: seq<Event>): (r: seq<int>)
    ensures StrictlyAscending(r)
    ensures forall b :: b in r <==> exists e :: e in s && e.bus == b
  {
    if s == [] then []
    else
      assert s == [s[0]] + s[1..];
      InsertKey(s[0].bus, BusKeys(s[1..]))
  }

  /** The groupby keys depend only on the 'bus' column. */
  lemma {:induction false} SameBusesSameKeys(s: seq<Event>, t: seq<Event>)
    requires |s| == |t| && forall i :: 0 <= i < |s| ==> s[i].bus == t[i].bus
    ensures BusKeys(s) == BusKeys(t)
  {
    if s != [] {
      SameBusesSameKeys(s[1..], t[1..]);
    }
  }

  datatype Group = Group(bus: int, rows: seq<Event>)

  /** Groups in a given key order, as groupby visits a categorical column. */
  function GroupsIn(s: seq<Event>, order: seq<int>): (gs: seq<Group>)
    ensures |gs| == |order|
    ensures forall k :: 0 <= k < |gs| ==> gs[k] == Group(order[k], OfBus(s, order[k]))
  {
    seq(|order|, k requires 0 <= k < |order| => Group(order[k], OfBus(s, order[k])))
  }

  /** groupby("bus") on a plain column: one group per bus present, buses ascending,
      every group holding exactly that bus's rows in table order, none empty. */
  function GroupByBus(s: seq<Event>): (gs: seq<Group>)
    ensures forall i, j :: 0 <= i < j < |gs| ==> gs[i].bus < gs[j].bus
    ensures forall k :: 0 <= k < |gs| ==> gs[k].rows == OfBus(s, gs[k].bus) && gs[k].rows != []
    ensures forall e :: e in s ==> exists k :: 0 <= k < |gs| && gs[k].bus == e.bus && e in gs[k].rows
  {
    var order := BusKeys(s);
    var gs := GroupsIn(s, order);
    forall k | 0 <= k < |gs|
      ensures gs[k].rows != []
    {
      assert order[k] in order;
      var e :| e in s && e.bus == order[k];
      assert e in gs[k].rows;
    }
    forall e | e in s
      ensures exists k :: 0 <= k < |gs| && gs[k].bus == e.bus && e in gs[k].rows
    {
      assert e.bus in order;
      var k :| 0 <= k < |order| && order[k] == e.bus;
      assert gs[k].bus == e.bus && e in gs[k].rows;
    }
    gs
  }

  /** The rows of all groups, one group after the other. */
  function Flatten(gs: seq<Group>): (s: seq<Event>)
    ensures forall g :: g in gs ==> forall e :: e in g.rows ==> e in s
  {
    if gs == [] then [] else gs[0].rows + Flatten(gs[1..])
  }

  // ---------------------------------------------------------------------------
  // sums

  function Positive(x: real): real {
    if x > 0.0 then x else 0.0
  }

  /** Sum of es[i..j]. */
  function SumRange(es: seq<real>, i: int, j: int): real
    requires 0 <= i && j <= |es|
    decreases j - i
  {
    if i >= j then 0.0 else es[i] + SumRange(es, i + 1, j)
  }

  /** Sum of the positive entries of es[i..j]. */
  function PositiveSumRange(es: seq<real>, i: int, j: int): (r: real)
    requires 0 <= i && j <= |es|
    ensures r >= 0.0
    decreases j - i
  {
    if i >= j then 0.0 else Positive(es[i]) + PositiveSumRange(es, i + 1, j)
  }
}
