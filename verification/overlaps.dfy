/** Overlap_Checker / check_overlaps: every pair of rows of one bus whose clock intervals
    overlap, compared on the 'start time'/'end time' columns. The code is the same in
    combined8, combined4, combined3 and pipodeclown. */
module Overlaps {
  import opened Schedule

  /** `a < b` on a datetime column: a missing value (NaT) makes the comparison false. */
  predicate Before(a: Option<int>, b: Option<int>) {
    a.Some? && b.Some? && a.value < b.value
  }

  /** The half-open overlap test of check_overlaps. */
  predicate Overlap(a: Event, b: Event) {
    Before(a.startTime, b.endTime) && Before(b.startTime, a.endTime)
  }

  /** The part of a row copied into an overlap tuple. */
  datatype TripData = TripData(index: int, startLocation: string, endLocation: string,
                               startTime: Option<int>, endTime: Option<int>)

  function Data(e: Event): (d: TripData)
    ensures d.index == e.index && d.startTime == e.startTime && d.endTime == e.endTime
  {
    TripData(e.index, e.startLocation, e.endLocation, e.startTime, e.endTime)
  }

  /** One tuple of check_overlaps: the earlier row of the pair first. */
  datatype Pair = Pair(first: TripData, second: TripData)

  /** One tuple of Overlap_Checker: the bus, then the pair. */
  datatype OverlapRecord = OverlapRecord(bus: int, pair: Pair)

  /** The positions (i, j') with j <= j' < |g| that the inner loop reports for row i. */
  function HitsWith(g: seq<Event>, i: nat, j: nat): seq<(nat, nat)>
    requires i < |g| && j <= |g|
    decreases |g| - j
  {
    if j == |g| then []
    else (if Overlap(g[i], g[j]) then [(i, j)] else []) + HitsWith(g, i, j + 1)
  }

  /** The positions the two loops report for rows i, i+1, ... */
  function HitsFrom(g: seq<Event>, i: nat): seq<(nat, nat)>
    requires i <= |g|
    decreases |g| - i
  {
    if i == |g| then [] else HitsWith(g, i, i + 1) + HitsFrom(g, i + 1)
  }

  function Hits(g: seq<Event>): seq<(nat, nat)> {
    HitsFrom(g, 0)
  }

  /** The tuples for a list of positions. */
  function Report(g: seq<Event>, hits: seq<(nat, nat)>): (r: seq<Pair>)
    requires forall k :: 0 <= k < |hits| ==> hits[k].0 < |g| && hits[k].1 < |g|
    ensures |r| == |hits|
    ensures forall k :: 0 <= k < |hits| ==> r[k] == Pair(Data(g[hits[k].0]), Data(g[hits[k].1]))
  {
    seq(|hits|, k requires 0 <= k < |hits| => Pair(Data(g[hits[k].0]), Data(g[hits[k].1])))
  }

  lemma {:induction false} HitsWithBounds(g: seq<Event>, i: nat, j: nat)
    requires i < |g| && j <= |g|
    ensures forall k :: 0 <= k < |HitsWith(g, i, j)| ==>
              HitsWith(g, i, j)[k].0 == i && j <= HitsWith(g, i, j)[k].1 < |g|
    ensures forall k, l :: 0 <= k < l < |HitsWith(g, i, j)| ==> HitsWith(g, i, j)[k].1 < HitsWith(g, i, j)[l].1
    ensures forall j' :: j <= j' < |g| ==> ((i, j') in HitsWith(g, i, j) <==> Overlap(g[i], g[j']))
    decreases |g| - j
  {
    if j < |g| {
      HitsWithBounds(g, i, j + 1);
    }
  }

  /** Exactly the pairs i < j of rows that overlap are reported, and only positions within the
      group: a pair of touching rows (one ends when the other starts) is never among them. */
  lemma {:induction false} HitsExact(g: seq<Event>, i: nat)
    requires i <= |g|
    ensures forall k :: 0 <= k < |HitsFrom(g, i)| ==>
              i <= HitsFrom(g, i)[k].0 < HitsFrom(g, i)[k].1 < |g|
    ensures forall a, b :: (a, b) in HitsFrom(g, i) <==> i <= a < b < |g| && Overlap(g[a], g[b])
    decreases |g| - i
  {
    if i < |g| {
      HitsWithBounds(g, i, i + 1);
      HitsExact(g, i + 1);
      var w: seq<(nat, nat)> := HitsWith(g, i, i + 1);
      var rest: seq<(nat, nat)> := HitsFrom(g, i + 1);
      assert HitsFrom(g, i) == w + rest;
      forall k | 0 <= k < |w + rest|
        ensures i <= (w + rest)[k].0 < (w + rest)[k].1 < |g|
      {
        if k < |w| {
          assert (w + rest)[k] == w[k];
        } else {
          assert (w + rest)[k] == rest[k - |w|];
        }
      }
      forall a, b | (a, b) in w + rest
        ensures i <= a < b < |g| && Overlap(g[a], g[b])
      {
        if (a, b) in w {
          var k :| 0 <= k < |w| && w[k] == (a, b);
        } else {
          assert (a, b) in rest;
        }
      }
      forall a, b | i <= a < b < |g| && Overlap(g[a], g[b])
        ensures (a, b) in w + rest
      {
        if a == i {
          assert (i, b) in w;
        } else {
          assert (a, b) in rest;
        }
      }
    }
  }

  /** The tuples come out ordered by first row, then by second row, each pair once. */
  lemma {:induction false} HitsOrdered(g: seq<Event>, i: nat)
    requires i <= |g|
    ensures forall k, l :: 0 <= k < l < |HitsFrom(g, i)| ==>
              HitsFrom(g, i)[k].0 < HitsFrom(g, i)[l].0 ||
              (HitsFrom(g, i)[k].0 == HitsFrom(g, i)[l].0 && HitsFrom(g, i)[k].1 < HitsFrom(g, i)[l].1)
    decreases |g| - i
  {
    if i < |g| {
      HitsWithBounds(g, i, i + 1);
      HitsOrdered(g, i + 1);
      HitsExact(g, i + 1);
      var w: seq<(nat, nat)> := HitsWith(g, i, i + 1);
      var rest: seq<(nat, nat)> := HitsFrom(g, i + 1);
      forall k, l | 0 <= k < l < |w + rest|
        ensures (w + rest)[k].0 < (w + rest)[l].0 ||
                ((w + rest)[k].0 == (w + rest)[l].0 && (w + rest)[k].1 < (w + rest)[l].1)
      {
        if k < |w| && l >= |w| {
          assert (w + rest)[l] == rest[l - |w|];
        }
      }
    }
  }

  lemma HitsInRange(g: seq<Event>)
    ensures forall k :: 0 <= k < |Hits(g)| ==> Hits(g)[k].0 < |g| && Hits(g)[k].1 < |g|
  {
    HitsExact(g, 0);
  }

  /** What the inner loop appends for row i and rows j, j+1, ... */
  function PairsWith(g: seq<Event>, i: nat, j: nat): seq<Pair>
    requires i < |g| && j <= |g|
    decreases |g| - j
  {
    if j == |g| then []
    else (if Overlap(g[i], g[j]) then [Pair(Data(g[i]), Data(g[j]))] else []) + PairsWith(g, i, j + 1)
  }

  /** What the two loops append for rows i, i+1, ... */
  function PairsFrom(g: seq<Event>, i: nat): seq<Pair>
    requires i <= |g|
    decreases |g| - i
  {
    if i == |g| then [] else PairsWith(g, i, i + 1) + PairsFrom(g, i + 1)
  }

  lemma ReportConcat(g: seq<Event>, a: seq<(nat, nat)>, b: seq<(nat, nat)>)
    requires forall k :: 0 <= k < |a| ==> a[k].0 < |g| && a[k].1 < |g|
    requires forall k :: 0 <= k < |b| ==> b[k].0 < |g| && b[k].1 < |g|
    ensures Report(g, a + b) == Report(g, a) + Report(g, b)
  {
    assert forall k :: 0 <= k < |a + b| ==> (a + b)[k].0 < |g| && (a + b)[k].1 < |g|;
  }

  /** The positions the inner loop reports for row i all lie within the group. */
  lemma {:induction false} HitsWithRange(g: seq<Event>, i: nat, j: nat)
    requires i < |g| && j <= |g|
    ensures forall k :: 0 <= k < |HitsWith(g, i, j)| ==> HitsWith(g, i, j)[k].0 < |g| && HitsWith(g, i, j)[k].1 < |g|
    decreases |g| - j
  {
    if j < |g| {
      HitsWithRange(g, i, j + 1);
      var head: seq<(nat, nat)> := if Overlap(g[i], g[j]) then [(i, j)] else [];
      var tail := HitsWith(g, i, j + 1);
      assert HitsWith(g, i, j) == head + tail;
      forall k | 0 <= k < |head + tail|
        ensures (head + tail)[k].0 < |g| && (head + tail)[k].1 < |g|
      {
        if k >= |head| {
          assert (head + tail)[k] == tail[k - |head|];
        }
      }
    }
  }

  lemma {:induction false} PairsWithReport(g: seq<Event>, i: nat, j: nat)
    requires i < |g| && j <= |g|
    ensures forall k :: 0 <= k < |HitsWith(g, i, j)| ==> HitsWith(g, i, j)[k].0 < |g| && HitsWith(g, i, j)[k].1 < |g|
    ensures PairsWith(g, i, j) == Report(g, HitsWith(g, i, j))
    decreases |g| - j
  {
    HitsWithRange(g, i, j);
    if j < |g| {
      PairsWithReport(g, i, j + 1);
      var head: seq<(nat, nat)> := if Overlap(g[i], g[j]) then [(i, j)] else [];
      var tail := HitsWith(g, i, j + 1);
      HitsWithRange(g, i, j + 1);
      assert HitsWith(g, i, j) == head + tail;
      assert Report(g, head) == if Overlap(g[i], g[j]) then [Pair(Data(g[i]), Data(g[j]))] else [];
      ReportConcat(g, head, tail);
    }
  }

  lemma {:induction false} PairsFromReport(g: seq<Event>, i: nat)
    requires i <= |g|
    ensures forall k :: 0 <= k < |HitsFrom(g, i)| ==> HitsFrom(g, i)[k].0 < |g| && HitsFrom(g, i)[k].1 < |g|
    ensures PairsFrom(g, i) == Report(g, HitsFrom(g, i))
    decreases |g| - i
  {
    HitsExact(g, i);
    if i < |g| {
      PairsWithReport(g, i, i + 1);
      PairsFromReport(g, i + 1);
      ReportConcat(g, HitsWith(g, i, i + 1), HitsFrom(g, i + 1));
    }
  }

  /** The tuples check_overlaps returns for a group: one per reported position pair, in the
      order of Hits, each holding the data of its two rows. */
  function Overlaps(g: seq<Event>): (r: seq<Pair>)
    ensures forall k :: 0 <= k < |Hits(g)| ==> Hits(g)[k].0 < |g| && Hits(g)[k].1 < |g|
    ensures r == Report(g, Hits(g))
  {
    PairsFromReport(g, 0);
    PairsFrom(g, 0)
  }

  /** A group has no overlapping pair exactly when check_overlaps returns nothing. */
  lemma NoOverlapsIffEmpty(g: seq<Event>)
    ensures Overlaps(g) == [] <==> forall a, b :: 0 <= a < b < |g| ==> !Overlap(g[a], g[b])
  {
    HitsExact(g, 0);
    if Hits(g) != [] {
      assert Hits(g)[0] in Hits(g);
    }
  }

  lemma PairsStep(g: seq<Event>, i: nat, j: nat)
    requires i < j < |g|
    ensures Overlap(g[i], g[j]) ==>
              PairsWith(g, i, j) == [Pair(Data(g[i]), Data(g[j]))] + PairsWith(g, i, j + 1)
    ensures !Overlap(g[i], g[j]) ==> PairsWith(g, i, j) == PairsWith(g, i, j + 1)
  {
  }

  /** check_overlaps: the nested i/j loops appending to `overlaps`. */
  method CheckOverlaps(g: seq<Event>) returns (overlaps: seq<Pair>)
    ensures overlaps == Overlaps(g)
  {
    overlaps := [];
    var i := 0;
    while i < |g|
      invariant 0 <= i <= |g|
      invariant overlaps + PairsFrom(g, i) == PairsFrom(g, 0)
    {
      ghost var base := overlaps;
      var j := i + 1;
      while j < |g|
        invariant i + 1 <= j <= |g|
        invariant overlaps + PairsWith(g, i, j) == base + PairsWith(g, i, i + 1)
      {
        PairsStep(g, i, j);
        if Overlap(g[i], g[j]) {
          var p := Pair(Data(g[i]), Data(g[j]));
          ConcatAssoc(overlaps, [p], PairsWith(g, i, j + 1));
          overlaps := overlaps + [p];
        }
        j := j + 1;
      }
      assert PairsWith(g, i, j) == [];
      assert overlaps == base + PairsWith(g, i, i + 1);
      assert PairsFrom(g, i) == PairsWith(g, i, i + 1) + PairsFrom(g, i + 1);
      assert overlaps + PairsFrom(g, i + 1) == base + PairsFrom(g, i);
      i := i + 1;
    }
  }

  // ---------------------------------------------------------------------------
  // Overlap_Checker over all groups

  function Tag(bus: int, ps: seq<Pair>): (r: seq<OverlapRecord>)
    ensures |r| == |ps| && forall k :: 0 <= k < |ps| ==> r[k] == OverlapRecord(bus, ps[k])
  {
    seq(|ps|, k requires 0 <= k < |ps| => OverlapRecord(bus, ps[k]))
  }

  /** The records for groups[k..], groups in the order groupby visits them. */
  function FleetOverlapsFrom(groups: seq<Group>, k: nat): seq<OverlapRecord>
    requires k <= |groups|
    decreases |groups| - k
  {
    if k == |groups| then []
    else Tag(groups[k].bus, Overlaps(groups[k].rows)) + FleetOverlapsFrom(groups, k + 1)
  }

  lemma TagSnoc(bus: int, ps: seq<Pair>, n: nat)
    requires n < |ps|
    ensures Tag(bus, ps[..n + 1]) == Tag(bus, ps[..n]) + [OverlapRecord(bus, ps[n])]
  {
    assert Tag(bus, ps[..n + 1])[n] == OverlapRecord(bus, ps[n]);
  }

  lemma FleetStep(groups: seq<Group>, k: nat, acc: seq<OverlapRecord>)
    requires k < |groups|
    ensures acc + FleetOverlapsFrom(groups, k)
            == (acc + Tag(groups[k].bus, Overlaps(groups[k].rows))) + FleetOverlapsFrom(groups, k + 1)
  {
    var head := Tag(groups[k].bus, Overlaps(groups[k].rows));
    var tail := FleetOverlapsFrom(groups, k + 1);
    assert FleetOverlapsFrom(groups, k) == head + tail;
    ConcatAssoc(acc, head, tail);
  }


  /** Overlap_Checker: the bus id put in front of every tuple of its group. */
  method OverlapChecker(groups: seq<Group>) returns (results: seq<OverlapRecord>)
    ensures results == FleetOverlapsFrom(groups, 0)
  {
    results := [];
    var k := 0;
    while k < |groups|
      invariant 0 <= k <= |groups|
      invariant results + FleetOverlapsFrom(groups, k) == FleetOverlapsFrom(groups, 0)
    {
      var found := CheckOverlaps(groups[k].rows);
      ghost var before := results;
      var n := 0;
      while n < |found|
        invariant 0 <= n <= |found|
        invariant results == before + Tag(groups[k].bus, found[..n])
      {
        TagSnoc(groups[k].bus, found, n);
        results := results + [OverlapRecord(groups[k].bus, found[n])];
        n := n + 1;
      }
      assert found[..|found|] == found;
      FleetStep(groups, k, before);
      k := k + 1;
    }
  }

  /** The "no overlaps" message of pipodeclown is printed exactly when no bus has a pair of
      overlapping rows. */
  lemma {:induction false} NoFleetOverlaps(groups: seq<Group>, k: nat)
    requires k <= |groups|
    ensures FleetOverlapsFrom(groups, k) == [] <==>
            forall m :: k <= m < |groups| ==>
              forall a, b :: 0 <= a < b < |groups[m].rows| ==> !Overlap(groups[m].rows[a], groups[m].rows[b])
    decreases |groups| - k
  {
    if k < |groups| {
      NoOverlapsIffEmpty(groups[k].rows);
      NoFleetOverlaps(groups, k + 1);
    }
  }

  /** Every record names its bus, and its rows are rows of that bus's group that overlap. */
  lemma {:induction false} FleetRecordsSound(groups: seq<Group>, k: nat)
    requires k <= |groups|
    ensures forall r :: r in FleetOverlapsFrom(groups, k) ==>
              exists m, a, b :: k <= m < |groups| && 0 <= a < b < |groups[m].rows| &&
                r == OverlapRecord(groups[m].bus, Pair(Data(groups[m].rows[a]), Data(groups[m].rows[b]))) &&
                Overlap(groups[m].rows[a], groups[m].rows[b])
    decreases |groups| - k
  {
    if k < |groups| {
      FleetRecordsSound(groups, k + 1);
      var g := groups[k].rows;
      HitsExact(g, 0);
      var t := Tag(groups[k].bus, Overlaps(g));
      forall r | r in t
        ensures exists a, b :: 0 <= a < b < |g| &&
                  r == OverlapRecord(groups[k].bus, Pair(Data(g[a]), Data(g[b]))) && Overlap(g[a], g[b])
      {
        var n :| 0 <= n < |t| && t[n] == r;
        assert Hits(g)[n] in Hits(g);
        var (a, b) := Hits(g)[n];
      }
    }
  }

  /** Grouping on the categorical bus column, whose categories are the table's buses in some
      order, puts every row in the group of its bus, so the checker looks at every row. */
  lemma CategoricalGroupsCover(s: seq<Event>, order: seq<int>)
    requires multiset(order) == multiset(BusKeys(s))
    ensures forall e :: e in s ==>
              exists k :: 0 <= k < |order| && GroupsIn(s, order)[k].bus == e.bus && e in GroupsIn(s, order)[k].rows
  {
    var gs := GroupsIn(s, order);
    forall e | e in s
      ensures exists k :: 0 <= k < |order| && gs[k].bus == e.bus && e in gs[k].rows
    {
      assert e.bus in BusKeys(s);
      assert e.bus in multiset(BusKeys(s));
      assert e.bus in order;
      var k :| 0 <= k < |order| && order[k] == e.bus;
      assert e in gs[k].rows;
    }
  }
}
