/**
 * The timetable graph: stop-time records grouped by trip, each group ordered
 * by stop sequence, and one edge per consecutive pair of records. These
 * functions are the specification that `IsochroneEngine.BuildAdjacency`
 * is proved against.
 */
module Timetable {
  import opened Wrappers
  import opened Transit
  import Sorting

  /** Floor on an edge's travel time, in minutes. */
  const MinEdgeMinutes: real := 0.5

  /** `Math.max(0.5, next.arrival_minutes - current.departure_minutes)`. */
  function TravelMinutes(current: StopTime, next: StopTime): (m: real)
    ensures m >= MinEdgeMinutes && m >= next.arrivalMinutes - current.departureMinutes
    ensures m == MinEdgeMinutes || m == next.arrivalMinutes - current.departureMinutes
  {
    var d := next.arrivalMinutes - current.departureMinutes;
    if MinEdgeMinutes >= d then MinEdgeMinutes else d
  }

  /** `trips.get(tripId) || null`: an unknown trip, or an empty route id, gives null. */
  function RouteOf(trips: map<TripId, RouteId>, tripId: TripId): Option<RouteId>
  {
    if tripId in trips && trips[tripId] != "" then Some(trips[tripId]) else None
  }

  /** An edge together with the stop it leaves from. */
  datatype Arc = Arc(from: StopId, edge: Edge)

  /** The edge emitted for two consecutive records of one trip. */
  function ArcBetween(current: StopTime, next: StopTime, trips: map<TripId, RouteId>): Arc
  {
    Arc(current.stopId,
        Edge(next.stopId, TravelMinutes(current, next), current.tripId, RouteOf(trips, current.tripId)))
  }

  function SequenceKey(r: StopTime): real { r.stopSequence as real }

  /** `records.sort((a, b) => a.stop_sequence - b.stop_sequence)`. */
  function BySequence(records: seq<StopTime>): seq<StopTime>
  {
    Sorting.SortBy(records, SequenceKey)
  }

  ghost predicate Distinct<T>(s: seq<T>) {
    forall i, j :: 0 <= i < j < |s| ==> s[i] != s[j]
  }

  /** Trip ids in the order in which they first appear among the records. */
  function TripOrder(stopTimes: seq<StopTime>): (order: seq<TripId>)
    ensures Distinct(order)
    ensures forall t :: t in order <==> exists i :: 0 <= i < |stopTimes| && stopTimes[i].tripId == t
  {
    if |stopTimes| == 0 then []
    else
      var init := stopTimes[..|stopTimes| - 1];
      var prev := TripOrder(init);
      assert forall i :: 0 <= i < |init| ==> init[i] == stopTimes[i];
      var t := stopTimes[|stopTimes| - 1].tripId;
      if t in prev then prev else prev + [t]
  }

  /** The records of one trip, in input order. */
  function Group(stopTimes: seq<StopTime>, tripId: TripId): (g: seq<StopTime>)
    ensures forall r :: r in g ==> r in stopTimes && r.tripId == tripId
  {
    if |stopTimes| == 0 then []
    else
      var init := stopTimes[..|stopTimes| - 1];
      var last := stopTimes[|stopTimes| - 1];
      if last.tripId == tripId then Group(init, tripId) + [last] else Group(init, tripId)
  }

  /** The edges of one trip's (sorted) records: one per consecutive pair. */
  function TripArcs(records: seq<StopTime>, trips: map<TripId, RouteId>): seq<Arc>
  {
    if |records| < 2 then []
    else TripArcs(records[..|records| - 1], trips) + [ArcBetween(records[|records| - 2], records[|records| - 1], trips)]
  }

  /** The edges trip `tripId` contributes. */
  function ArcsOfTrip(stopTimes: seq<StopTime>, trips: map<TripId, RouteId>, tripId: TripId): seq<Arc>
  {
    TripArcs(BySequence(Group(stopTimes, tripId)), trips)
  }

  /** The concatenation of `f(x)` over the elements `x` of `s`, in order. */
  function FlatMap<T, U>(s: seq<T>, f: T -> seq<U>): seq<U>
  {
    if |s| == 0 then [] else FlatMap(s[..|s| - 1], f) + f(s[|s| - 1])
  }

  /** The edges of the trips in `order`, trip after trip. */
  function AllArcs(order: seq<TripId>, stopTimes: seq<StopTime>, trips: map<TripId, RouteId>): seq<Arc>
  {
    FlatMap(order, ArcsOfTripFn(stopTimes, trips))
  }

  function ArcsOfTripFn(stopTimes: seq<StopTime>, trips: map<TripId, RouteId>): TripId -> seq<Arc>
  {
    t => ArcsOfTrip(stopTimes, trips, t)
  }

  /** The edges leaving stop `s`, in emission order. */
  function EdgesFrom(arcs: seq<Arc>, s: StopId): seq<Edge>
  {
    if |arcs| == 0 then []
    else
      var last := arcs[|arcs| - 1];
      EdgesFrom(arcs[..|arcs| - 1], s) + (if last.from == s then [last.edge] else [])
  }

  function Sources(arcs: seq<Arc>): set<StopId>
  {
    set a | a in arcs :: a.from
  }

  /** The adjacency map: each stop with an outgoing edge, to its list of edges. */
  function AdjacencyOf(arcs: seq<Arc>): map<StopId, seq<Edge>>
  {
    map s | s in Sources(arcs) :: EdgesFrom(arcs, s)
  }

  /** The adjacency structure built from the stop-time records and the trip-to-route lookup. */
  function Adjacency(stopTimes: seq<StopTime>, trips: map<TripId, RouteId>): map<StopId, seq<Edge>>
  {
    AdjacencyOf(AllArcs(TripOrder(stopTimes), stopTimes, trips))
  }

  /** Within one trip, stop sequence numbers are unique. */
  ghost predicate UniqueSequences(stopTimes: seq<StopTime>) {
    forall i, j :: 0 <= i < j < |stopTimes| && stopTimes[i].tripId == stopTimes[j].tripId ==>
      stopTimes[i].stopSequence != stopTimes[j].stopSequence
  }

  // ---------------------------------------------------------------------
  // Shape of one trip's edges

  /**
   * A trip with k records contributes k - 1 edges (none for k <= 1); edge i
   * goes from record i's stop to record i + 1's stop.
   */
  lemma {:induction false} TripArcsShape(records: seq<StopTime>, trips: map<TripId, RouteId>)
    ensures |TripArcs(records, trips)| == if |records| < 2 then 0 else |records| - 1
    ensures forall i :: 0 <= i < |TripArcs(records, trips)| ==>
      TripArcs(records, trips)[i] == ArcBetween(records[i], records[i + 1], trips)
  {
    if |records| >= 2 {
      var init := records[..|records| - 1];
      TripArcsShape(init, trips);
      assert forall i :: 0 <= i < |init| ==> init[i] == records[i];
    }
  }

  /** Every record of a sorted trip group belongs to that trip. */
  lemma SortedGroupTrip(stopTimes: seq<StopTime>, tripId: TripId)
    ensures forall r :: r in BySequence(Group(stopTimes, tripId)) ==> r in stopTimes && r.tripId == tripId
  {
    var g := Group(stopTimes, tripId);
    forall r | r in BySequence(g) ensures r in g {
      assert r in multiset(BySequence(g));
    }
  }

  /**
   * Every edge of the adjacency structure comes from two consecutive records
   * `i`, `i + 1` of some trip's records sorted by stop sequence: it leaves
   * record i's stop, enters record i + 1's stop, takes
   * `max(0.5, arrival - departure)` minutes (so at least 0.5), and is tagged
   * with the trip id and the trip's route (or `None`).
   */
  lemma EdgeOrigin(stopTimes: seq<StopTime>, trips: map<TripId, RouteId>, s: StopId, k: int)
      returns (tripId: TripId, i: nat)
    requires s in Adjacency(stopTimes, trips) && 0 <= k < |Adjacency(stopTimes, trips)[s]|
    ensures tripId in TripOrder(stopTimes)
    ensures var records := BySequence(Group(stopTimes, tripId));
      && i + 1 < |records|
      && records[i].stopId == s
      && Adjacency(stopTimes, trips)[s][k]
         == Edge(records[i + 1].stopId, TravelMinutes(records[i], records[i + 1]), tripId, RouteOf(trips, tripId))
    ensures Adjacency(stopTimes, trips)[s][k].minutes >= MinEdgeMinutes
  {
    var order := TripOrder(stopTimes);
    var arcs := AllArcs(order, stopTimes, trips);
    var e := Adjacency(stopTimes, trips)[s][k];
    assert e in EdgesFrom(arcs, s);
    EdgesFromArcs(arcs, s, e);
    var j := FlatMapMember(order, ArcsOfTripFn(stopTimes, trips), Arc(s, e));
    tripId := order[j];
    var records := BySequence(Group(stopTimes, tripId));
    i := TripArcAt(records, trips, Arc(s, e));
    SortedGroupTrip(stopTimes, tripId);
    assert records[i] in records;
  }

  /**
   * Conversely, every consecutive pair of a trip's sorted records yields an
   * edge in the adjacency list of the first record's stop.
   */
  lemma EdgeComplete(stopTimes: seq<StopTime>, trips: map<TripId, RouteId>, tripId: TripId, i: nat)
    requires tripId in TripOrder(stopTimes)
    requires i + 1 < |BySequence(Group(stopTimes, tripId))|
    ensures var records := BySequence(Group(stopTimes, tripId));
      var adj := Adjacency(stopTimes, trips);
      && records[i].stopId in adj
      && Edge(records[i + 1].stopId, TravelMinutes(records[i], records[i + 1]), tripId, RouteOf(trips, tripId))
         in adj[records[i].stopId]
  {
    var order := TripOrder(stopTimes);
    var arcs := AllArcs(order, stopTimes, trips);
    var records := BySequence(Group(stopTimes, tripId));
    var a := ArcBetween(records[i], records[i + 1], trips);
    SortedGroupTrip(stopTimes, tripId);
    assert records[i] in records;
    TripArcsShape(records, trips);
    assert a == TripArcs(records, trips)[i];
    var j :| 0 <= j < |order| && order[j] == tripId;
    FlatMapIncludes(order, ArcsOfTripFn(stopTimes, trips), j, a);
    EdgesFromIncludes(arcs, a);
    assert a.from in Sources(arcs);
  }

  lemma {:induction false} FlatMapIncludes<T, U>(xs: seq<T>, f: T -> seq<U>, j: nat, u: U)
    requires j < |xs| && u in f(xs[j])
    ensures u in FlatMap(xs, f)
  {
    var init := xs[..|xs| - 1];
    if j < |xs| - 1 {
      assert init[j] == xs[j];
      FlatMapIncludes(init, f, j, u);
    }
  }

  lemma {:induction false} EdgesFromIncludes(arcs: seq<Arc>, a: Arc)
    requires a in arcs
    ensures a.edge in EdgesFrom(arcs, a.from)
  {
    var init := arcs[..|arcs| - 1];
    if a != arcs[|arcs| - 1] {
      assert arcs == init + [arcs[|arcs| - 1]];
      EdgesFromIncludes(init, a);
    }
  }

  /** An edge of one trip comes from a pair of consecutive records. */
  lemma TripArcAt(records: seq<StopTime>, trips: map<TripId, RouteId>, a: Arc) returns (i: nat)
    requires a in TripArcs(records, trips)
    ensures i + 1 < |records| && a == ArcBetween(records[i], records[i + 1], trips)
  {
    TripArcsShape(records, trips);
    var arcs := TripArcs(records, trips);
    var m :| 0 <= m < |arcs| && arcs[m] == a;
    i := m;
  }

  lemma {:induction false} EdgesFromArcs(arcs: seq<Arc>, s: StopId, e: Edge)
    requires e in EdgesFrom(arcs, s)
    ensures Arc(s, e) in arcs
  {
    var init := arcs[..|arcs| - 1];
    if e in EdgesFrom(init, s) {
      EdgesFromArcs(init, s, e);
      assert forall a :: a in init ==> a in arcs;
    }
  }

  lemma {:induction false} FlatMapMember<T, U>(xs: seq<T>, f: T -> seq<U>, u: U) returns (j: nat)
    requires u in FlatMap(xs, f)
    ensures j < |xs| && u in f(xs[j])
  {
    var init := xs[..|xs| - 1];
    if u in FlatMap(init, f) {
      j := FlatMapMember(init, f, u);
      assert init[j] == xs[j];
    } else {
      j := |xs| - 1;
    }
  }

  // ---------------------------------------------------------------------
  // Incremental construction (used by the imperative builder)

  /** Stops with no edge in `arcs` have an empty edge list. */
  lemma {:induction false} EdgesFromNone(arcs: seq<Arc>, s: StopId)
    requires s !in Sources(arcs)
    ensures EdgesFrom(arcs, s) == []
  {
    if |arcs| > 0 {
      var init := arcs[..|arcs| - 1];
      assert forall a :: a in init ==> a in arcs;
      assert arcs[|arcs| - 1] in arcs;
      EdgesFromNone(init, s);
    }
  }

  /** Appending one edge appends it to its source stop's list (created if absent). */
  lemma AdjacencyOfSnoc(arcs: seq<Arc>, a: Arc)
    ensures AdjacencyOf(arcs + [a]) ==
      var adj := AdjacencyOf(arcs);
      adj[a.from := (if a.from in adj then adj[a.from] else []) + [a.edge]]
  {
    var adj := AdjacencyOf(arcs);
    var next := arcs + [a];
    var lhs := AdjacencyOf(next);
    var rhs := adj[a.from := (if a.from in adj then adj[a.from] else []) + [a.edge]];
    assert next[..|next| - 1] == arcs;
    assert Sources(next) == Sources(arcs) + {a.from} by {
      forall x | x in next ensures x in arcs || x == a { }
      assert a in next;
      forall x | x in arcs ensures x in next { }
    }
    assert lhs.Keys == rhs.Keys;
    forall s | s in lhs ensures lhs[s] == rhs[s] {
      assert lhs[s] == EdgesFrom(arcs, s) + (if a.from == s then [a.edge] else []);
      if s !in adj {
        EdgesFromNone(arcs, s);
      }
    }
  }

  /** Appending a trip's edges to the edges built so far. */
  lemma AllArcsSnoc(order: seq<TripId>, t: TripId, stopTimes: seq<StopTime>, trips: map<TripId, RouteId>)
    ensures AllArcs(order + [t], stopTimes, trips) == AllArcs(order, stopTimes, trips) + ArcsOfTrip(stopTimes, trips, t)
  {
    assert (order + [t])[..|order|] == order;
  }

  /** Reading one more record: its trip joins the order if new, and its group grows by it. */
  lemma GroupingStep(stopTimes: seq<StopTime>, n: nat)
    requires n < |stopTimes|
    ensures TripOrder(stopTimes[..n + 1]) ==
      TripOrder(stopTimes[..n]) + (if stopTimes[n].tripId in TripOrder(stopTimes[..n]) then [] else [stopTimes[n].tripId])
    ensures forall t :: Group(stopTimes[..n + 1], t) == (if t == stopTimes[n].tripId then
      Group(stopTimes[..n], t) + [stopTimes[n]] else Group(stopTimes[..n], t))
    ensures stopTimes[n].tripId !in TripOrder(stopTimes[..n]) ==> Group(stopTimes[..n], stopTimes[n].tripId) == []
  {
    assert stopTimes[..n + 1][..n] == stopTimes[..n];
    var t := stopTimes[n].tripId;
    if t !in TripOrder(stopTimes[..n]) {
      GroupOfAbsentTrip(stopTimes[..n], t);
    }
  }

  lemma {:induction false} GroupOfAbsentTrip(stopTimes: seq<StopTime>, tripId: TripId)
    requires forall i :: 0 <= i < |stopTimes| ==> stopTimes[i].tripId != tripId
    ensures Group(stopTimes, tripId) == []
  {
    if |stopTimes| > 0 {
      var init := stopTimes[..|stopTimes| - 1];
      assert forall i :: 0 <= i < |init| ==> init[i] == stopTimes[i];
      GroupOfAbsentTrip(init, tripId);
    }
  }

  // ---------------------------------------------------------------------
  // Independence from the order of the input records

  lemma {:induction false} GroupCount(stopTimes: seq<StopTime>, tripId: TripId, x: StopTime)
    ensures multiset(Group(stopTimes, tripId))[x] == if x.tripId == tripId then multiset(stopTimes)[x] else 0
  {
    if |stopTimes| > 0 {
      var init := stopTimes[..|stopTimes| - 1];
      assert stopTimes == init + [stopTimes[|stopTimes| - 1]];
      GroupCount(init, tripId, x);
    }
  }

  lemma GroupPermutation(st1: seq<StopTime>, st2: seq<StopTime>, tripId: TripId)
    requires multiset(st1) == multiset(st2)
    ensures multiset(Group(st1, tripId)) == multiset(Group(st2, tripId))
  {
    forall x ensures multiset(Group(st1, tripId))[x] == multiset(Group(st2, tripId))[x] {
      GroupCount(st1, tripId, x);
      GroupCount(st2, tripId, x);
    }
  }

  lemma {:induction false} GroupDistinctSequences(stopTimes: seq<StopTime>, tripId: TripId)
    requires UniqueSequences(stopTimes)
    ensures forall i, j :: 0 <= i < j < |Group(stopTimes, tripId)| ==>
      SequenceKey(Group(stopTimes, tripId)[i]) != SequenceKey(Group(stopTimes, tripId)[j])
  {
    if |stopTimes| > 0 {
      var init := stopTimes[..|stopTimes| - 1];
      var last := stopTimes[|stopTimes| - 1];
      assert forall i :: 0 <= i < |init| ==> init[i] == stopTimes[i];
      GroupDistinctSequences(init, tripId);
      var g0 := Group(init, tripId);
      if last.tripId == tripId {
        var g := g0 + [last];
        forall i | 0 <= i < |g0| ensures SequenceKey(g0[i]) != SequenceKey(last) {
          assert g0[i] in g0;
          var p :| 0 <= p < |init| && init[p] == g0[i];
          assert stopTimes[p] == g0[i];
        }
        forall i, j | 0 <= i < j < |g| ensures SequenceKey(g[i]) != SequenceKey(g[j]) {
          if j < |g0| {
            assert g[i] == g0[i] && g[j] == g0[j];
            assert SequenceKey(g0[i]) != SequenceKey(g0[j]);
          } else {
            assert g[i] == g0[i] && g[j] == last;
            assert SequenceKey(g0[i]) != SequenceKey(last);
          }
        }
      }
    }
  }

  /** Given unique sequence numbers, a trip's sorted records do not depend on the input order. */
  lemma SortedGroupPermutation(st1: seq<StopTime>, st2: seq<StopTime>, tripId: TripId)
    requires multiset(st1) == multiset(st2) && UniqueSequences(st1)
    ensures BySequence(Group(st1, tripId)) == BySequence(Group(st2, tripId))
  {
    var g1, g2 := Group(st1, tripId), Group(st2, tripId);
    GroupPermutation(st1, st2, tripId);
    GroupDistinctSequences(st1, tripId);
    Sorting.DistinctKeysUnique(g1, SequenceKey);
    Sorting.SortedPermutationUnique(BySequence(g1), BySequence(g2), SequenceKey);
  }

  lemma {:induction false} FlatMapPointwise<T, U>(xs: seq<T>, f: T -> seq<U>, g: T -> seq<U>)
    requires forall x :: x in xs ==> f(x) == g(x)
    ensures FlatMap(xs, f) == FlatMap(xs, g)
  {
    if |xs| > 0 {
      var init := xs[..|xs| - 1];
      assert forall x :: x in init ==> x in xs;
      FlatMapPointwise(init, f, g);
      assert xs[|xs| - 1] in xs;
    }
  }

  lemma {:induction false} FlatMapAppend<T, U>(a: seq<T>, b: seq<T>, f: T -> seq<U>)
    ensures FlatMap(a + b, f) == FlatMap(a, f) + FlatMap(b, f)
  {
    if |b| == 0 {
      assert a + b == a;
    } else {
      var binit := b[..|b| - 1];
      var ab := a + b;
      assert ab[..|ab| - 1] == a + binit;
      assert ab[|ab| - 1] == b[|b| - 1];
      FlatMapAppend(a, binit, f);
    }
  }

  /** Taking element `k` out of the input takes `f(ys[k])` out of the output. */
  lemma FlatMapRemove<T, U>(ys: seq<T>, k: nat, f: T -> seq<U>)
    requires k < |ys|
    ensures multiset(FlatMap(ys, f)) == multiset(FlatMap(ys[..k] + ys[k + 1..], f)) + multiset(f(ys[k]))
  {
    var pre, post := ys[..k], ys[k + 1..];
    assert ys == pre + ([ys[k]] + post);
    FlatMapAppend(pre, [ys[k]] + post, f);
    FlatMapAppend([ys[k]], post, f);
    FlatMapAppend(pre, post, f);
    assert [ys[k]][..0] == [];
    assert FlatMap([ys[k]], f) == f(ys[k]);
  }

  /** Permuting the input permutes the output's elements. */
  lemma {:induction false} FlatMapPermutation<T, U>(xs: seq<T>, ys: seq<T>, f: T -> seq<U>)
    requires multiset(xs) == multiset(ys)
    ensures multiset(FlatMap(xs, f)) == multiset(FlatMap(ys, f))
  {
    if |xs| == 0 {
      assert |multiset(ys)| == 0;
    } else {
      var init := xs[..|xs| - 1];
      var x := xs[|xs| - 1];
      assert xs == init + [x];
      assert x in multiset(ys);
      var k :| 0 <= k < |ys| && ys[k] == x;
      var rest := ys[..k] + ys[k + 1..];
      assert ys == ys[..k] + [x] + ys[k + 1..];
      assert multiset(rest) == multiset(ys) - multiset{x};
      FlatMapPermutation(init, rest, f);
      FlatMapRemove(ys, k, f);
    }
  }

  lemma {:induction false} DistinctCount<T>(s: seq<T>, x: T)
    requires Distinct(s)
    ensures multiset(s)[x] == if x in s then 1 else 0
  {
    if |s| > 0 {
      var init := s[..|s| - 1];
      assert s == init + [s[|s| - 1]];
      assert forall i :: 0 <= i < |init| ==> init[i] == s[i];
      DistinctCount(init, x);
    }
  }

  /** The trip orders of two permuted inputs are permutations of each other. */
  lemma TripOrderPermutation(st1: seq<StopTime>, st2: seq<StopTime>)
    requires multiset(st1) == multiset(st2)
    ensures multiset(TripOrder(st1)) == multiset(TripOrder(st2))
  {
    var o1, o2 := TripOrder(st1), TripOrder(st2);
    forall t ensures t in o1 <==> t in o2 {
      if t in o1 {
        var i :| 0 <= i < |st1| && st1[i].tripId == t;
        assert st1[i] in multiset(st2);
      }
      if t in o2 {
        var i :| 0 <= i < |st2| && st2[i].tripId == t;
        assert st2[i] in multiset(st1);
      }
    }
    forall t ensures multiset(o1)[t] == multiset(o2)[t] {
      DistinctCount(o1, t);
      DistinctCount(o2, t);
    }
  }

  lemma {:induction false} EdgesFromCount(arcs: seq<Arc>, s: StopId, e: Edge)
    ensures multiset(EdgesFrom(arcs, s))[e] == multiset(arcs)[Arc(s, e)]
  {
    if |arcs| > 0 {
      var init := arcs[..|arcs| - 1];
      assert arcs == init + [arcs[|arcs| - 1]];
      EdgesFromCount(init, s, e);
    }
  }

  /** Permuted records (unique sequence numbers per trip) give permuted edge lists. */
  lemma AllArcsOfPermutation(st1: seq<StopTime>, st2: seq<StopTime>, trips: map<TripId, RouteId>)
    requires multiset(st1) == multiset(st2) && UniqueSequences(st1)
    ensures multiset(AllArcs(TripOrder(st1), st1, trips)) == multiset(AllArcs(TripOrder(st2), st2, trips))
  {
    var o1, o2 := TripOrder(st1), TripOrder(st2);
    forall t | t in o2 ensures ArcsOfTripFn(st2, trips)(t) == ArcsOfTripFn(st1, trips)(t) {
      SortedGroupPermutation(st1, st2, t);
    }
    FlatMapPointwise(o2, ArcsOfTripFn(st2, trips), ArcsOfTripFn(st1, trips));
    TripOrderPermutation(st1, st2);
    FlatMapPermutation(o1, o2, ArcsOfTripFn(st1, trips));
  }

  /** Edge lists that are permutations of each other give the same stops and per-stop edge multisets. */
  lemma AdjacencyOfPermutation(a1: seq<Arc>, a2: seq<Arc>)
    requires multiset(a1) == multiset(a2)
    ensures AdjacencyOf(a1).Keys == AdjacencyOf(a2).Keys
    ensures forall s :: s in AdjacencyOf(a1) ==> multiset(AdjacencyOf(a1)[s]) == multiset(AdjacencyOf(a2)[s])
  {
    assert Sources(a1) == Sources(a2) by {
      forall a | a in a1 ensures a in a2 { assert a in multiset(a2); }
      forall a | a in a2 ensures a in a1 { assert a in multiset(a1); }
    }
    forall s | s in AdjacencyOf(a1) ensures multiset(AdjacencyOf(a1)[s]) == multiset(AdjacencyOf(a2)[s]) {
      forall e ensures multiset(EdgesFrom(a1, s))[e] == multiset(EdgesFrom(a2, s))[e] {
        EdgesFromCount(a1, s, e);
        EdgesFromCount(a2, s, e);
      }
    }
  }

  /**
   * Permuting the stop-time records (with unique sequence numbers within each
   * trip) leaves the set of stops with edges, and the multiset of edges out of
   * each stop, unchanged; only the order of a stop's edges may differ.
   */
  lemma AdjacencyPermutationInvariant(st1: seq<StopTime>, st2: seq<StopTime>, trips: map<TripId, RouteId>)
    requires multiset(st1) == multiset(st2) && UniqueSequences(st1)
    ensures Adjacency(st1, trips).Keys == Adjacency(st2, trips).Keys
    ensures forall s :: s in Adjacency(st1, trips) ==>
      multiset(Adjacency(st1, trips)[s]) == multiset(Adjacency(st2, trips)[s])
  {
    AllArcsOfPermutation(st1, st2, trips);
    AdjacencyOfPermutation(AllArcs(TripOrder(st1), st1, trips), AllArcs(TripOrder(st2), st2, trips));
  }
}
