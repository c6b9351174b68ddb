/**
 * The isochrone engine: builds the timetable graph once, then answers
 * "what is reachable from here within N minutes" by a bounded search seeded
 * with walks to the nearest stops, and attaches and scores points of interest.
 */
module Engine {
  import opened Wrappers
  import opened Transit
  import opened Geo
  import opened Scoring
  import opened Search
  import opened Isochrone
  import Sorting
  import Timetable

  /** How many nearest stops seed the search. */
  const DefaultNearestCount: nat := 8
  /** Longest walk to a seed stop, in minutes. */
  const MaxWalkMinutes: real := 18.0
  /** How many nearest stops a snapshot lists. */
  const ShownNearestCount: nat := 5

  /** A stop with its distance from the query point (`{ ...stop, distanceKm }`). */
  datatype ScoredStop = ScoredStop(stop: Stop, distanceKm: real)

  function DistanceKey(x: ScoredStop): real { x.distanceKm }

  function WalkOf(x: ScoredStop): real { WalkingMinutes(x.distanceKm, WalkSpeedKmh) }

  /** A nearby stop starts the search when its walk fits both 18 minutes and the budget. */
  predicate Admitted(x: ScoredStop, maxMinutes: real)
  {
    WalkOf(x) <= MaxWalkMinutes && WalkOf(x) <= maxMinutes
  }

  function SeedOf(x: ScoredStop): FrontierEntry { FrontierEntry(x.stop.stopId, WalkOf(x)) }

  /** The frontier the seeding loop pushes, in candidate order. */
  function SeedsOf(candidates: seq<ScoredStop>, maxMinutes: real): (seeds: seq<FrontierEntry>)
    ensures |seeds| <= |candidates|
    ensures forall i :: 0 <= i < |seeds| ==> 0.0 <= seeds[i].minutes <= maxMinutes && seeds[i].minutes <= MaxWalkMinutes
  {
    if |candidates| == 0 then []
    else
      var last := candidates[|candidates| - 1];
      SeedsOf(candidates[..|candidates| - 1], maxMinutes) + (if Admitted(last, maxMinutes) then [SeedOf(last)] else [])
  }

  /** The seeds are exactly the admitted candidates. */
  lemma {:induction false} SeedsOfMembers(candidates: seq<ScoredStop>, maxMinutes: real, x: FrontierEntry)
    ensures x in SeedsOf(candidates, maxMinutes) <==>
      exists i :: 0 <= i < |candidates| && Admitted(candidates[i], maxMinutes) && x == SeedOf(candidates[i])
  {
    if |candidates| > 0 {
      var init := candidates[..|candidates| - 1];
      SeedsOfMembers(init, maxMinutes, x);
      assert forall i :: 0 <= i < |init| ==> init[i] == candidates[i];
      if x in SeedsOf(candidates, maxMinutes) && x !in SeedsOf(init, maxMinutes) {
        assert Admitted(candidates[|candidates| - 1], maxMinutes) && x == SeedOf(candidates[|candidates| - 1]);
      }
    }
  }

  /** A larger budget admits every seed a smaller one does. */
  lemma SeedsOfMonotone(candidates: seq<ScoredStop>, max1: real, max2: real)
    requires max1 <= max2
    ensures forall x :: x in SeedsOf(candidates, max1) ==> x in SeedsOf(candidates, max2)
  {
    forall x | x in SeedsOf(candidates, max1) ensures x in SeedsOf(candidates, max2) {
      SeedsOfMembers(candidates, max1, x);
      SeedsOfMembers(candidates, max2, x);
    }
  }

  ghost predicate DistinctCandidateIds(candidates: seq<ScoredStop>) {
    forall i, j :: 0 <= i < j < |candidates| ==> candidates[i].stop.stopId != candidates[j].stop.stopId
  }

  lemma {:induction false} SeedsOfDistinct(candidates: seq<ScoredStop>, maxMinutes: real)
    requires DistinctCandidateIds(candidates)
    ensures DistinctSeeds(SeedsOf(candidates, maxMinutes))
  {
    if |candidates| > 0 {
      var init := candidates[..|candidates| - 1];
      var last := candidates[|candidates| - 1];
      assert forall i :: 0 <= i < |init| ==> init[i] == candidates[i];
      SeedsOfDistinct(init, maxMinutes);
      var prev := SeedsOf(init, maxMinutes);
      forall k | 0 <= k < |prev| ensures prev[k].stopId != last.stop.stopId {
        SeedsOfMembers(init, maxMinutes, prev[k]);
      }
    }
  }

  function CandidateId(x: ScoredStop): StopId { x.stop.stopId }

  /** The query point (`{ latitude, longitude }`). */
  datatype Origin = Origin(latitude: real, longitude: real)

  /** The result of one isochrone request; the two counts are the `metadata` object. */
  datatype Snapshot = Snapshot(
    origin: Origin,
    maxMinutes: real,
    nearestStops: seq<ScoredStop>,
    reachableStops: seq<ReachedStop>,
    accessiblePois: seq<AccessiblePoi>,
    countsByCategory: map<Category, nat>,
    score: real,
    reachedStopCount: nat,
    poiCount: nat)

  /** The first `n` elements of a sorted sequence are sorted, and no later element is smaller. */
  lemma PrefixOfSorted(sorted: seq<ScoredStop>, n: nat)
    requires Sorting.SortedBy(sorted, DistanceKey) && n <= |sorted|
    ensures Sorting.SortedBy(sorted[..n], DistanceKey)
    ensures multiset(sorted[..n]) <= multiset(sorted)
    ensures forall x, y :: x in multiset(sorted) - multiset(sorted[..n]) && y in sorted[..n] ==> y.distanceKm <= x.distanceKm
  {
    assert sorted == sorted[..n] + sorted[n..];
    PrefixBelowRest(sorted, n);
    forall x | x in multiset(sorted) - multiset(sorted[..n]) ensures x in sorted[n..] {
      assert x in multiset(sorted[n..]);
    }
  }

  lemma PrefixBelowRest(sorted: seq<ScoredStop>, n: nat)
    requires Sorting.SortedBy(sorted, DistanceKey) && n <= |sorted|
    ensures forall x, y :: x in sorted[n..] && y in sorted[..n] ==> y.distanceKm <= x.distanceKm
  {
    forall x, y | x in sorted[n..] && y in sorted[..n] ensures y.distanceKm <= x.distanceKm {
      var k :| 0 <= k < |sorted[n..]| && sorted[n..][k] == x;
      var j :| 0 <= j < n && sorted[..n][j] == y;
      assert sorted[j] == y && sorted[n + k] == x;
      assert DistanceKey(sorted[j]) <= DistanceKey(sorted[n + k]);
    }
  }

  /** The grouping phase's state after reading `stopTimes`: trips in first-appearance order, each with its records. */
  ghost predicate GroupedSoFar(stopTimes: seq<StopTime>, order: seq<TripId>, tripsMap: map<TripId, seq<StopTime>>)
  {
    && order == Timetable.TripOrder(stopTimes)
    && (forall t :: t in tripsMap <==> t in order)
    && (forall t :: t in tripsMap ==> tripsMap[t] == Timetable.Group(stopTimes, t))
  }

  lemma GroupedStep(stopTimes: seq<StopTime>, n: nat, order: seq<TripId>, tripsMap: map<TripId, seq<StopTime>>,
                    created: map<TripId, seq<StopTime>>, order': seq<TripId>, tripsMap': map<TripId, seq<StopTime>>)
    requires n < |stopTimes| && GroupedSoFar(stopTimes[..n], order, tripsMap)
    requires order' == if stopTimes[n].tripId in tripsMap then order else order + [stopTimes[n].tripId]
    requires created == if stopTimes[n].tripId in tripsMap then tripsMap else tripsMap[stopTimes[n].tripId := []]
    requires tripsMap' == created[stopTimes[n].tripId := created[stopTimes[n].tripId] + [stopTimes[n]]]
    ensures GroupedSoFar(stopTimes[..n + 1], order', tripsMap')
  {
    GroupedOrderStep(stopTimes, n, order, tripsMap, order');
    GroupedValuesStep(stopTimes, n, order, tripsMap, created, tripsMap');
  }

  lemma GroupedOrderStep(stopTimes: seq<StopTime>, n: nat, order: seq<TripId>, tripsMap: map<TripId, seq<StopTime>>,
                         order': seq<TripId>)
    requires n < |stopTimes| && GroupedSoFar(stopTimes[..n], order, tripsMap)
    requires order' == if stopTimes[n].tripId in tripsMap then order else order + [stopTimes[n].tripId]
    ensures order' == Timetable.TripOrder(stopTimes[..n + 1])
  {
    Timetable.GroupingStep(stopTimes, n);
  }

  lemma GroupedValuesStep(stopTimes: seq<StopTime>, n: nat, order: seq<TripId>, tripsMap: map<TripId, seq<StopTime>>,
                          created: map<TripId, seq<StopTime>>, tripsMap': map<TripId, seq<StopTime>>)
    requires n < |stopTimes| && GroupedSoFar(stopTimes[..n], order, tripsMap)
    requires created == if stopTimes[n].tripId in tripsMap then tripsMap else tripsMap[stopTimes[n].tripId := []]
    requires tripsMap' == created[stopTimes[n].tripId := created[stopTimes[n].tripId] + [stopTimes[n]]]
    ensures forall t :: t in tripsMap' ==> tripsMap'[t] == Timetable.Group(stopTimes[..n + 1], t)
  {
    Timetable.GroupingStep(stopTimes, n);
  }

  /** The edges of the first `j + 1` grouped trips: those of the first `j`, then trip `j`'s. */
  lemma NextTripArcs(stopTimes: seq<StopTime>, trips: map<TripId, RouteId>, order: seq<TripId>,
                     tripsMap: map<TripId, seq<StopTime>>, j: int)
    requires GroupedSoFar(stopTimes, order, tripsMap) && 0 <= j < |order|
    ensures order[j] in tripsMap
    ensures Timetable.AllArcs(order[..j + 1], stopTimes, trips) ==
      Timetable.AllArcs(order[..j], stopTimes, trips) + Timetable.TripArcs(Timetable.BySequence(tripsMap[order[j]]), trips)
  {
    assert order[..j + 1] == order[..j] + [order[j]];
    Timetable.AllArcsSnoc(order[..j], order[j], stopTimes, trips);
  }

  /** Appending the next edge of a trip to its source stop's list. */
  lemma EdgeAppended(built: seq<Timetable.Arc>, arcs: seq<Timetable.Arc>, i: nat,
                      adjacency: Adjacency, created: Adjacency, adjacency': Adjacency)
    requires i < |arcs| && adjacency == Timetable.AdjacencyOf(built + arcs[..i])
    requires created == if arcs[i].from in adjacency then adjacency else adjacency[arcs[i].from := []]
    requires adjacency' == created[arcs[i].from := created[arcs[i].from] + [arcs[i].edge]]
    ensures adjacency' == Timetable.AdjacencyOf(built + arcs[..i + 1])
  {
    assert adjacency' == adjacency[arcs[i].from :=
      (if arcs[i].from in adjacency then adjacency[arcs[i].from] else []) + [arcs[i].edge]];
    Timetable.AdjacencyOfSnoc(built + arcs[..i], arcs[i]);
    assert built + arcs[..i + 1] == (built + arcs[..i]) + [arcs[i]];
  }

  /** Considering one more candidate in the seeding loop. */
  lemma SeedsOfStep(candidates: seq<ScoredStop>, i: nat, maxMinutes: real)
    requires i < |candidates|
    ensures SeedsOf(candidates[..i + 1], maxMinutes) ==
      SeedsOf(candidates[..i], maxMinutes) + (if Admitted(candidates[i], maxMinutes) then [SeedOf(candidates[i])] else [])
  {
    assert candidates[..i + 1][..i] == candidates[..i];
  }

  lemma SeedMapSnoc(frontier: seq<FrontierEntry>, x: FrontierEntry)
    ensures SeedMap(frontier + [x]) == SeedMap(frontier)[x.stopId := x.minutes]
  {
    assert (frontier + [x])[..|frontier|] == frontier;
  }

  /** `keys` lists the labelled stops once each, in the order the map first received them. */
  ghost predicate KeysOf(keys: seq<StopId>, seen: Labels) {
    Timetable.Distinct(keys) && forall s :: s in seen <==> s in keys
  }

  lemma KeysAfterWrite(keys: seq<StopId>, seen: Labels, v: StopId, c: real)
    requires KeysOf(keys, seen)
    ensures KeysOf(if v in seen then keys else keys + [v], seen[v := c])
  {
  }

  /** Considering one more point of interest in the attaching loop. */
  lemma AccessibleStep(pois: seq<Poi>, i: nat, a: Attachment)
    requires i < |pois|
    ensures AccessibleFrom(pois[..i + 1], a) ==
      AccessibleFrom(pois[..i], a) + (if Accessible(a, pois[i]) then [Attached(a, pois[i])] else [])
  {
    assert pois[..i + 1][..i] == pois[..i];
  }

  /** Reporting one more point increments its category's count. */
  lemma CountsSnoc(list: seq<AccessiblePoi>, x: AccessiblePoi)
    ensures CountsOf(list + [x]) == CountsOf(list)[x.poi.categoryName := CountFor(CountsOf(list), x.poi.categoryName) + 1]
  {
    assert (list + [x])[..|list|] == list;
  }

  class IsochroneEngine {
    const dataset: Dataset
    /** Stop id to its outgoing timetable edges. */
    const adjacency: Adjacency
    /** The great-circle distance the engine measures walks with. */
    const haversineKm: DistanceFn

    /** The adjacency structure is the one the timetable determines. */
    ghost predicate Valid() {
      adjacency == Timetable.Adjacency(dataset.stopTimes, dataset.trips)
    }

    constructor(dataset: Dataset, haversineKm: DistanceFn)
      ensures this.dataset == dataset && this.haversineKm == haversineKm
      ensures Valid()
    {
      var adjacency := BuildAdjacency(dataset.stopTimes, dataset.trips);
      this.dataset := dataset;
      this.haversineKm := haversineKm;
      this.adjacency := adjacency;
    }

    /**
     * Groups the records by trip (in first-appearance order), sorts each group
     * by stop sequence and appends one edge per consecutive pair to the list
     * of the pair's first stop.
     */
    static method BuildAdjacency(stopTimes: seq<StopTime>, trips: map<TripId, RouteId>) returns (adjacency: Adjacency)
      ensures adjacency == Timetable.Adjacency(stopTimes, trips)
    {
      var order, tripsMap := GroupByTrip(stopTimes);
      adjacency := map[];
      for j := 0 to |order|
        invariant adjacency == Timetable.AdjacencyOf(Timetable.AllArcs(order[..j], stopTimes, trips))
      {
        NextTripArcs(stopTimes, trips, order, tripsMap, j);
        var tripRecords := Timetable.BySequence(tripsMap[order[j]]);
        adjacency := AddTripEdges(adjacency, tripRecords, trips, Timetable.AllArcs(order[..j], stopTimes, trips));
      }
      assert order[..|order|] == order;
    }

    /** The edge phase for one trip: one edge per consecutive pair of its sorted records. */
    static method AddTripEdges(adjacency: Adjacency, tripRecords: seq<StopTime>, trips: map<TripId, RouteId>,
                               ghost built: seq<Timetable.Arc>) returns (result: Adjacency)
      requires adjacency == Timetable.AdjacencyOf(built)
      ensures result == Timetable.AdjacencyOf(built + Timetable.TripArcs(tripRecords, trips))
    {
      ghost var arcs := Timetable.TripArcs(tripRecords, trips);
      Timetable.TripArcsShape(tripRecords, trips);
      assert built + arcs[..0] == built;
      result := adjacency;
      var i := 0;
      while i < |tripRecords| - 1
        invariant 0 <= i <= |arcs|
        invariant result == Timetable.AdjacencyOf(built + arcs[..i])
      {
        var current := tripRecords[i];
        var next := tripRecords[i + 1];
        var travelMinutes := Timetable.TravelMinutes(current, next);
        var edge := Edge(next.stopId, travelMinutes, current.tripId, Timetable.RouteOf(trips, current.tripId));
        ghost var result0 := result;
        if current.stopId !in result {
          result := result[current.stopId := []];
        }
        ghost var created := result;
        result := result[current.stopId := result[current.stopId] + [edge]];
        assert arcs[i] == Timetable.Arc(current.stopId, edge);
        EdgeAppended(built, arcs, i, result0, created, result);
        i := i + 1;
      }
      assert arcs[..i] == arcs;
    }

    /** The grouping phase: each trip's records in input order, trips in first-appearance order. */
    static method GroupByTrip(stopTimes: seq<StopTime>) returns (order: seq<TripId>, tripsMap: map<TripId, seq<StopTime>>)
      ensures GroupedSoFar(stopTimes, order, tripsMap)
    {
      order := [];
      tripsMap := map[];
      for n := 0 to |stopTimes|
        invariant GroupedSoFar(stopTimes[..n], order, tripsMap)
      {
        var record := stopTimes[n];
        ghost var order0, tripsMap0 := order, tripsMap;
        if record.tripId !in tripsMap {
          tripsMap := tripsMap[record.tripId := []];
          order := order + [record.tripId];
        }
        ghost var created := tripsMap;
        tripsMap := tripsMap[record.tripId := tripsMap[record.tripId] + [record]];
        GroupedStep(stopTimes, n, order0, tripsMap0, created, order, tripsMap);
      }
      assert stopTimes[..|stopTimes|] == stopTimes;
    }

    /** Every stop with its distance from (lat, lon), in dataset order. */
    function Scored(lat: real, lon: real): (r: seq<ScoredStop>)
      ensures |r| == |dataset.stops|
      ensures forall i :: 0 <= i < |r| ==> r[i].stop == dataset.stops[i]
    {
      seq(|dataset.stops|, i requires 0 <= i < |dataset.stops| =>
        ScoredStop(dataset.stops[i], haversineKm(lat, lon, dataset.stops[i].latitude, dataset.stops[i].longitude)))
    }

    /**
     * `getNearestStops`: the `count` stops closest to (lat, lon) (all of them
     * if there are fewer), closest first; no stop left out is closer than one
     * returned.
     */
    function NearestStops(lat: real, lon: real, count: nat): (r: seq<ScoredStop>)
      ensures |r| == if count < |dataset.stops| then count else |dataset.stops|
      ensures Sorting.SortedBy(r, DistanceKey)
      ensures multiset(r) <= multiset(Scored(lat, lon))
      ensures forall x, y :: x in multiset(Scored(lat, lon)) - multiset(r) && y in r ==> y.distanceKm <= x.distanceKm
    {
      var sorted := Sorting.SortBy(Scored(lat, lon), DistanceKey);
      var n := if count < |sorted| then count else |sorted|;
      PrefixOfSorted(sorted, n);
      sorted[..n]
    }

    /** Each returned stop is one of the dataset's stops, with its own distance. */
    lemma NearestStopsAreStops(lat: real, lon: real, count: nat, x: ScoredStop)
      requires x in NearestStops(lat, lon, count)
      ensures x.stop in dataset.stops
      ensures x.distanceKm == haversineKm(lat, lon, x.stop.latitude, x.stop.longitude)
    {
      assert x in multiset(NearestStops(lat, lon, count));
      assert x in multiset(Scored(lat, lon));
      var i :| 0 <= i < |Scored(lat, lon)| && Scored(lat, lon)[i] == x;
    }

    /** With unique stop ids, the nearest stops have unique ids. */
    lemma NearestStopsDistinct(lat: real, lon: real, count: nat)
      requires DistinctStopIds(dataset.stops)
      ensures DistinctCandidateIds(NearestStops(lat, lon, count))
    {
      var scored := Scored(lat, lon);
      var sorted := Sorting.SortBy(scored, DistanceKey);
      var n := if count < |sorted| then count else |sorted|;
      Sorting.DistinctKeysUnique(scored, CandidateId);
      forall i, j | 0 <= i < j < n ensures sorted[i].stop.stopId != sorted[j].stop.stopId {
        Sorting.UniqueKeysDistinct(sorted, CandidateId, i, j);
      }
    }

    /** `runDijkstra`'s start candidates: the admitted walks to the 8 nearest stops. */
    function Seeds(lat: real, lon: real, maxMinutes: real): seq<FrontierEntry>
    {
      SeedsOf(NearestStops(lat, lon, DefaultNearestCount), maxMinutes)
    }

    /** A seed is a walk of at most 18 minutes and the budget to one of the 8 nearest stops. */
    lemma SeedsAreNearestWalks(lat: real, lon: real, maxMinutes: real, x: FrontierEntry)
      ensures x in Seeds(lat, lon, maxMinutes) <==>
        exists i :: 0 <= i < |NearestStops(lat, lon, DefaultNearestCount)| &&
          var c := NearestStops(lat, lon, DefaultNearestCount)[i];
          Admitted(c, maxMinutes) && x == FrontierEntry(c.stop.stopId, WalkingMinutes(c.distanceKm, WalkSpeedKmh))
    {
      SeedsOfMembers(NearestStops(lat, lon, DefaultNearestCount), maxMinutes, x);
    }

    /**
     * `runDijkstra`: seeds the frontier with the admitted walks to the 8 nearest
     * stops, then repeatedly sorts the frontier, pops its cheapest entry and
     * writes every strictly better label within the budget reached over one
     * of its edges. The result is the search result for those seeds: labels
     * within the budget, seeds labelled, closed under edges, each explained by
     * a seed or an edge (so each label is a shortest journey's time, see
     * `Search.LabelsAreShortest`). `keys` is the map's insertion order.
     */
    method RunDijkstra(origin: Origin, maxMinutes: real) returns (seen: Labels, keys: seq<StopId>)
      requires Valid() && DistinctStopIds(dataset.stops)
      ensures SearchResult(adjacency, Seeds(origin.latitude, origin.longitude, maxMinutes), seen, maxMinutes)
      ensures KeysOf(keys, seen)
    {
      var startCandidates := NearestStops(origin.latitude, origin.longitude, DefaultNearestCount);
      var frontier;
      frontier, seen, keys := SeedFrontier(startCandidates, maxMinutes);

      ghost var seeds := frontier;
      ghost var stops := Universe(adjacency, seeds);
      ghost var values := Candidates(adjacency, seeds, maxMinutes);
      AdjacencyPositive();
      NearestStopsDistinct(origin.latitude, origin.longitude, DefaultNearestCount);
      SeedsOfDistinct(startCandidates, maxMinutes);
      InvariantAtSeeds(adjacency, seeds, maxMinutes);
      CandidatesClosed(adjacency, seeds, maxMinutes);

      while |frontier| > 0
        invariant Invariant(adjacency, seeds, maxMinutes, stops, values, seen, frontier)
        invariant KeysOf(keys, seen)
        decreases Pending(stops, values, seen), |frontier|
      {
        ghost var unsorted := frontier;
        frontier := Sorting.SortBy(frontier, EntryMinutes);
        PopStartsRelaxing(adjacency, seeds, maxMinutes, stops, values, seen, unsorted, frontier);
        var current := frontier[0];
        frontier := frontier[1..];
        if current.minutes > maxMinutes {
          assert false;
          break;
        }
        frontier, seen, keys := RelaxNeighbours(current, maxMinutes, frontier, seen, keys, seeds, stops, values);
      }
      InvariantAtExit(adjacency, seeds, maxMinutes, stops, values, seen);
    }

    /** The seeding loop of `runDijkstra`: push and label each admitted walk, in candidate order. */
    static method SeedFrontier(startCandidates: seq<ScoredStop>, maxMinutes: real)
      returns (frontier: seq<FrontierEntry>, seen: Labels, keys: seq<StopId>)
      ensures frontier == SeedsOf(startCandidates, maxMinutes)
      ensures seen == SeedMap(frontier)
      ensures KeysOf(keys, seen)
    {
      frontier := [];
      seen := map[];
      keys := [];
      for i := 0 to |startCandidates|
        invariant frontier == SeedsOf(startCandidates[..i], maxMinutes)
        invariant seen == SeedMap(frontier)
        invariant KeysOf(keys, seen)
      {
        var stop := startCandidates[i];
        var walkMinutes := WalkingMinutes(stop.distanceKm, WalkSpeedKmh);
        SeedsOfStep(startCandidates, i, maxMinutes);
        if walkMinutes <= MaxWalkMinutes && walkMinutes <= maxMinutes {
          SeedMapSnoc(frontier, FrontierEntry(stop.stop.stopId, walkMinutes));
          KeysAfterWrite(keys, seen, stop.stop.stopId, walkMinutes);
          frontier := frontier + [FrontierEntry(stop.stop.stopId, walkMinutes)];
          if stop.stop.stopId !in seen {
            keys := keys + [stop.stop.stopId];
          }
          seen := seen[stop.stop.stopId := walkMinutes];
        }
      }
      assert startCandidates[..|startCandidates|] == startCandidates;
    }

    /**
     * The relaxation loop of `runDijkstra` for the popped entry `current`:
     * every edge whose candidate time fits the budget and strictly improves
     * its target's label writes the label and pushes the target. Afterwards
     * the search invariant holds again, labels have only improved, and
     * either nothing changed or the termination measure dropped.
     */
    method RelaxNeighbours(current: FrontierEntry, maxMinutes: real, frontier: seq<FrontierEntry>, seen: Labels,
                           keys: seq<StopId>, ghost seeds: seq<FrontierEntry>, ghost stops: set<StopId>, ghost values: set<real>)
      returns (frontier': seq<FrontierEntry>, seen': Labels, keys': seq<StopId>)
      requires PositiveWeights(adjacency) && ClosedUnderEdges(adjacency, maxMinutes, stops, values)
      requires Relaxing(adjacency, seeds, maxMinutes, stops, values, seen, frontier, current, 0)
      requires KeysOf(keys, seen)
      ensures Invariant(adjacency, seeds, maxMinutes, stops, values, seen', frontier')
      ensures KeysOf(keys', seen')
      ensures Improves(seen, seen')
      ensures (seen' == seen && frontier' == frontier) || Pending(stops, values, seen') < Pending(stops, values, seen)
    {
      frontier', seen', keys' := frontier, seen, keys;
      ghost var pushed := false;
      var neighbours := if current.stopId in adjacency then adjacency[current.stopId] else [];
      for i := 0 to |neighbours|
        invariant Relaxing(adjacency, seeds, maxMinutes, stops, values, seen', frontier', current, i)
        invariant Improves(seen, seen')
        invariant Pending(stops, values, seen') <= Pending(stops, values, seen)
        invariant pushed ==> Pending(stops, values, seen') < Pending(stops, values, seen)
        invariant !pushed ==> seen' == seen && frontier' == frontier
        invariant KeysOf(keys', seen')
      {
        var edge := neighbours[i];
        var candidateMinutes := current.minutes + edge.minutes;
        RelaxEdge(adjacency, seeds, maxMinutes, stops, values, seen, seen', frontier', current, i,
                  seen'[edge.to := candidateMinutes], frontier' + [FrontierEntry(edge.to, candidateMinutes)]);
        if candidateMinutes > maxMinutes {
          continue;
        }
        if edge.to !in seen' || candidateMinutes < seen'[edge.to] {
          KeysAfterWrite(keys', seen', edge.to, candidateMinutes);
          if edge.to !in seen' {
            keys' := keys' + [edge.to];
          }
          seen' := seen'[edge.to := candidateMinutes];
          frontier' := frontier' + [FrontierEntry(edge.to, candidateMinutes)];
          pushed := true;
        }
      }
      RelaxingDone(adjacency, seeds, maxMinutes, stops, values, seen', frontier', current);
    }

    /**
     * `computeScore`: accumulates the weight total and the weighted count sum
     * over the weight entries, a missing count read as 0; 0 when the weights
     * sum to 0, otherwise their quotient.
     */
    static method ComputeScore(countByCategory: map<Category, nat>, weights: Weights) returns (score: real)
      ensures score == Score(countByCategory, weights)
    {
      var totalWeight := 0.0;
      var weightedSum := 0.0;
      for i := 0 to |weights|
        invariant totalWeight == TotalWeight(weights[..i])
        invariant weightedSum == WeightedSum(countByCategory, weights[..i])
      {
        assert weights[..i + 1][..i] == weights[..i];
        totalWeight := totalWeight + weights[i].weight;
        var count := CountFor(countByCategory, weights[i].category);
        weightedSum := weightedSum + count as real * weights[i].weight;
      }
      assert weights[..|weights|] == weights;
      if totalWeight == 0.0 {
        return 0.0;
      }
      return weightedSum / totalWeight;
    }

    /** The walk over the label map: each labelled stop the index knows, with its label, in key order. */
    method CollectReachable(seen: Labels, keys: seq<StopId>) returns (reachableStops: seq<ReachedStop>)
      requires KeysOf(keys, seen)
      ensures reachableStops == ReachedRecords(keys, seen, dataset.stopsById)
    {
      reachableStops := [];
      for i := 0 to |keys|
        invariant reachableStops == ReachedRecords(keys[..i], seen, dataset.stopsById)
      {
        assert keys[..i + 1][..i] == keys[..i];
        var stopId := keys[i];
        if stopId !in dataset.stopsById {
          continue;
        }
        var stop := dataset.stopsById[stopId];
        reachableStops := reachableStops + [ReachedStop(stop, seen[stopId])];
      }
      assert keys[..|keys|] == keys;
    }

    /** The per-stop update for one point of interest, starting from the direct walk. */
    static method BestOver(a: Attachment, poi: Poi) returns (bestMinutes: real)
      ensures bestMinutes == BestMinutes(a, poi)
    {
      var directWalk := WalkingMinutes(a.dist(a.latitude, a.longitude, poi.latitude, poi.longitude), WalkSpeedKmh);
      bestMinutes := directWalk;
      ghost var totals := Totals(a, poi);
      for j := 0 to |a.reached|
        invariant bestMinutes == Best(directWalk, totals[..j])
      {
        assert totals[..j + 1][..j] == totals[..j];
        var stop := a.reached[j];
        var hopMinutes := WalkingMinutes(a.dist(stop.stop.latitude, stop.stop.longitude, poi.latitude, poi.longitude), WalkSpeedKmh);
        var total := stop.minutes + hopMinutes;
        if bestMinutes == 0.0 || total < bestMinutes {
          bestMinutes := total;
        }
      }
      assert totals[..|a.reached|] == totals;
    }

    /**
     * The walk over the points of interest: skip those the filter rejects,
     * report those whose best time fits the budget and count them by category.
     */
    method AttachPois(a: Attachment) returns (accessiblePois: seq<AccessiblePoi>, countsByCategory: map<Category, nat>)
      ensures accessiblePois == AccessibleFrom(dataset.pois, a)
      ensures countsByCategory == CountsOf(accessiblePois)
    {
      accessiblePois := [];
      countsByCategory := map[];
      for i := 0 to |dataset.pois|
        invariant accessiblePois == AccessibleFrom(dataset.pois[..i], a)
        invariant countsByCategory == CountsOf(accessiblePois)
      {
        AccessibleStep(dataset.pois, i, a);
        var poi := dataset.pois[i];
        if !Passes(a.categories, poi.categoryName) {
          continue;
        }
        var bestMinutes := BestOver(a, poi);
        if bestMinutes <= a.limit {
          CountsSnoc(accessiblePois, AccessiblePoi(poi, bestMinutes));
          accessiblePois := accessiblePois + [AccessiblePoi(poi, bestMinutes)];
          countsByCategory := countsByCategory[poi.categoryName := CountFor(countsByCategory, poi.categoryName) + 1];
        }
      }
      assert dataset.pois[..|dataset.pois|] == dataset.pois;
    }

    /**
     * `computeIsochrone`: runs the search with the budget (30 when absent or
     * zero), reports the labelled stops the index knows, sorted by minutes,
     * attaches the points of interest that pass the filter and fit the
     * budget, sorted by minutes, counts them by category and scores the
     * counts. `reached` is the label map of the search and `keys` its keys in
     * the order they were first written.
     */
    method ComputeIsochrone(latitude: real, longitude: real, maxMinutes: Option<real>,
                            categories: Option<seq<Category>>, weights: Weights)
      returns (r: Snapshot, ghost reached: Labels, ghost keys: seq<StopId>)
      requires Valid() && DistinctStopIds(dataset.stops)
      ensures r.origin == Origin(latitude, longitude) && r.maxMinutes == Limit(maxMinutes)
      ensures SearchResult(adjacency, Seeds(latitude, longitude, r.maxMinutes), reached, r.maxMinutes)
      ensures KeysOf(keys, reached)
      ensures multiset(r.reachableStops) == multiset(ReachedRecords(keys, reached, dataset.stopsById))
      ensures r.reachedStopCount == |IndexedKeys(keys, dataset.stopsById)|
      ensures r.nearestStops == NearestStops(latitude, longitude, ShownNearestCount)
      ensures forall x :: x in r.reachableStops <==>
        exists s :: s in reached && s in dataset.stopsById && x == ReachedStop(dataset.stopsById[s], reached[s])
      ensures Sorting.SortedBy(r.reachableStops, ReachedMinutes)
      ensures var a := Attachment(haversineKm, latitude, longitude, r.reachableStops, r.maxMinutes, categories);
        forall x :: x in r.accessiblePois <==>
          exists i :: 0 <= i < |dataset.pois| && Accessible(a, dataset.pois[i]) && x == Attached(a, dataset.pois[i])
      ensures multiset(r.accessiblePois) == multiset(AccessibleFrom(dataset.pois,
        Attachment(haversineKm, latitude, longitude, r.reachableStops, r.maxMinutes, categories)))
      ensures forall x :: x in r.accessiblePois ==> Passes(categories, x.poi.categoryName) && x.minutes <= r.maxMinutes
      ensures Sorting.SortedBy(r.accessiblePois, PoiMinutes)
      ensures forall c :: CountFor(r.countsByCategory, c) == Occurrences(r.accessiblePois, c)
      ensures forall c :: c in r.countsByCategory <==> Occurrences(r.accessiblePois, c) > 0
      ensures r.score == Score(r.countsByCategory, weights)
      ensures r.reachedStopCount == |r.reachableStops| && r.poiCount == |r.accessiblePois|
    {
      var origin := Origin(latitude, longitude);
      var limit := Limit(maxMinutes);
      var seen, order := RunDijkstra(origin, limit);
      reached, keys := seen, order;
      var nearestStops := NearestStops(origin.latitude, origin.longitude, ShownNearestCount);

      var collected := CollectReachable(seen, order);
      var reachableStops := Sorting.SortBy(collected, ReachedMinutes);
      ReportedStops(seen, order, collected, reachableStops);
      ReportedCount(seen, order, collected, reachableStops);

      var a := Attachment(haversineKm, origin.latitude, origin.longitude, reachableStops, limit, categories);
      var attached, countsByCategory := AttachPois(a);
      var accessiblePois := Sorting.SortBy(attached, PoiMinutes);
      ReportedPois(a, attached, accessiblePois, countsByCategory);

      var score := ComputeScore(countsByCategory, weights);
      r := Snapshot(origin, limit, nearestStops, reachableStops, accessiblePois, countsByCategory, score,
                    |reachableStops|, |accessiblePois|);
    }

    /** The sorted report holds exactly the indexed labelled stops. */
    lemma ReportedStops(seen: Labels, keys: seq<StopId>, collected: seq<ReachedStop>, reachableStops: seq<ReachedStop>)
      requires KeysOf(keys, seen)
      requires collected == ReachedRecords(keys, seen, dataset.stopsById)
      requires multiset(reachableStops) == multiset(collected)
      ensures forall x :: x in reachableStops <==>
        exists s :: s in seen && s in dataset.stopsById && x == ReachedStop(dataset.stopsById[s], seen[s])
    {
      forall x ensures x in reachableStops <==>
        exists s :: s in seen && s in dataset.stopsById && x == ReachedStop(dataset.stopsById[s], seen[s])
      {
        assert x in reachableStops <==> x in multiset(reachableStops);
        assert x in collected <==> x in multiset(collected);
        ReachedRecordsMembers(keys, seen, dataset.stopsById, x);
        if exists s :: s in seen && s in dataset.stopsById && x == ReachedStop(dataset.stopsById[s], seen[s]) {
          var s :| s in seen && s in dataset.stopsById && x == ReachedStop(dataset.stopsById[s], seen[s]);
          var i :| 0 <= i < |keys| && keys[i] == s;
        }
      }
    }

    /** The report has one entry per indexed key. */
    lemma ReportedCount(seen: Labels, keys: seq<StopId>, collected: seq<ReachedStop>, reachableStops: seq<ReachedStop>)
      requires KeysOf(keys, seen)
      requires collected == ReachedRecords(keys, seen, dataset.stopsById)
      requires multiset(reachableStops) == multiset(collected)
      ensures |reachableStops| == |IndexedKeys(keys, dataset.stopsById)|
    {
      ReachedRecordsIndexed(keys, seen, dataset.stopsById);
      assert |reachableStops| == |multiset(reachableStops)| == |multiset(collected)| == |collected|;
    }

    /** The sorted list of points holds exactly the accessible ones, and the counts count it. */
    lemma ReportedPois(a: Attachment, attached: seq<AccessiblePoi>, accessiblePois: seq<AccessiblePoi>,
                       countsByCategory: map<Category, nat>)
      requires attached == AccessibleFrom(dataset.pois, a)
      requires countsByCategory == CountsOf(attached)
      requires multiset(accessiblePois) == multiset(attached)
      ensures forall x :: x in accessiblePois <==>
        exists i :: 0 <= i < |dataset.pois| && Accessible(a, dataset.pois[i]) && x == Attached(a, dataset.pois[i])
      ensures forall x :: x in accessiblePois ==> Passes(a.categories, x.poi.categoryName) && x.minutes <= a.limit
      ensures forall c :: CountFor(countsByCategory, c) == Occurrences(accessiblePois, c)
      ensures forall c :: c in countsByCategory <==> Occurrences(accessiblePois, c) > 0
    {
      forall x ensures x in accessiblePois <==> x in attached {
        assert x in accessiblePois <==> x in multiset(accessiblePois);
        assert x in attached <==> x in multiset(attached);
      }
      forall x ensures x in accessiblePois <==>
        exists i :: 0 <= i < |dataset.pois| && Accessible(a, dataset.pois[i]) && x == Attached(a, dataset.pois[i])
      {
        AccessibleFromMembers(dataset.pois, a, x);
      }
      forall x | x in accessiblePois ensures Passes(a.categories, x.poi.categoryName) && x.minutes <= a.limit {
        AccessibleWithinLimit(dataset.pois, a, x);
      }
      forall c ensures CountFor(countsByCategory, c) == Occurrences(accessiblePois, c)
        ensures c in countsByCategory <==> Occurrences(accessiblePois, c) > 0
      {
        CountsOfCounts(attached, c);
        OccurrencesPermutation(attached, accessiblePois, c);
      }
    }

    /**
     * Raising the budget only grows the isochrone: a stop labelled by the
     * search under `max1` is labelled under `max2 >= max1`, no later, though
     * the seeds themselves depend on the budget.
     */
    lemma BudgetMonotone(latitude: real, longitude: real, max1: real, max2: real,
                         seen1: Labels, seen2: Labels, t: StopId)
      requires Valid() && max1 <= max2
      requires SearchResult(adjacency, Seeds(latitude, longitude, max1), seen1, max1)
      requires SearchResult(adjacency, Seeds(latitude, longitude, max2), seen2, max2)
      requires t in seen1
      ensures t in seen2 && seen2[t] <= seen1[t]
    {
      var candidates := NearestStops(latitude, longitude, DefaultNearestCount);
      SeedsOfMonotone(candidates, max1, max2);
      AdjacencyPositive();
      ReachableGrowing(adjacency, Seeds(latitude, longitude, max1), seen1, max1,
                       Seeds(latitude, longitude, max2), seen2, max2, t);
    }

    /** Every timetable edge takes at least half a minute. */
    lemma AdjacencyPositive()
      requires Valid()
      ensures PositiveWeights(adjacency)
    {
      forall u, e | u in adjacency && e in adjacency[u] ensures e.minutes >= 0.5 {
        var k :| 0 <= k < |adjacency[u]| && adjacency[u][k] == e;
        var _, _ := Timetable.EdgeOrigin(dataset.stopTimes, dataset.trips, u, k);
      }
    }
  }
}
