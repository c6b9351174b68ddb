/**
 * The bounded label-correcting search over the timetable graph: the facts the
 * search keeps true and what they imply about its result. Every label is the
 * cost of a cheapest journey (a walk to a seed stop, then timetable edges)
 * within the budget, and every stop reachable within the budget is labelled.
 */
module Search {
  import opened Transit

  /** Stop id to the list of edges leaving it. */
  type Adjacency = map<StopId, seq<Edge>>

  /** Stop id to the best minutes found so far. */
  type Labels = map<StopId, real>

  /** An entry of the search frontier. */
  datatype FrontierEntry = FrontierEntry(stopId: StopId, minutes: real)

  function EntryMinutes(x: FrontierEntry): real { x.minutes }

  /** `adjacency.get(stopId) || []`. */
  function Neighbours(adj: Adjacency, u: StopId): seq<Edge>
  {
    if u in adj then adj[u] else []
  }

  /** Every edge takes at least half a minute (the builder's floor). */
  ghost predicate PositiveWeights(adj: Adjacency) {
    forall u, e :: u in adj && e in adj[u] ==> e.minutes >= 0.5
  }

  ghost predicate DistinctSeeds(seeds: seq<FrontierEntry>) {
    forall i, j :: 0 <= i < j < |seeds| ==> seeds[i].stopId != seeds[j].stopId
  }

  ghost predicate NonNegativeSeeds(seeds: seq<FrontierEntry>) {
    forall i :: 0 <= i < |seeds| ==> seeds[i].minutes >= 0.0
  }

  /** Every label is between zero and the budget. */
  ghost predicate WithinBudget(seen: Labels, maxMinutes: real) {
    forall s :: s in seen ==> 0.0 <= seen[s] <= maxMinutes
  }

  /** Each seed stop is labelled no worse than its walking time. */
  ghost predicate SeedsLabelled(seeds: seq<FrontierEntry>, seen: Labels) {
    forall i :: 0 <= i < |seeds| ==> seeds[i].stopId in seen && seen[seeds[i].stopId] <= seeds[i].minutes
  }

  /** No edge out of `u` that fits the budget would improve its target's label. */
  ghost predicate RelaxedAt(adj: Adjacency, seen: Labels, maxMinutes: real, u: StopId)
    requires u in seen
  {
    forall e :: e in Neighbours(adj, u) && seen[u] + e.minutes <= maxMinutes ==>
      e.to in seen && seen[e.to] <= seen[u] + e.minutes
  }

  /** The closure property: every labelled stop is relaxed. */
  ghost predicate Closed(adj: Adjacency, seen: Labels, maxMinutes: real) {
    forall u :: u in seen ==> RelaxedAt(adj, seen, maxMinutes, u)
  }

  /** The label of `t` is justified by a seed walk or by an edge from a labelled stop. */
  ghost predicate ExplainedAt(adj: Adjacency, seeds: seq<FrontierEntry>, seen: Labels, t: StopId)
    requires t in seen
  {
    || (exists i :: 0 <= i < |seeds| && seeds[i].stopId == t && seeds[i].minutes <= seen[t])
    || (exists u, k :: u in seen && u in adj && 0 <= k < |adj[u]| && adj[u][k].to == t &&
          seen[u] + adj[u][k].minutes <= seen[t])
  }

  ghost predicate Explained(adj: Adjacency, seeds: seq<FrontierEntry>, seen: Labels) {
    forall t {:trigger ExplainedAt(adj, seeds, seen, t)} :: t in seen ==> ExplainedAt(adj, seeds, seen, t)
  }

  /** What the search establishes on exit. */
  ghost predicate SearchResult(adj: Adjacency, seeds: seq<FrontierEntry>, seen: Labels, maxMinutes: real) {
    && WithinBudget(seen, maxMinutes)
    && SeedsLabelled(seeds, seen)
    && Closed(adj, seen, maxMinutes)
    && Explained(adj, seeds, seen)
  }

  // ---------------------------------------------------------------------
  // Journeys

  /** Where a ride along `legs` from `start` ends. */
  function Arrival(start: StopId, legs: seq<Edge>): StopId
  {
    if |legs| == 0 then start else legs[|legs| - 1].to
  }

  /** Each leg leaves the stop the previous one arrived at. */
  ghost predicate Connected(adj: Adjacency, start: StopId, legs: seq<Edge>)
  {
    |legs| == 0 ||
    (Connected(adj, start, legs[..|legs| - 1]) && legs[|legs| - 1] in Neighbours(adj, Arrival(start, legs[..|legs| - 1])))
  }

  function LegsMinutes(legs: seq<Edge>): real
  {
    if |legs| == 0 then 0.0 else LegsMinutes(legs[..|legs| - 1]) + legs[|legs| - 1].minutes
  }

  /** A journey: walk to seed `i`, then ride `legs`, arriving at `t` after `minutes`. */
  ghost predicate Journey(adj: Adjacency, seeds: seq<FrontierEntry>, i: int, legs: seq<Edge>, t: StopId, minutes: real)
  {
    && 0 <= i < |seeds|
    && Connected(adj, seeds[i].stopId, legs)
    && Arrival(seeds[i].stopId, legs) == t
    && minutes == seeds[i].minutes + LegsMinutes(legs)
  }

  lemma {:induction false} LegsMinutesNonNegative(adj: Adjacency, start: StopId, legs: seq<Edge>)
    requires PositiveWeights(adj) && Connected(adj, start, legs)
    ensures LegsMinutes(legs) >= 0.0
  {
    if |legs| > 0 {
      LegsMinutesNonNegative(adj, start, legs[..|legs| - 1]);
    }
  }

  /**
   * A closed, seeded labelling under-approximates every journey within the
   * budget: the journey's destination is labelled, no worse than the journey.
   */
  lemma {:induction false} JourneyBound(adj: Adjacency, seeds: seq<FrontierEntry>, seen: Labels, maxMinutes: real,
                                        i: int, legs: seq<Edge>)
    requires PositiveWeights(adj) && SeedsLabelled(seeds, seen) && Closed(adj, seen, maxMinutes)
    requires 0 <= i < |seeds| && Connected(adj, seeds[i].stopId, legs)
    requires seeds[i].minutes + LegsMinutes(legs) <= maxMinutes
    ensures Arrival(seeds[i].stopId, legs) in seen
    ensures seen[Arrival(seeds[i].stopId, legs)] <= seeds[i].minutes + LegsMinutes(legs)
  {
    if |legs| > 0 {
      var init := legs[..|legs| - 1];
      var e := legs[|legs| - 1];
      assert e in Neighbours(adj, Arrival(seeds[i].stopId, init));
      JourneyBound(adj, seeds, seen, maxMinutes, i, init);
      var u := Arrival(seeds[i].stopId, init);
      assert RelaxedAt(adj, seen, maxMinutes, u);
    }
  }

  /** An explained labelling is witnessed: each label is at least the cost of some journey. */
  lemma {:induction false} JourneyWitness(adj: Adjacency, seeds: seq<FrontierEntry>, seen: Labels, maxMinutes: real, t: StopId)
      returns (i: int, legs: seq<Edge>)
    requires PositiveWeights(adj) && WithinBudget(seen, maxMinutes) && Explained(adj, seeds, seen)
    requires t in seen
    ensures 0 <= i < |seeds| && Connected(adj, seeds[i].stopId, legs) && Arrival(seeds[i].stopId, legs) == t
    ensures seeds[i].minutes + LegsMinutes(legs) <= seen[t]
    decreases (2.0 * seen[t]).Floor
  {
    assert ExplainedAt(adj, seeds, seen, t);
    if j :| 0 <= j < |seeds| && seeds[j].stopId == t && seeds[j].minutes <= seen[t] {
      i, legs := j, [];
    } else {
      var u, k :| u in seen && u in adj && 0 <= k < |adj[u]| && adj[u][k].to == t &&
        seen[u] + adj[u][k].minutes <= seen[t];
      var e := adj[u][k];
      assert e in adj[u];
      assert (2.0 * seen[u]).Floor < (2.0 * seen[t]).Floor;
      var prefix;
      i, prefix := JourneyWitness(adj, seeds, seen, maxMinutes, u);
      legs := prefix + [e];
      assert legs[..|legs| - 1] == prefix;
    }
  }

  /**
   * The search result is exactly the cheapest-journey labelling: a stop is
   * labelled iff some journey reaches it within the budget, and its label is
   * the cost of a journey that no journey within the budget beats.
   */
  lemma LabelsAreShortest(adj: Adjacency, seeds: seq<FrontierEntry>, seen: Labels, maxMinutes: real, t: StopId)
    requires PositiveWeights(adj) && SearchResult(adj, seeds, seen, maxMinutes)
    ensures t in seen ==>
      exists i, legs :: Journey(adj, seeds, i, legs, t, seen[t]) && seen[t] <= maxMinutes
    ensures forall i, legs, m :: Journey(adj, seeds, i, legs, t, m) && m <= maxMinutes ==>
      t in seen && seen[t] <= m
  {
    forall i, legs, m | Journey(adj, seeds, i, legs, t, m) && m <= maxMinutes ensures t in seen && seen[t] <= m {
      JourneyBound(adj, seeds, seen, maxMinutes, i, legs);
    }
    if t in seen {
      var i, legs := JourneyWitness(adj, seeds, seen, maxMinutes, t);
      var m := seeds[i].minutes + LegsMinutes(legs);
      JourneyBound(adj, seeds, seen, maxMinutes, i, legs);
      assert Journey(adj, seeds, i, legs, t, seen[t]);
    }
  }

  /** A larger budget reaches at least the stops a smaller one does. */
  lemma ReachableMonotone(adj: Adjacency, seeds: seq<FrontierEntry>, seen1: Labels, max1: real,
                          seen2: Labels, max2: real, t: StopId)
    requires PositiveWeights(adj) && max1 <= max2
    requires SearchResult(adj, seeds, seen1, max1) && SearchResult(adj, seeds, seen2, max2)
    requires t in seen1
    ensures t in seen2 && seen2[t] <= seen1[t]
  {
    ReachableGrowing(adj, seeds, seen1, max1, seeds, seen2, max2, t);
  }

  /**
   * More seeds and a larger budget: every stop labelled before is labelled
   * again, and no later.
   */
  lemma ReachableGrowing(adj: Adjacency, seeds1: seq<FrontierEntry>, seen1: Labels, max1: real,
                         seeds2: seq<FrontierEntry>, seen2: Labels, max2: real, t: StopId)
    requires PositiveWeights(adj) && max1 <= max2
    requires forall i :: 0 <= i < |seeds1| ==> seeds1[i] in seeds2
    requires SearchResult(adj, seeds1, seen1, max1) && SearchResult(adj, seeds2, seen2, max2)
    requires t in seen1
    ensures t in seen2 && seen2[t] <= seen1[t]
  {
    var i, legs := JourneyWitness(adj, seeds1, seen1, max1, t);
    var j :| 0 <= j < |seeds2| && seeds2[j] == seeds1[i];
    JourneyBound(adj, seeds2, seen2, max2, j, legs);
  }

  // ---------------------------------------------------------------------
  // Termination: labels range over a finite set of candidate values

  /** The minutes of all edges. */
  ghost function EdgeWeights(adj: Adjacency): set<real>
  {
    set u, e | u in adj && e in adj[u] :: e.minutes
  }

  /** The stops a label can be written for: seeds and edge targets. */
  ghost function Universe(adj: Adjacency, seeds: seq<FrontierEntry>): set<StopId>
  {
    (set x | x in seeds :: x.stopId) + (set u, e | u in adj && e in adj[u] :: e.to)
  }

  /** Costs of a seed walk followed by exactly `j` edges. */
  ghost function Level(seeds: seq<FrontierEntry>, weights: set<real>, j: nat): set<real>
  {
    if j == 0 then set x | x in seeds :: x.minutes
    else set v, w | v in Level(seeds, weights, j - 1) && w in weights :: Extend(v, w)
  }

  function Extend(v: real, w: real): real { v + w }

  /** Costs of a seed walk followed by at most `k` edges. */
  ghost function UpTo(seeds: seq<FrontierEntry>, weights: set<real>, k: nat): set<real>
  {
    if k == 0 then Level(seeds, weights, 0) else UpTo(seeds, weights, k - 1) + Level(seeds, weights, k)
  }

  /** How many half-minute edges fit in the budget. */
  function EdgeBound(maxMinutes: real): nat
  {
    if maxMinutes < 0.0 then 0 else (2.0 * maxMinutes).Floor
  }

  /** Every candidate value a label or frontier entry can take within the budget. */
  ghost function Candidates(adj: Adjacency, seeds: seq<FrontierEntry>, maxMinutes: real): set<real>
  {
    UpTo(seeds, EdgeWeights(adj), EdgeBound(maxMinutes))
  }

  /** (stop, value) pairs that a future write could still set: the termination measure. */
  ghost function Pending(stops: set<StopId>, values: set<real>, seen: Labels): set<(StopId, real)>
  {
    set s, v | s in stops && v in values && (s !in seen || v < seen[s]) :: (s, v)
  }

  lemma {:induction false} LevelLowerBound(seeds: seq<FrontierEntry>, weights: set<real>, j: nat, x: real)
    requires NonNegativeSeeds(seeds) && (forall w :: w in weights ==> w >= 0.5)
    requires x in Level(seeds, weights, j)
    ensures x >= 0.5 * j as real
  {
    if j == 0 {
      var y :| y in seeds && y.minutes == x;
      var p :| 0 <= p < |seeds| && seeds[p] == y;
    } else {
      var v, w :| v in Level(seeds, weights, j - 1) && w in weights && x == Extend(v, w);
      LevelLowerBound(seeds, weights, j - 1, v);
    }
  }

  lemma {:induction false} UpToLevel(seeds: seq<FrontierEntry>, weights: set<real>, k: nat, x: real) returns (j: nat)
    requires x in UpTo(seeds, weights, k)
    ensures j <= k && x in Level(seeds, weights, j)
  {
    if k == 0 {
      j := 0;
    } else if x in Level(seeds, weights, k) {
      j := k;
    } else {
      j := UpToLevel(seeds, weights, k - 1, x);
    }
  }

  lemma {:induction false} LevelUpTo(seeds: seq<FrontierEntry>, weights: set<real>, k: nat, j: nat, x: real)
    requires j <= k && x in Level(seeds, weights, j)
    ensures x in UpTo(seeds, weights, k)
  {
    if k > j {
      LevelUpTo(seeds, weights, k - 1, j, x);
    }
  }

  lemma EdgeWeightsPositive(adj: Adjacency)
    requires PositiveWeights(adj)
    ensures forall w :: w in EdgeWeights(adj) ==> w >= 0.5
  {
  }

  /** A candidate plus an edge weight, if still within the budget, is a candidate. */
  lemma CandidateStep(adj: Adjacency, seeds: seq<FrontierEntry>, maxMinutes: real, m: real, e: Edge, u: StopId)
    requires PositiveWeights(adj) && NonNegativeSeeds(seeds)
    requires m in Candidates(adj, seeds, maxMinutes) && e in Neighbours(adj, u)
    requires m + e.minutes <= maxMinutes
    ensures m + e.minutes in Candidates(adj, seeds, maxMinutes)
  {
    var weights := EdgeWeights(adj);
    var k := EdgeBound(maxMinutes);
    EdgeWeightsPositive(adj);
    var j := UpToLevel(seeds, weights, k, m);
    assert e.minutes in weights;
    assert Extend(m, e.minutes) in Level(seeds, weights, j + 1);
    LevelLowerBound(seeds, weights, j + 1, m + e.minutes);
    assert j + 1 <= k;
    LevelUpTo(seeds, weights, k, j + 1, m + e.minutes);
  }

  /** Seed walking times are candidates. */
  lemma SeedCandidate(adj: Adjacency, seeds: seq<FrontierEntry>, maxMinutes: real, i: int)
    requires 0 <= i < |seeds|
    ensures seeds[i].minutes in Candidates(adj, seeds, maxMinutes)
  {
    assert seeds[i] in seeds;
    LevelUpTo(seeds, EdgeWeights(adj), EdgeBound(maxMinutes), 0, seeds[i].minutes);
  }

  /** Labels that only improve never make a pair pending again. */
  ghost predicate Improves(before: Labels, after: Labels) {
    forall s :: s in before ==> s in after && after[s] <= before[s]
  }

  lemma PendingMonotone(stops: set<StopId>, values: set<real>, before: Labels, after: Labels)
    requires Improves(before, after)
    ensures Pending(stops, values, after) <= Pending(stops, values, before)
  {
  }

  /** Writing a strictly better candidate label removes its pair from the measure. */
  lemma PendingShrinks(stops: set<StopId>, values: set<real>, before: Labels, v: StopId, c: real)
    requires v in stops && c in values && (v !in before || c < before[v])
    ensures Pending(stops, values, before[v := c]) < Pending(stops, values, before)
  {
    var after := before[v := c];
    assert (v, c) in Pending(stops, values, before);
    assert (v, c) !in Pending(stops, values, after);
    PendingMonotone(stops, values, before, after);
  }

  // ---------------------------------------------------------------------
  // The invariant of the search loop

  /** Every frontier entry is for a labelled stop, no better than its label, within the budget. */
  ghost predicate FrontierSound(seen: Labels, frontier: seq<FrontierEntry>, maxMinutes: real) {
    forall i :: 0 <= i < |frontier| ==>
      frontier[i].stopId in seen && seen[frontier[i].stopId] <= frontier[i].minutes <= maxMinutes
  }

  /** A labelled stop is relaxed, or its current label still waits in the frontier. */
  ghost predicate Tracked(adj: Adjacency, seen: Labels, frontier: seq<FrontierEntry>, maxMinutes: real, u: StopId)
    requires u in seen
  {
    RelaxedAt(adj, seen, maxMinutes, u) || FrontierEntry(u, seen[u]) in frontier
  }

  ghost predicate AllTracked(adj: Adjacency, seen: Labels, frontier: seq<FrontierEntry>, maxMinutes: real) {
    forall u :: u in seen ==> Tracked(adj, seen, frontier, maxMinutes, u)
  }

  /** Labels and frontier entries stay inside the finite candidate sets. */
  ghost predicate InRange(stops: set<StopId>, values: set<real>, seen: Labels, frontier: seq<FrontierEntry>) {
    && (forall s :: s in seen ==> s in stops && seen[s] in values)
    && (forall i :: 0 <= i < |frontier| ==> frontier[i].minutes in values)
  }

  /** The invariant of the search's outer loop. */
  ghost predicate Invariant(adj: Adjacency, seeds: seq<FrontierEntry>, maxMinutes: real,
                            stops: set<StopId>, values: set<real>, seen: Labels, frontier: seq<FrontierEntry>) {
    && LabelsSound(adj, seeds, seen, maxMinutes)
    && FrontierInRange(stops, values, seen, frontier, maxMinutes)
    && AllTracked(adj, seen, frontier, maxMinutes)
  }

  ghost predicate LabelsSound(adj: Adjacency, seeds: seq<FrontierEntry>, seen: Labels, maxMinutes: real) {
    WithinBudget(seen, maxMinutes) && SeedsLabelled(seeds, seen) && Explained(adj, seeds, seen)
  }

  ghost predicate FrontierInRange(stops: set<StopId>, values: set<real>, seen: Labels, frontier: seq<FrontierEntry>, maxMinutes: real) {
    FrontierSound(seen, frontier, maxMinutes) && InRange(stops, values, seen, frontier)
  }

  /** The popped entry is for a labelled stop, no better than its label, within the budget. */
  ghost predicate CurrentPopped(values: set<real>, seen: Labels, maxMinutes: real, cur: FrontierEntry) {
    cur.stopId in seen && seen[cur.stopId] <= cur.minutes <= maxMinutes && cur.minutes in values
  }

  /** While the popped entry carries the stop's label, its first `i` edges are relaxed. */
  ghost predicate RelaxedSoFar(adj: Adjacency, seen: Labels, maxMinutes: real, cur: FrontierEntry, i: int) {
    cur.stopId in seen && seen[cur.stopId] == cur.minutes ==> RelaxedBelow(adj, seen, maxMinutes, cur, i)
  }

  /** The edges out of `cur` numbered below `i` have been relaxed from `cur.minutes`. */
  ghost predicate RelaxedBelow(adj: Adjacency, seen: Labels, maxMinutes: real, cur: FrontierEntry, i: int) {
    forall k ::
      (0 <= k < i && k < |Neighbours(adj, cur.stopId)| && cur.minutes + Neighbours(adj, cur.stopId)[k].minutes <= maxMinutes)
      ==>
      Neighbours(adj, cur.stopId)[k].to in seen &&
      seen[Neighbours(adj, cur.stopId)[k].to] <= cur.minutes + Neighbours(adj, cur.stopId)[k].minutes
  }

  /** The invariant while the edges of the popped entry `cur` are relaxed, `i` of them done. */
  ghost predicate Relaxing(adj: Adjacency, seeds: seq<FrontierEntry>, maxMinutes: real,
                           stops: set<StopId>, values: set<real>, seen: Labels, frontier: seq<FrontierEntry>,
                           cur: FrontierEntry, i: int) {
    && LabelsSound(adj, seeds, seen, maxMinutes)
    && FrontierInRange(stops, values, seen, frontier, maxMinutes)
    && CurrentPopped(values, seen, maxMinutes, cur)
    && TrackedBut(adj, seen, frontier, maxMinutes, cur)
    && RelaxedSoFar(adj, seen, maxMinutes, cur, i)
  }

  /** Every labelled stop is tracked, except perhaps `cur` while its label is the popped one. */
  ghost predicate TrackedBut(adj: Adjacency, seen: Labels, frontier: seq<FrontierEntry>, maxMinutes: real, cur: FrontierEntry) {
    forall u :: u in seen ==> Tracked(adj, seen, frontier, maxMinutes, u) || (u == cur.stopId && seen[u] == cur.minutes)
  }

  /** The map the seeding loop writes: later entries overwrite earlier ones. */
  function SeedMap(seeds: seq<FrontierEntry>): (m: Labels)
    ensures forall t :: t in m ==> exists i :: 0 <= i < |seeds| && seeds[i].stopId == t && seeds[i].minutes == m[t]
    ensures forall i :: 0 <= i < |seeds| ==> seeds[i].stopId in m
  {
    if |seeds| == 0 then map[]
    else
      var init := seeds[..|seeds| - 1];
      assert forall i :: 0 <= i < |init| ==> init[i] == seeds[i];
      SeedMap(init)[seeds[|seeds| - 1].stopId := seeds[|seeds| - 1].minutes]
  }

  lemma {:induction false} SeedMapDistinct(seeds: seq<FrontierEntry>)
    requires DistinctSeeds(seeds)
    ensures forall i :: 0 <= i < |seeds| ==> SeedMap(seeds)[seeds[i].stopId] == seeds[i].minutes
  {
    if |seeds| > 0 {
      var init := seeds[..|seeds| - 1];
      assert forall i :: 0 <= i < |init| ==> init[i] == seeds[i];
      SeedMapDistinct(init);
    }
  }

  /** Right after seeding, the invariant holds. */
  lemma InvariantAtSeeds(adj: Adjacency, seeds: seq<FrontierEntry>, maxMinutes: real)
    requires DistinctSeeds(seeds)
    requires forall i :: 0 <= i < |seeds| ==> 0.0 <= seeds[i].minutes <= maxMinutes
    ensures Invariant(adj, seeds, maxMinutes, Universe(adj, seeds), Candidates(adj, seeds, maxMinutes), SeedMap(seeds), seeds)
  {
    var seen := SeedMap(seeds);
    SeedMapDistinct(seeds);
    forall t | t in seen ensures ExplainedAt(adj, seeds, seen, t) {
      var i :| 0 <= i < |seeds| && seeds[i].stopId == t && seeds[i].minutes == seen[t];
    }
    forall u | u in seen ensures Tracked(adj, seen, seeds, maxMinutes, u) {
      var i :| 0 <= i < |seeds| && seeds[i].stopId == u && seeds[i].minutes == seen[u];
      assert seeds[i] == FrontierEntry(u, seen[u]);
    }
    forall s | s in seen ensures s in Universe(adj, seeds) && seen[s] in Candidates(adj, seeds, maxMinutes) {
      var i :| 0 <= i < |seeds| && seeds[i].stopId == s && seeds[i].minutes == seen[s];
      assert seeds[i] in seeds;
      SeedCandidate(adj, seeds, maxMinutes, i);
    }
    forall i | 0 <= i < |seeds| ensures seeds[i].minutes in Candidates(adj, seeds, maxMinutes) {
      SeedCandidate(adj, seeds, maxMinutes, i);
    }
  }

  /** Popping the cheapest entry of the sorted frontier starts a relaxation round. */
  lemma PopStartsRelaxing(adj: Adjacency, seeds: seq<FrontierEntry>, maxMinutes: real,
                          stops: set<StopId>, values: set<real>, seen: Labels, frontier: seq<FrontierEntry>,
                          sorted: seq<FrontierEntry>)
    requires Invariant(adj, seeds, maxMinutes, stops, values, seen, frontier)
    requires multiset(sorted) == multiset(frontier) && |sorted| > 0
    ensures Relaxing(adj, seeds, maxMinutes, stops, values, seen, sorted[1..], sorted[0], 0)
  {
    var cur, rest := sorted[0], sorted[1..];
    assert sorted == [cur] + rest;
    assert forall x :: x in sorted <==> x in frontier by {
      forall x ensures x in sorted <==> x in frontier {
        assert x in sorted <==> x in multiset(sorted);
        assert x in frontier <==> x in multiset(frontier);
      }
    }
    assert cur in frontier;
    forall i | 0 <= i < |rest| ensures rest[i] in frontier {
      assert rest[i] == sorted[i + 1];
    }
    forall u | u in seen
      ensures Tracked(adj, seen, rest, maxMinutes, u) || (u == cur.stopId && seen[u] == cur.minutes)
    {
      assert Tracked(adj, seen, frontier, maxMinutes, u);
    }
  }

  /** Once every edge of `cur` is done, the outer invariant holds again. */
  lemma RelaxingDone(adj: Adjacency, seeds: seq<FrontierEntry>, maxMinutes: real,
                     stops: set<StopId>, values: set<real>, seen: Labels, frontier: seq<FrontierEntry>,
                     cur: FrontierEntry)
    requires Relaxing(adj, seeds, maxMinutes, stops, values, seen, frontier, cur, |Neighbours(adj, cur.stopId)|)
    ensures Invariant(adj, seeds, maxMinutes, stops, values, seen, frontier)
  {
    var nbrs := Neighbours(adj, cur.stopId);
    if seen[cur.stopId] == cur.minutes {
      forall e | e in nbrs && seen[cur.stopId] + e.minutes <= maxMinutes
        ensures e.to in seen && seen[e.to] <= seen[cur.stopId] + e.minutes
      {
        var k :| 0 <= k < |nbrs| && nbrs[k] == e;
      }
      assert RelaxedAt(adj, seen, maxMinutes, cur.stopId);
    }
  }

  /** With an empty frontier the invariant is the search result. */
  lemma InvariantAtExit(adj: Adjacency, seeds: seq<FrontierEntry>, maxMinutes: real,
                        stops: set<StopId>, values: set<real>, seen: Labels)
    requires Invariant(adj, seeds, maxMinutes, stops, values, seen, [])
    ensures SearchResult(adj, seeds, seen, maxMinutes)
  {
    forall u | u in seen ensures RelaxedAt(adj, seen, maxMinutes, u) {
      assert Tracked(adj, seen, [], maxMinutes, u);
    }
  }

  lemma RelaxedImproves(adj: Adjacency, seen: Labels, after: Labels, maxMinutes: real, u: StopId)
    requires u in seen && Improves(seen, after) && u in after && after[u] == seen[u]
    requires RelaxedAt(adj, seen, maxMinutes, u)
    ensures RelaxedAt(adj, after, maxMinutes, u)
  {
    forall e | e in Neighbours(adj, u) && after[u] + e.minutes <= maxMinutes
      ensures e.to in after && after[e.to] <= after[u] + e.minutes
    {
      assert e.to in seen;
    }
  }

  lemma ExplainedImproves(adj: Adjacency, seeds: seq<FrontierEntry>, seen: Labels, after: Labels, t: StopId)
    requires t in seen && Improves(seen, after) && t in after && after[t] == seen[t]
    requires ExplainedAt(adj, seeds, seen, t)
    ensures ExplainedAt(adj, seeds, after, t)
  {
    if exists i :: 0 <= i < |seeds| && seeds[i].stopId == t && seeds[i].minutes <= seen[t] {
    } else {
      var u, k :| u in seen && u in adj && 0 <= k < |adj[u]| && adj[u][k].to == t &&
        seen[u] + adj[u][k].minutes <= seen[t];
      assert u in after && after[u] + adj[u][k].minutes <= after[t];
    }
  }

  /** Writing label `c` for `v` because it strictly improves keeps the labels explained. */
  lemma ExplainedAfterWrite(adj: Adjacency, seeds: seq<FrontierEntry>, seen: Labels, cur: FrontierEntry, i: int, c: real)
    requires Explained(adj, seeds, seen)
    requires cur.stopId in seen && seen[cur.stopId] <= cur.minutes
    requires 0 <= i < |Neighbours(adj, cur.stopId)|
    requires c == cur.minutes + Neighbours(adj, cur.stopId)[i].minutes
    requires var v := Neighbours(adj, cur.stopId)[i].to; v != cur.stopId && (v !in seen || c < seen[v])
    ensures Explained(adj, seeds, seen[Neighbours(adj, cur.stopId)[i].to := c])
  {
    var v := Neighbours(adj, cur.stopId)[i].to;
    var after := seen[v := c];
    forall t | t in after ensures ExplainedAt(adj, seeds, after, t) {
      if t == v {
        assert cur.stopId in adj;
        assert adj[cur.stopId][i].to == t && after[cur.stopId] + adj[cur.stopId][i].minutes <= after[t];
      } else {
        ExplainedImproves(adj, seeds, seen, after, t);
      }
    }
  }

  /** Writing label `c` for `v` keeps every labelled stop tracked, given the new frontier entry. */
  lemma TrackedAfterWrite(adj: Adjacency, seen: Labels, frontier: seq<FrontierEntry>, maxMinutes: real,
                          cur: FrontierEntry, v: StopId, c: real, after: Labels, next: seq<FrontierEntry>)
    requires v != cur.stopId && (v !in seen || c < seen[v])
    requires after == seen[v := c] && next == frontier + [FrontierEntry(v, c)]
    requires TrackedBut(adj, seen, frontier, maxMinutes, cur)
    ensures TrackedBut(adj, after, next, maxMinutes, cur)
  {
    forall u | u in after
      ensures Tracked(adj, after, next, maxMinutes, u) || (u == cur.stopId && after[u] == cur.minutes)
    {
      if u == v {
        assert next[|frontier|] == FrontierEntry(v, c);
      } else if RelaxedAt(adj, seen, maxMinutes, u) {
        RelaxedImproves(adj, seen, after, maxMinutes, u);
      } else if FrontierEntry(u, seen[u]) in frontier {
        assert FrontierEntry(u, after[u]) in next;
      }
    }
  }

  /** Following an edge within the budget from a candidate value stays inside the candidate sets. */
  ghost predicate ClosedUnderEdges(adj: Adjacency, maxMinutes: real, stops: set<StopId>, values: set<real>) {
    forall u, e, m {:trigger Extend(m, e.minutes), adj[u]} ::
      u in adj && e in adj[u] && m in values && Extend(m, e.minutes) <= maxMinutes ==>
      e.to in stops && Extend(m, e.minutes) in values
  }

  lemma CandidatesClosed(adj: Adjacency, seeds: seq<FrontierEntry>, maxMinutes: real)
    requires PositiveWeights(adj) && NonNegativeSeeds(seeds)
    ensures ClosedUnderEdges(adj, maxMinutes, Universe(adj, seeds), Candidates(adj, seeds, maxMinutes))
  {
    forall u, e, m | u in adj && e in adj[u] && m in Candidates(adj, seeds, maxMinutes) && Extend(m, e.minutes) <= maxMinutes
      ensures e.to in Universe(adj, seeds) && Extend(m, e.minutes) in Candidates(adj, seeds, maxMinutes)
    {
      CandidateStep(adj, seeds, maxMinutes, m, e, u);
    }
  }

  /** The target and the candidate minutes of an edge within the budget lie in the candidate sets. */
  lemma RelaxTarget(adj: Adjacency, maxMinutes: real, stops: set<StopId>, values: set<real>, cur: FrontierEntry, i: int)
    requires ClosedUnderEdges(adj, maxMinutes, stops, values)
    requires cur.minutes in values
    requires 0 <= i < |Neighbours(adj, cur.stopId)|
    requires cur.minutes + Neighbours(adj, cur.stopId)[i].minutes <= maxMinutes
    ensures Neighbours(adj, cur.stopId)[i].to in stops
    ensures cur.minutes + Neighbours(adj, cur.stopId)[i].minutes in values
  {
    var e := Neighbours(adj, cur.stopId)[i];
    assert cur.stopId in adj && e in adj[cur.stopId];
    assert Extend(cur.minutes, e.minutes) <= maxMinutes;
  }

  /** One strictly improving write during relaxation. */
  lemma RelaxWrite(adj: Adjacency, seeds: seq<FrontierEntry>, maxMinutes: real,
                   stops: set<StopId>, values: set<real>, seen: Labels, frontier: seq<FrontierEntry>,
                   cur: FrontierEntry, i: int, after: Labels, next: seq<FrontierEntry>)
    requires PositiveWeights(adj)
    requires Relaxing(adj, seeds, maxMinutes, stops, values, seen, frontier, cur, i)
    requires 0 <= i < |Neighbours(adj, cur.stopId)|
    requires var e := Neighbours(adj, cur.stopId)[i];
      && cur.minutes + e.minutes <= maxMinutes && (e.to !in seen || cur.minutes + e.minutes < seen[e.to])
      && e.to in stops && cur.minutes + e.minutes in values
      && after == seen[e.to := cur.minutes + e.minutes]
      && next == frontier + [FrontierEntry(e.to, cur.minutes + e.minutes)]
    ensures Neighbours(adj, cur.stopId)[i].to != cur.stopId
    ensures Improves(seen, after)
    ensures Relaxing(adj, seeds, maxMinutes, stops, values, after, next, cur, i + 1)
  {
    var e := Neighbours(adj, cur.stopId)[i];
    var c := cur.minutes + e.minutes;
    WrittenLabels(adj, seeds, maxMinutes, seen, cur, i, after);
    TrackedAfterWrite(adj, seen, frontier, maxMinutes, cur, e.to, c, after, next);
    FrontierAfterWrite(stops, values, seen, frontier, maxMinutes, e.to, c);
    RelaxedBelowStep(adj, seen, after, maxMinutes, cur, i);
    assert CurrentPopped(values, after, maxMinutes, cur);
  }

  /** The label facts after one strictly improving write. */
  lemma WrittenLabels(adj: Adjacency, seeds: seq<FrontierEntry>, maxMinutes: real, seen: Labels,
                      cur: FrontierEntry, i: int, after: Labels)
    requires PositiveWeights(adj)
    requires LabelsSound(adj, seeds, seen, maxMinutes)
    requires cur.stopId in seen && seen[cur.stopId] <= cur.minutes
    requires 0 <= i < |Neighbours(adj, cur.stopId)|
    requires var e := Neighbours(adj, cur.stopId)[i];
      && cur.minutes + e.minutes <= maxMinutes && (e.to !in seen || cur.minutes + e.minutes < seen[e.to])
      && after == seen[e.to := cur.minutes + e.minutes]
    ensures Neighbours(adj, cur.stopId)[i].to != cur.stopId
    ensures Improves(seen, after) && after[cur.stopId] == seen[cur.stopId]
    ensures LabelsSound(adj, seeds, after, maxMinutes)
  {
    var e := Neighbours(adj, cur.stopId)[i];
    var c := cur.minutes + e.minutes;
    assert cur.stopId in adj && e in adj[cur.stopId];
    assert e.minutes >= 0.5;
    assert e.to != cur.stopId;
    ExplainedAfterWrite(adj, seeds, seen, cur, i, c);
    assert WithinBudget(after, maxMinutes) by {
      assert 0.0 <= seen[cur.stopId] <= cur.minutes;
    }
    assert SeedsLabelled(seeds, after) by {
      forall j | 0 <= j < |seeds| ensures seeds[j].stopId in after && after[seeds[j].stopId] <= seeds[j].minutes {
        assert seeds[j].stopId in seen;
      }
    }
  }

  /** Relaxing edge `i` extends the relaxed prefix; later improvements keep it. */
  lemma RelaxedBelowStep(adj: Adjacency, seen: Labels, after: Labels, maxMinutes: real, cur: FrontierEntry, i: int)
    requires RelaxedSoFar(adj, seen, maxMinutes, cur, i) && Improves(seen, after)
    requires cur.stopId in seen && after[cur.stopId] == seen[cur.stopId]
    requires 0 <= i < |Neighbours(adj, cur.stopId)|
    requires var e := Neighbours(adj, cur.stopId)[i];
      cur.minutes + e.minutes <= maxMinutes ==> e.to in after && after[e.to] <= cur.minutes + e.minutes
    ensures RelaxedSoFar(adj, after, maxMinutes, cur, i + 1)
  {
  }

  lemma FrontierAfterWrite(stops: set<StopId>, values: set<real>, seen: Labels, frontier: seq<FrontierEntry>,
                           maxMinutes: real, v: StopId, c: real)
    requires FrontierInRange(stops, values, seen, frontier, maxMinutes)
    requires (v !in seen || c < seen[v]) && c <= maxMinutes && v in stops && c in values
    ensures FrontierInRange(stops, values, seen[v := c], frontier + [FrontierEntry(v, c)], maxMinutes)
  {
    var after := seen[v := c];
    var next := frontier + [FrontierEntry(v, c)];
    forall j | 0 <= j < |next|
      ensures next[j].stopId in after && after[next[j].stopId] <= next[j].minutes <= maxMinutes
      ensures next[j].minutes in values
    {
      if j < |frontier| { assert next[j] == frontier[j]; }
    }
  }

  /** The time edge `i` of `cur` offers its target. */
  function Offer(adj: Adjacency, cur: FrontierEntry, i: int): real
    requires 0 <= i < |Neighbours(adj, cur.stopId)|
  {
    cur.minutes + Neighbours(adj, cur.stopId)[i].minutes
  }

  /** The write edge `i` performs: within the budget and strictly better than the target's label. */
  ghost predicate Writes(adj: Adjacency, seen: Labels, maxMinutes: real, cur: FrontierEntry, i: int)
    requires 0 <= i < |Neighbours(adj, cur.stopId)|
  {
    var v := Neighbours(adj, cur.stopId)[i].to;
    Offer(adj, cur, i) <= maxMinutes && (v !in seen || Offer(adj, cur, i) < seen[v])
  }

  /**
   * One step of the relaxation loop: an improving write (giving `after` and
   * `next`) keeps the invariant and strictly shrinks the measure below the
   * labels at the pop (`start`); any other edge leaves everything as it is.
   */
  lemma RelaxEdge(adj: Adjacency, seeds: seq<FrontierEntry>, maxMinutes: real,
                  stops: set<StopId>, values: set<real>, start: Labels, seen: Labels, frontier: seq<FrontierEntry>,
                  cur: FrontierEntry, i: int, after: Labels, next: seq<FrontierEntry>)
    requires PositiveWeights(adj) && ClosedUnderEdges(adj, maxMinutes, stops, values)
    requires Relaxing(adj, seeds, maxMinutes, stops, values, seen, frontier, cur, i)
    requires Improves(start, seen) && Pending(stops, values, seen) <= Pending(stops, values, start)
    requires 0 <= i < |Neighbours(adj, cur.stopId)|
    requires after == seen[Neighbours(adj, cur.stopId)[i].to := Offer(adj, cur, i)]
    requires next == frontier + [FrontierEntry(Neighbours(adj, cur.stopId)[i].to, Offer(adj, cur, i))]
    ensures Writes(adj, seen, maxMinutes, cur, i) ==>
      && Improves(start, after)
      && Pending(stops, values, after) < Pending(stops, values, start)
      && Relaxing(adj, seeds, maxMinutes, stops, values, after, next, cur, i + 1)
    ensures !Writes(adj, seen, maxMinutes, cur, i) ==>
      Relaxing(adj, seeds, maxMinutes, stops, values, seen, frontier, cur, i + 1)
  {
    if Writes(adj, seen, maxMinutes, cur, i) {
      WriteKeepsRelaxing(adj, seeds, maxMinutes, stops, values, start, seen, frontier, cur, i, after, next);
      WriteShrinksPending(adj, seeds, maxMinutes, stops, values, start, seen, frontier, cur, i, after, next);
      WriteImproves(adj, seeds, maxMinutes, stops, values, start, seen, frontier, cur, i, after, next);
    } else {
      RelaxSkip(adj, seeds, maxMinutes, stops, values, seen, frontier, cur, i);
    }
  }

  /** An improving write keeps the relaxation invariant. */
  lemma WriteKeepsRelaxing(adj: Adjacency, seeds: seq<FrontierEntry>, maxMinutes: real,
                  stops: set<StopId>, values: set<real>, start: Labels, seen: Labels, frontier: seq<FrontierEntry>,
                  cur: FrontierEntry, i: int, after: Labels, next: seq<FrontierEntry>)
    requires PositiveWeights(adj) && ClosedUnderEdges(adj, maxMinutes, stops, values)
    requires Relaxing(adj, seeds, maxMinutes, stops, values, seen, frontier, cur, i)
    requires Improves(start, seen) && Pending(stops, values, seen) <= Pending(stops, values, start)
    requires 0 <= i < |Neighbours(adj, cur.stopId)| && Writes(adj, seen, maxMinutes, cur, i)
    requires after == seen[Neighbours(adj, cur.stopId)[i].to := Offer(adj, cur, i)]
    requires next == frontier + [FrontierEntry(Neighbours(adj, cur.stopId)[i].to, Offer(adj, cur, i))]
    ensures Relaxing(adj, seeds, maxMinutes, stops, values, after, next, cur, i + 1)
  {
    RelaxTarget(adj, maxMinutes, stops, values, cur, i);
    RelaxWrite(adj, seeds, maxMinutes, stops, values, seen, frontier, cur, i, after, next);
  }

  /** An improving write removes a pending pair. */
  lemma WriteShrinksPending(adj: Adjacency, seeds: seq<FrontierEntry>, maxMinutes: real,
                  stops: set<StopId>, values: set<real>, start: Labels, seen: Labels, frontier: seq<FrontierEntry>,
                  cur: FrontierEntry, i: int, after: Labels, next: seq<FrontierEntry>)
    requires PositiveWeights(adj) && ClosedUnderEdges(adj, maxMinutes, stops, values)
    requires Relaxing(adj, seeds, maxMinutes, stops, values, seen, frontier, cur, i)
    requires Improves(start, seen) && Pending(stops, values, seen) <= Pending(stops, values, start)
    requires 0 <= i < |Neighbours(adj, cur.stopId)| && Writes(adj, seen, maxMinutes, cur, i)
    requires after == seen[Neighbours(adj, cur.stopId)[i].to := Offer(adj, cur, i)]
    requires next == frontier + [FrontierEntry(Neighbours(adj, cur.stopId)[i].to, Offer(adj, cur, i))]
    ensures Pending(stops, values, after) < Pending(stops, values, start)
  {
    RelaxTarget(adj, maxMinutes, stops, values, cur, i);
    PendingShrinks(stops, values, seen, Neighbours(adj, cur.stopId)[i].to, Offer(adj, cur, i));
    PendingMonotone(stops, values, start, seen);
  }

  /** An improving write only lowers labels. */
  lemma WriteImproves(adj: Adjacency, seeds: seq<FrontierEntry>, maxMinutes: real,
                  stops: set<StopId>, values: set<real>, start: Labels, seen: Labels, frontier: seq<FrontierEntry>,
                  cur: FrontierEntry, i: int, after: Labels, next: seq<FrontierEntry>)
    requires PositiveWeights(adj) && ClosedUnderEdges(adj, maxMinutes, stops, values)
    requires Relaxing(adj, seeds, maxMinutes, stops, values, seen, frontier, cur, i)
    requires Improves(start, seen) && Pending(stops, values, seen) <= Pending(stops, values, start)
    requires 0 <= i < |Neighbours(adj, cur.stopId)| && Writes(adj, seen, maxMinutes, cur, i)
    requires after == seen[Neighbours(adj, cur.stopId)[i].to := Offer(adj, cur, i)]
    requires next == frontier + [FrontierEntry(Neighbours(adj, cur.stopId)[i].to, Offer(adj, cur, i))]
    ensures Improves(start, after)
  {
    RelaxTarget(adj, maxMinutes, stops, values, cur, i);
    RelaxWrite(adj, seeds, maxMinutes, stops, values, seen, frontier, cur, i, after, next);
    ImprovesTransitive(start, seen, after);
  }

  lemma ImprovesTransitive(a: Labels, b: Labels, c: Labels)
    requires Improves(a, b) && Improves(b, c)
    ensures Improves(a, c)
  {
  }

  /** An edge that does not fit the budget, or would not improve, changes nothing. */
  lemma RelaxSkip(adj: Adjacency, seeds: seq<FrontierEntry>, maxMinutes: real,
                  stops: set<StopId>, values: set<real>, seen: Labels, frontier: seq<FrontierEntry>,
                  cur: FrontierEntry, i: int)
    requires Relaxing(adj, seeds, maxMinutes, stops, values, seen, frontier, cur, i)
    requires 0 <= i < |Neighbours(adj, cur.stopId)|
    requires var e := Neighbours(adj, cur.stopId)[i];
      cur.minutes + e.minutes > maxMinutes || (e.to in seen && cur.minutes + e.minutes >= seen[e.to])
    ensures Relaxing(adj, seeds, maxMinutes, stops, values, seen, frontier, cur, i + 1)
  {
  }
}
