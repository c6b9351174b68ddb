/**
 * One isochrone request after the search: the budget and category filter it
 * uses, the reached stops it reports, the best time to each point of
 * interest (a direct walk, or a ride to a reached stop and a walk from
 * there), the per-category counts and the weighted score.
 */
module Isochrone {
  import opened Wrappers
  import opened Transit
  import opened Geo
  import opened Scoring
  import opened Search

  /** The budget used when none (or zero) is given. */
  const DefaultLimit: real := 30.0

  /**
   * `Number(maxMinutes) || 30`: an absent or unparsable budget (`None`, the
   * source's NaN) and a zero budget both fall back to 30 minutes; any other
   * value, negative ones included, is used as it is.
   */
  function Limit(maxMinutes: Option<real>): (r: real)
    ensures r != 0.0
    ensures maxMinutes.Some? && maxMinutes.value != 0.0 ==> r == maxMinutes.value
    ensures maxMinutes.None? || maxMinutes.value == 0.0 ==> r == DefaultLimit
  {
    match maxMinutes
    case Some(m) => if m == 0.0 then DefaultLimit else m
    case None => DefaultLimit
  }

  /** The category filter is on only for a non-empty list; then a category passes when listed. */
  predicate Passes(categories: Option<seq<Category>>, c: Category)
  {
    categories.None? || |categories.value| == 0 || c in categories.value
  }

  // ---------------------------------------------------------------------
  // Reached stops

  /** A labelled stop as reported: the stop record from the index, with its label. */
  datatype ReachedStop = ReachedStop(stop: Stop, minutes: real)

  function ReachedMinutes(x: ReachedStop): real { x.minutes }

  /**
   * The report of the labelled stops, visited in the order their labels were
   * first written; a stop missing from the index is dropped.
   */
  function ReachedRecords(keys: seq<StopId>, seen: Labels, stopsById: map<StopId, Stop>): (r: seq<ReachedStop>)
    requires forall i :: 0 <= i < |keys| ==> keys[i] in seen
    ensures |r| <= |keys|
  {
    if |keys| == 0 then []
    else
      var k := keys[|keys| - 1];
      ReachedRecords(keys[..|keys| - 1], seen, stopsById) +
        (if k in stopsById then [ReachedStop(stopsById[k], seen[k])] else [])
  }

  /** A report entry is exactly an indexed, labelled key with its label. */
  lemma {:induction false} ReachedRecordsMembers(keys: seq<StopId>, seen: Labels, stopsById: map<StopId, Stop>, x: ReachedStop)
    requires forall i :: 0 <= i < |keys| ==> keys[i] in seen
    ensures x in ReachedRecords(keys, seen, stopsById) <==>
      exists i :: 0 <= i < |keys| && keys[i] in stopsById && x == ReachedStop(stopsById[keys[i]], seen[keys[i]])
  {
    if |keys| > 0 {
      var init := keys[..|keys| - 1];
      assert forall i :: 0 <= i < |init| ==> init[i] == keys[i];
      ReachedRecordsMembers(init, seen, stopsById, x);
      var k := keys[|keys| - 1];
      if x in ReachedRecords(keys, seen, stopsById) && x !in ReachedRecords(init, seen, stopsById) {
        assert k in stopsById && x == ReachedStop(stopsById[k], seen[k]);
      }
    }
  }

  /** The labelled keys that the stop index knows, in the order of `keys`. */
  function IndexedKeys(keys: seq<StopId>, stopsById: map<StopId, Stop>): (r: seq<StopId>)
    ensures |r| <= |keys|
  {
    if |keys| == 0 then []
    else
      var k := keys[|keys| - 1];
      IndexedKeys(keys[..|keys| - 1], stopsById) + (if k in stopsById then [k] else [])
  }

  lemma {:induction false} IndexedKeysMembers(keys: seq<StopId>, stopsById: map<StopId, Stop>, k: StopId)
    ensures k in IndexedKeys(keys, stopsById) <==> k in keys && k in stopsById
  {
    if |keys| > 0 {
      var init := keys[..|keys| - 1];
      IndexedKeysMembers(init, stopsById, k);
      assert keys == init + [keys[|keys| - 1]];
    }
  }

  /** Distinct keys give distinct indexed keys. */
  lemma {:induction false} IndexedKeysDistinct(keys: seq<StopId>, stopsById: map<StopId, Stop>)
    requires forall i, j :: 0 <= i < j < |keys| ==> keys[i] != keys[j]
    ensures var ks := IndexedKeys(keys, stopsById);
      forall i, j :: 0 <= i < j < |ks| ==> ks[i] != ks[j]
  {
    if |keys| > 0 {
      var init := keys[..|keys| - 1];
      var k := keys[|keys| - 1];
      IndexedKeysDistinct(init, stopsById);
      IndexedKeysMembers(init, stopsById, k);
      assert k !in init;
    }
  }

  /**
   * The report holds one entry per indexed key, in that order: the stop
   * record and the label of that key.
   */
  lemma {:induction false} ReachedRecordsIndexed(keys: seq<StopId>, seen: Labels, stopsById: map<StopId, Stop>)
    requires forall i :: 0 <= i < |keys| ==> keys[i] in seen
    ensures var ks := IndexedKeys(keys, stopsById);
      var r := ReachedRecords(keys, seen, stopsById);
      |r| == |ks| &&
      forall i :: 0 <= i < |ks| ==> ks[i] in stopsById && ks[i] in seen && r[i] == ReachedStop(stopsById[ks[i]], seen[ks[i]])
  {
    if |keys| > 0 {
      var init := keys[..|keys| - 1];
      assert forall i :: 0 <= i < |init| ==> init[i] == keys[i];
      ReachedRecordsIndexed(init, seen, stopsById);
    }
  }

  // ---------------------------------------------------------------------
  // Best time to a point of interest

  /**
   * One step of the per-stop update: a via-stop total replaces the best time
   * when it is smaller, or when the best time so far is exactly 0, which the
   * source's `bestMinutes === 0` test treats as "not set yet".
   */
  function BestStep(best: real, total: real): (r: real)
    ensures r == best || r == total
    ensures best != 0.0 ==> r <= best && r <= total
  {
    if best == 0.0 || total < best then total else best
  }

  /** The best time after offering the totals in order, starting from the direct walk. */
  function Best(direct: real, totals: seq<real>): real
  {
    if |totals| == 0 then direct else BestStep(Best(direct, totals[..|totals| - 1]), totals[|totals| - 1])
  }

  /** The best time is the direct walk or one of the via-stop totals. */
  lemma {:induction false} BestIsCandidate(direct: real, totals: seq<real>)
    ensures Best(direct, totals) == direct || exists i :: 0 <= i < |totals| && Best(direct, totals) == totals[i]
  {
    if |totals| > 0 {
      var init := totals[..|totals| - 1];
      BestIsCandidate(direct, init);
      if Best(direct, totals) != totals[|totals| - 1] && Best(direct, totals) != direct {
        var i :| 0 <= i < |init| && Best(direct, init) == init[i];
        assert totals[i] == init[i];
      }
    }
  }

  /** With a positive direct walk and positive totals, the best time is their minimum. */
  lemma {:induction false} BestIsMinimum(direct: real, totals: seq<real>)
    requires direct > 0.0
    requires forall i :: 0 <= i < |totals| ==> totals[i] > 0.0
    ensures Best(direct, totals) > 0.0
    ensures Best(direct, totals) <= direct
    ensures forall i :: 0 <= i < |totals| ==> Best(direct, totals) <= totals[i]
  {
    if |totals| > 0 {
      var init := totals[..|totals| - 1];
      assert forall i :: 0 <= i < |init| ==> init[i] == totals[i];
      BestIsMinimum(direct, init);
    }
  }

  /**
   * The falsy-zero test at work: a point of interest at zero walking distance
   * is not reported at 0 minutes once any reached stop exists; with positive
   * totals it gets the cheapest via-stop total instead.
   */
  lemma {:induction false} ZeroWalkIsOverridden(totals: seq<real>)
    requires |totals| > 0
    requires forall i :: 0 <= i < |totals| ==> totals[i] > 0.0
    ensures Best(0.0, totals) > 0.0
    ensures forall i :: 0 <= i < |totals| ==> Best(0.0, totals) <= totals[i]
    ensures exists i :: 0 <= i < |totals| && Best(0.0, totals) == totals[i]
  {
    var init := totals[..|totals| - 1];
    assert forall i :: 0 <= i < |init| ==> init[i] == totals[i];
    if |init| == 0 {
      assert Best(0.0, totals) == totals[0];
    } else {
      ZeroWalkIsOverridden(init);
      var j :| 0 <= j < |init| && Best(0.0, init) == init[j];
      assert Best(0.0, totals) == totals[j] || Best(0.0, totals) == totals[|totals| - 1];
    }
  }

  /**
   * A via-stop total of exactly 0 is discarded the same way: the next total
   * replaces it, however large.
   */
  lemma ZeroTotalIsOverridden(direct: real, total: real)
    requires direct >= 0.0
    ensures Best(direct, [0.0, total]) == total
  {
    assert [0.0, total][..1] == [0.0];
    assert [0.0][..0] == [];
    assert Best(direct, [0.0]) == BestStep(direct, 0.0) == 0.0;
    assert Best(direct, [0.0, total]) == BestStep(Best(direct, [0.0]), total);
  }

  /** A concrete instance: a zero direct walk and one stop 12 minutes away give 12, not 0. */
  lemma ZeroWalkExample()
    ensures Best(0.0, [12.0]) == 12.0
    ensures Best(3.0, [12.0]) == 3.0
  {
    assert [12.0][..0] == [];
  }

  // ---------------------------------------------------------------------
  // Attaching points of interest

  /** What the attachment of points of interest depends on besides the points themselves. */
  datatype Attachment = Attachment(
    dist: DistanceFn,
    latitude: real,
    longitude: real,
    reached: seq<ReachedStop>,
    limit: real,
    categories: Option<seq<Category>>)

  /** A point of interest with its best time (unrounded). */
  datatype AccessiblePoi = AccessiblePoi(poi: Poi, minutes: real)

  function PoiMinutes(x: AccessiblePoi): real { x.minutes }

  /** Walking straight from the origin to `poi`. */
  function DirectWalk(a: Attachment, poi: Poi): real
  {
    WalkingMinutes(a.dist(a.latitude, a.longitude, poi.latitude, poi.longitude), WalkSpeedKmh)
  }

  /** Walking from reached stop `s` to `poi`. */
  function HopWalk(a: Attachment, s: ReachedStop, poi: Poi): real
  {
    WalkingMinutes(a.dist(s.stop.latitude, s.stop.longitude, poi.latitude, poi.longitude), WalkSpeedKmh)
  }

  /** For each reached stop, in report order: its label plus the walk on to `poi`. */
  function Totals(a: Attachment, poi: Poi): (r: seq<real>)
    ensures |r| == |a.reached|
    ensures forall i :: 0 <= i < |r| ==> r[i] == a.reached[i].minutes + HopWalk(a, a.reached[i], poi)
  {
    seq(|a.reached|, i requires 0 <= i < |a.reached| => a.reached[i].minutes + HopWalk(a, a.reached[i], poi))
  }

  function BestMinutes(a: Attachment, poi: Poi): real
  {
    Best(DirectWalk(a, poi), Totals(a, poi))
  }

  /** A point of interest is reported when it passes the filter and its best time fits the budget. */
  predicate Accessible(a: Attachment, poi: Poi)
  {
    Passes(a.categories, poi.categoryName) && BestMinutes(a, poi) <= a.limit
  }

  function Attached(a: Attachment, poi: Poi): AccessiblePoi
  {
    AccessiblePoi(poi, BestMinutes(a, poi))
  }

  /**
   * The falsy-zero test makes the reported points non-monotone in the budget.
   * A point at the origin has a direct walk of 0. Under budget 5 the stop
   * `s`, 10 minutes' walk away, is not reached, the best time stays 0 and
   * the point is reported. Under budget 15 the stop is reached at 10, its
   * total of 20 replaces the 0, and the point is dropped.
   */
  lemma LargerBudgetCanDropPoi(dist: DistanceFn, poi: Poi, s: Stop)
    requires dist(0.0, 0.0, poi.latitude, poi.longitude) == 0.0
    requires dist(s.latitude, s.longitude, poi.latitude, poi.longitude) == 0.8
    ensures Accessible(Attachment(dist, 0.0, 0.0, [], 5.0, None), poi)
    ensures !Accessible(Attachment(dist, 0.0, 0.0, [ReachedStop(s, 10.0)], 15.0, None), poi)
  {
    var small := Attachment(dist, 0.0, 0.0, [], 5.0, None);
    var large := Attachment(dist, 0.0, 0.0, [ReachedStop(s, 10.0)], 15.0, None);
    assert DirectWalk(small, poi) == 0.0 && DirectWalk(large, poi) == 0.0;
    assert Totals(small, poi) == [];
    var hop := HopWalk(large, ReachedStop(s, 10.0), poi);
    assert hop * WalkSpeedKmh == 0.8 * 60.0;
    assert hop == 10.0;
    assert Totals(large, poi) == [20.0];
    assert [20.0][..0] == [];
  }

  /** The reported points of interest, in dataset order. */
  function AccessibleFrom(pois: seq<Poi>, a: Attachment): (r: seq<AccessiblePoi>)
    ensures |r| <= |pois|
  {
    if |pois| == 0 then []
    else
      var last := pois[|pois| - 1];
      AccessibleFrom(pois[..|pois| - 1], a) + (if Accessible(a, last) then [Attached(a, last)] else [])
  }

  /** The reported points are exactly the accessible ones, each with its best time. */
  lemma {:induction false} AccessibleFromMembers(pois: seq<Poi>, a: Attachment, x: AccessiblePoi)
    ensures x in AccessibleFrom(pois, a) <==>
      exists i :: 0 <= i < |pois| && Accessible(a, pois[i]) && x == Attached(a, pois[i])
  {
    if |pois| > 0 {
      var init := pois[..|pois| - 1];
      assert forall i :: 0 <= i < |init| ==> init[i] == pois[i];
      AccessibleFromMembers(init, a, x);
      if x in AccessibleFrom(pois, a) && x !in AccessibleFrom(init, a) {
        assert Accessible(a, pois[|pois| - 1]) && x == Attached(a, pois[|pois| - 1]);
      }
    }
  }

  /** Every reported point passes the filter and is within the budget. */
  lemma AccessibleWithinLimit(pois: seq<Poi>, a: Attachment, x: AccessiblePoi)
    requires x in AccessibleFrom(pois, a)
    ensures Passes(a.categories, x.poi.categoryName) && x.minutes <= a.limit
    ensures x.poi in pois
  {
    AccessibleFromMembers(pois, a, x);
  }

  // ---------------------------------------------------------------------
  // Category counts

  /** `counts[c] || 0`: a category without an entry counts 0. */
  function CountFor(counts: map<Category, nat>, c: Category): nat
  {
    if c in counts then counts[c] else 0
  }

  /** The counts object built while attaching: one increment per reported point. */
  function CountsOf(list: seq<AccessiblePoi>): map<Category, nat>
  {
    if |list| == 0 then map[]
    else
      var m := CountsOf(list[..|list| - 1]);
      var c := list[|list| - 1].poi.categoryName;
      m[c := CountFor(m, c) + 1]
  }

  /** How many entries of `list` have category `c`. */
  function Occurrences(list: seq<AccessiblePoi>, c: Category): nat
  {
    if |list| == 0 then 0
    else Occurrences(list[..|list| - 1], c) + (if list[|list| - 1].poi.categoryName == c then 1 else 0)
  }

  /** Each category's count is its number of reported points; only occurring categories get an entry. */
  lemma {:induction false} CountsOfCounts(list: seq<AccessiblePoi>, c: Category)
    ensures CountFor(CountsOf(list), c) == Occurrences(list, c)
    ensures c in CountsOf(list) <==> Occurrences(list, c) > 0
  {
    if |list| > 0 {
      CountsOfCounts(list[..|list| - 1], c);
    }
  }

  lemma {:induction false} OccurrencesConcat(p: seq<AccessiblePoi>, q: seq<AccessiblePoi>, c: Category)
    ensures Occurrences(p + q, c) == Occurrences(p, c) + Occurrences(q, c)
  {
    if |q| > 0 {
      assert (p + q)[..|p + q| - 1] == p + q[..|q| - 1];
      OccurrencesConcat(p, q[..|q| - 1], c);
    } else {
      assert p + q == p;
    }
  }

  /** Reordering a list does not change any category's number of entries. */
  lemma {:induction false} OccurrencesPermutation(a: seq<AccessiblePoi>, b: seq<AccessiblePoi>, c: Category)
    requires multiset(a) == multiset(b)
    ensures Occurrences(a, c) == Occurrences(b, c)
    decreases |a|
  {
    if |a| == 0 {
      assert |b| == |multiset(b)| == 0;
    } else {
      var init, x := a[..|a| - 1], a[|a| - 1];
      assert a == init + [x];
      assert x in multiset(b);
      var k :| 0 <= k < |b| && b[k] == x;
      var rest := RemoveAt(b, k, c);
      assert multiset(init) == multiset(a) - multiset{x};
      OccurrencesPermutation(init, rest, c);
    }
  }

  /** `b` without its entry `k`: one copy of `b[k]` fewer, and one `c` fewer when `b[k]` has category `c`. */
  lemma RemoveAt(b: seq<AccessiblePoi>, k: int, c: Category) returns (rest: seq<AccessiblePoi>)
    requires 0 <= k < |b|
    ensures multiset(rest) == multiset(b) - multiset{b[k]}
    ensures Occurrences(b, c) == Occurrences(rest, c) + (if b[k].poi.categoryName == c then 1 else 0)
  {
    rest := b[..k] + b[k + 1..];
    assert b == b[..k] + [b[k]] + b[k + 1..];
    OccurrencesConcat(b[..k] + [b[k]], b[k + 1..], c);
    OccurrencesConcat(b[..k], [b[k]], c);
    OccurrencesConcat(b[..k], b[k + 1..], c);
    assert [b[k]][..0] == [];
  }

  // ---------------------------------------------------------------------
  // Score

  /** The weighted count total, accumulated in entry order. */
  function WeightedSum(counts: map<Category, nat>, weights: Weights): real
  {
    if |weights| == 0 then 0.0
    else
      var e := weights[|weights| - 1];
      WeightedSum(counts, weights[..|weights| - 1]) + CountFor(counts, e.category) as real * e.weight
  }

  /** `computeScore`: the weighted mean of the counts over the weight entries, 0 when the weights sum to 0. */
  function Score(counts: map<Category, nat>, weights: Weights): (r: real)
    ensures TotalWeight(weights) == 0.0 ==> r == 0.0
    ensures TotalWeight(weights) != 0.0 ==> r * TotalWeight(weights) == WeightedSum(counts, weights)
  {
    if TotalWeight(weights) == 0.0 then 0.0 else WeightedSum(counts, weights) / TotalWeight(weights)
  }

  ghost predicate NonNegativeWeights(weights: Weights) {
    forall i :: 0 <= i < |weights| ==> weights[i].weight >= 0.0
  }

  lemma {:induction false} SumsNonNegative(counts: map<Category, nat>, weights: Weights)
    requires NonNegativeWeights(weights)
    ensures TotalWeight(weights) >= 0.0 && WeightedSum(counts, weights) >= 0.0
  {
    if |weights| > 0 {
      var init := weights[..|weights| - 1];
      assert forall i :: 0 <= i < |init| ==> init[i] == weights[i];
      SumsNonNegative(counts, init);
    }
  }

  /** With non-negative weights the score is non-negative. */
  lemma ScoreNonNegative(counts: map<Category, nat>, weights: Weights)
    requires NonNegativeWeights(weights)
    ensures Score(counts, weights) >= 0.0
  {
    SumsNonNegative(counts, weights);
  }

  /** More of every weighted category never lowers the weighted sum. */
  lemma {:induction false} WeightedSumMonotone(counts: map<Category, nat>, more: map<Category, nat>, weights: Weights)
    requires NonNegativeWeights(weights)
    requires forall i :: 0 <= i < |weights| ==> CountFor(counts, weights[i].category) <= CountFor(more, weights[i].category)
    ensures WeightedSum(counts, weights) <= WeightedSum(more, weights)
  {
    if |weights| > 0 {
      var init := weights[..|weights| - 1];
      var e := weights[|weights| - 1];
      assert forall i :: 0 <= i < |init| ==> init[i] == weights[i];
      WeightedSumMonotone(counts, more, init);
      ProductMonotone(CountFor(counts, e.category) as real, CountFor(more, e.category) as real, e.weight);
    }
  }

  lemma ProductMonotone(a: real, b: real, w: real)
    requires a <= b && w >= 0.0
    ensures a * w <= b * w
  {
  }

  lemma WeightedSumBounded(counts: map<Category, nat>, weights: Weights, bound: nat)
    requires NonNegativeWeights(weights)
    requires forall i :: 0 <= i < |weights| ==> CountFor(counts, weights[i].category) <= bound
    ensures WeightedSum(counts, weights) <= bound as real * TotalWeight(weights)
  {
    var categories := set i | 0 <= i < |weights| :: weights[i].category;
    var uniform := map c | c in categories :: bound;
    assert forall i :: 0 <= i < |weights| ==> CountFor(uniform, weights[i].category) == bound;
    WeightedSumMonotone(counts, uniform, weights);
    WeightedSumUniform(uniform, weights, bound);
  }

  /** With non-negative weights, the score never exceeds the largest weighted count. */
  lemma ScoreAtMostBound(counts: map<Category, nat>, weights: Weights, bound: nat)
    requires NonNegativeWeights(weights)
    requires forall i :: 0 <= i < |weights| ==> CountFor(counts, weights[i].category) <= bound
    ensures Score(counts, weights) <= bound as real
  {
    WeightedSumBounded(counts, weights, bound);
    SumsNonNegative(counts, weights);
    var total := TotalWeight(weights);
    if total != 0.0 {
      QuotientBound(Score(counts, weights), total, WeightedSum(counts, weights), bound as real);
    }
  }

  lemma QuotientBound(q: real, total: real, sum: real, bound: real)
    requires total > 0.0 && q * total == sum && sum <= bound * total
    ensures q <= bound
  {
    assert (bound - q) * total == bound * total - sum;
  }

  lemma {:induction false} WeightedSumUniform(counts: map<Category, nat>, weights: Weights, k: nat)
    requires forall i :: 0 <= i < |weights| ==> CountFor(counts, weights[i].category) == k
    ensures WeightedSum(counts, weights) == k as real * TotalWeight(weights)
  {
    if |weights| > 0 {
      var init := weights[..|weights| - 1];
      assert forall i :: 0 <= i < |init| ==> init[i] == weights[i];
      WeightedSumUniform(counts, init, k);
    }
  }

  /** The score is a mean: when every weighted category has the same count, the score is that count. */
  lemma ScoreOfUniformCounts(counts: map<Category, nat>, weights: Weights, k: nat)
    requires forall i :: 0 <= i < |weights| ==> CountFor(counts, weights[i].category) == k
    requires TotalWeight(weights) != 0.0
    ensures Score(counts, weights) == k as real
  {
    WeightedSumUniform(counts, weights, k);
  }
}
