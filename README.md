# TransitScope isochrone engine, modelled in Dafny

TransitScope answers one question: which stops and points of interest can be
reached from a point within N minutes, by walking and riding scheduled
transit? It also scores the reachable points of interest by category. This
project models the engine that answers that question, together with the two
helper modules the engine relies on.

- **Timetable graph** (`timetable.dfy`, `Engine.IsochroneEngine.BuildAdjacency`).
  - Stop-time records are grouped by trip, in the order trips first appear.
  - Each group is sorted by stop sequence, stably.
  - Each consecutive pair of records in a group gives one edge. The edge leaves the first record's stop and runs to the second's.
  - An edge takes `max(0.5, arrival - departure)` minutes and is tagged with its trip and that trip's route.
  - The class builds the graph once, in its constructor, with loops that mirror the source's `forEach`/`for` loops and `Map` updates.
  - The loops are proved equal to a functional specification of the graph.
- **Bounded search** (`search.dfy`, `Engine.IsochroneEngine.RunDijkstra`).
  - The search starts from the 8 stops nearest the origin, taking only those whose walk fits both 18 minutes and the budget.
  - Each round it sorts the frontier list and pops the cheapest entry.
  - It writes a label only when the label strictly improves.
  - The search is proved to terminate. Its result is proved to be exactly the cheapest-journey labelling within the budget: a stop is labelled iff some walk-plus-ride journey reaches it within the budget, and its label is the cost of the best such journey.
  - The `break` on an over-budget entry is proved unreachable, because every frontier entry fits the budget.
- **Points of interest and score** (`isochrone.dfy`, `Engine.IsochroneEngine.ComputeIsochrone`).
  - The budget falls back to 30 minutes when absent or zero.
  - The category filter applies only when the list is non-empty.
  - Labelled stops missing from the stop index are dropped from the report.
  - Each point of interest gets a best time: the direct walk, improved by rides to reached stops followed by a walk.
  - Reported points are counted per category, and the counts go through the weighted mean of `computeScore`.
  - The best-time update keeps the source's test `bestMinutes === 0 || total < bestMinutes` as written. A direct walk of exactly 0 counts as "not set", so the first via-stop total replaces it. `Isochrone.ZeroWalkIsOverridden` and `Isochrone.ZeroWalkExample` state the consequence. A via-stop total of exactly 0 is overridden the same way by the next total (`Isochrone.ZeroTotalIsOverridden`). Neither case is covered by `Isochrone.BestIsMinimum`, which needs positive times.
  - Because of that test (src/isochrone-engine.js:141), the reported points are not monotone in the budget, although the reached stops are (`Engine.IsochroneEngine.BudgetMonotone`). A point at the origin is reported under a budget too small to reach any stop, and dropped under a larger budget once a stop's total replaces its 0-minute walk. `Isochrone.LargerBudgetCanDropPoi` states this.
- **Weight profiles** (`scoring.dfy`): the constant profile table and the precedence custom weights, then named profile, then the balanced profile.
- **Geo helpers** (`geo.dfy`): `walkingMinutes` and the `H:M:S` time parser. Distances are an abstract function; see Left out.

Representation choices:
- Minutes and distances are `real`.
- JavaScript `Map`s become Dafny `map`s plus a sequence that keeps insertion order where the source iterates a map: trip order in the builder, label order in the search.
- The in-place `sort` calls become one stable insertion sort, `Sorting.SortBy`.
- A source `null`/`undefined`/`NaN` becomes `None` of `Wrappers.Option`.

Files: `wrappers.dfy`, `transit.dfy` (the dataset entities), `sorting.dfy`,
`geo.dfy`, `scoring.dfy`, `timetable.dfy`, `search.dfy`, `isochrone.dfy`,
`engine.dfy` (the `IsochroneEngine` class).

## Model

| member | source | states |
|---|---|---|
| Geo.WalkingMinutes | src/geo.js:18-23 | 0 for a distance of at most 0; otherwise the minutes times the speed equal the distance times 60; never negative at a positive speed, and positive for a positive distance and speed |
| Geo.WalkingMinutesMonotone | src/geo.js:18-23 | at a fixed positive speed, a longer distance never takes fewer minutes |
| Geo.WalkingAnHour | src/geo.js:2 | at the default 4.8 km/h, 4.8 km takes exactly 60 minutes |
| Geo.Split | src/geo.js:26 | `split(':')` always yields at least one piece |
| Geo.SplitNoColon | src/geo.js:26 | a string without colons splits into itself alone |
| Geo.SplitAtColon | src/geo.js:26 | splitting `a:b` with no colon in `a` yields `a` followed by the pieces of `b` |
| Geo.NumberOf | src/geo.js:27 | `Number` of a digit string (leading zeros allowed, the empty string giving 0) is its non-negative decimal value; any other string is NaN |
| Geo.NumberOfDigits | src/geo.js:27 | `Number` of the decimal digits of n is n |
| Geo.ParseTimeToMinutes | src/geo.js:25-28 | a time that is not NaN is non-negative |
| Geo.ParseTimeDefined | src/geo.js:25-28 | a time is not NaN exactly when each of its first three colon-separated pieces (those present) is a digit string |
| Geo.ComponentsToMinutes | src/geo.js:26-27 | a result that is not NaN is non-negative; missing second and third pieces read as "0", and any piece that is not a number makes the result NaN (`Geo.ParseTimeDefined`) |
| Geo.ComponentsOfDigits | src/geo.js:26-27 | three or more pieces whose first three are digit strings H, M, S evaluate to H*60 + M + S/60 |
| Geo.ParseTimeFull | src/geo.js:25-28 | "H:M:S" for any digit strings H, M, S (zero padding included) parses to H*60 + M + S/60 |
| Geo.ParseTimeIgnoresExtra | src/geo.js:26 | for digit strings H, M, S, "H:M:S:rest" parses like "H:M:S", whatever `rest` holds |
| Geo.ParseTimeHoursOnly | src/geo.js:26 | a digit string "H" parses to H*60, the missing pieces defaulting to "0" |
| Geo.ParseTimeHoursMinutes | src/geo.js:26 | "H:M" for digit strings H, M parses to H*60 + M |
| Geo.ParseTimePastMidnight | src/geo.js:25-28 | "25:10:00" parses to 1510: hours past 24 are not wrapped |
| Geo.ParseTimePadded | src/geo.js:25-28 | the zero-padded "08:05:30" parses to 485.5 |
| Scoring.ScoringProfiles | src/scoring.js:1-20 | the profile table as data, no contract: ids, names, descriptions and weights copied entry by entry; `Scoring.ProfileIdsDistinct` and `Scoring.ProfileWeightsNormalised` state its properties |
| Scoring.FindProfile | src/scoring.js:26 | `find`: a result is a table profile with the requested id and no earlier profile has that id; no result iff no profile has the id |
| Scoring.ResolveWeights | src/scoring.js:22-31 | non-empty custom weights are returned unchanged; otherwise the result is one of the table's weight sets |
| Scoring.NamedProfileSelected | src/scoring.js:26-29 | without usable custom weights, a table id selects exactly that profile's weights |
| Scoring.UnknownProfileFallsBack | src/scoring.js:30 | without usable custom weights, an unknown or absent id gives the first profile's weights, and that profile is "balanced" |
| Scoring.ProfileIdsDistinct | src/scoring.js:1-20 | the table's ids are pairwise distinct |
| Scoring.ProfileWeightsNormalised | src/scoring.js:1-20 | every table weight is non-negative and each profile's weights sum to 1 |
| Scoring.TotalWeight | src/isochrone-engine.js:90-93 | definition, no contract: the sum of the weight values in entry order, the `totalWeight` accumulation; its properties are stated by `Isochrone.Score`, `Isochrone.ScoreNonNegative` and `Scoring.ProfileWeightsNormalised` |
| Timetable.TravelMinutes | src/isochrone-engine.js:28 | an edge's time is the larger of 0.5 and arrival minus departure: at least both, and equal to one of them |
| Timetable.RouteOf | src/isochrone-engine.js:36 | definition, no contract: `trips.get(tripId) \|\| null`, so an unknown trip and an empty route id both give no route; `Timetable.EdgeOrigin` states that every edge carries it |
| Timetable.TripOrder | src/isochrone-engine.js:16-21 | the trip order lists each trip of the records once, and only those |
| Timetable.Group | src/isochrone-engine.js:16-21 | a trip's group holds only records of that trip |
| Timetable.GroupingStep | src/isochrone-engine.js:16-21 | reading one more record appends its trip to the order when it is new, and appends the record to its trip's group only |
| Timetable.TripArcsShape | src/isochrone-engine.js:25-38 | a trip of k records gives k-1 edges (none for k <= 1), edge i running from record i's stop to record i+1's stop |
| Timetable.AllArcs | src/isochrone-engine.js:23-38 | definition, no contract: the edges of each trip in first-appearance order, trip after trip; `Timetable.EdgeOrigin` and `Timetable.EdgeComplete` state what the resulting graph holds |
| Timetable.Adjacency | src/isochrone-engine.js:12-42 | definition, no contract: each stop with an outgoing edge maps to its edges in emission order; `Timetable.EdgeOrigin` and `Timetable.EdgeComplete` characterise it |
| Timetable.EdgeOrigin | src/isochrone-engine.js:23-38 | every edge of the graph comes from two consecutive sorted records of one trip, with their travel time (at least 0.5), the trip id and the trip's route or none |
| Timetable.EdgeComplete | src/isochrone-engine.js:23-38 | conversely, every two consecutive sorted records of a trip give an edge, with their travel time, the trip id and the route, in the first record's stop's list |
| Timetable.AdjacencyPermutationInvariant | src/isochrone-engine.js:16-24 | permuting the records, with sequence numbers unique within each trip, keeps the stops with edges and the multiset of edges out of each stop |
| Sorting.SortBy | src/isochrone-engine.js:49 | the sort returns a permutation of its input, ordered by the key |
| Sorting.SortByStable | src/isochrone-engine.js:24 | the sort is stable: for every key value, the elements with that key appear in their input order |
| Sorting.SortedPermutationUnique | src/isochrone-engine.js:49 | two sorted permutations of one list with distinct keys are equal |
| Engine.IsochroneEngine.constructor | src/isochrone-engine.js:7-10 | stores the dataset and builds the graph the timetable determines |
| Engine.IsochroneEngine.BuildAdjacency | src/isochrone-engine.js:12-42 | the grouping and edge loops produce exactly the timetable graph |
| Engine.IsochroneEngine.GroupByTrip | src/isochrone-engine.js:16-21 | the grouping loop yields trips in first-appearance order, each with its records in input order |
| Engine.IsochroneEngine.AddTripEdges | src/isochrone-engine.js:25-38 | the edge loop for one trip appends that trip's edges to the graph built so far |
| Engine.NextTripArcs | src/isochrone-engine.js:23-24 | the edges of the first j+1 grouped trips are those of the first j, then trip j's |
| Engine.IsochroneEngine.AdjacencyPositive | src/isochrone-engine.js:28 | every edge of the built graph takes at least 0.5 minutes |
| Engine.IsochroneEngine.Scored | src/isochrone-engine.js:45-48 | one scored entry per stop, in dataset order |
| Engine.IsochroneEngine.NearestStops | src/isochrone-engine.js:44-51 | min(count, number of stops) stops, sorted by distance, drawn from the scored stops, with no omitted stop closer than a returned one |
| Engine.IsochroneEngine.NearestStopsAreStops | src/isochrone-engine.js:45-48 | each returned stop is a dataset stop carrying its own distance from the query point |
| Engine.IsochroneEngine.NearestStopsDistinct | src/isochrone-engine.js:44-51 | with distinct stop ids, the nearest stops have distinct ids |
| Engine.SeedsOf | src/isochrone-engine.js:58-64 | at most one seed per candidate, each with minutes between 0 and both the budget and 18 |
| Engine.SeedsOfMembers | src/isochrone-engine.js:58-64 | the seeds are exactly the candidates whose walk fits 18 minutes and the budget, with that walk |
| Engine.IsochroneEngine.Seeds | src/isochrone-engine.js:57-64 | definition, no contract: the seeds taken from the 8 nearest stops for a budget; `Engine.IsochroneEngine.SeedsAreNearestWalks` and `Engine.SeedsOfMonotone` state its properties |
| Engine.IsochroneEngine.SeedsAreNearestWalks | src/isochrone-engine.js:57-64 | a seed is exactly an admitted walk to one of the 8 nearest stops |
| Engine.IsochroneEngine.SeedFrontier | src/isochrone-engine.js:57-64 | the seeding loop pushes the admitted walks in order and labels each seed stop with its walk |
| Search.SeedMap | src/isochrone-engine.js:62 | every label the seeding writes is some seed's walk, and every seed stop is labelled |
| Search.SeedMapDistinct | src/isochrone-engine.js:62 | with distinct seed stops, each seed stop's label is its own walk |
| Engine.IsochroneEngine.RunDijkstra | src/isochrone-engine.js:53-87 | the labels are within the budget, every seed stop is labelled no worse than its walk, no edge within the budget improves a label on exit, and every label is explained by a seed or an edge from a labelled stop; the key order lists each labelled stop once. That the keys come in the order the labels were first written holds by the body only (the key list grows exactly where a new label is written) and is not stated in this contract |
| Engine.IsochroneEngine.RelaxNeighbours | src/isochrone-engine.js:72-83 | relaxing a popped entry restores the loop invariant, only lowers labels, and either changes nothing or shrinks the termination measure |
| Search.PopStartsRelaxing | src/isochrone-engine.js:67-68 | popping the head of the re-sorted frontier starts a relaxation round in which that entry is within the budget |
| Search.RelaxEdge | src/isochrone-engine.js:74-82 | an edge that fits the budget and strictly improves its target's label keeps the invariant and shrinks the measure; any other edge changes nothing |
| Search.RelaxingDone | src/isochrone-engine.js:72-83 | after all edges of the popped entry, the loop invariant holds again |
| Search.InvariantAtSeeds | src/isochrone-engine.js:57-64 | the seeded labels and frontier satisfy the loop invariant |
| Search.InvariantAtExit | src/isochrone-engine.js:66-86 | with an empty frontier the invariant is the search result |
| Search.Neighbours | src/isochrone-engine.js:72 | definition, no contract: `adjacency.get(stopId) \|\| []`, the empty list for a stop without edges |
| Search.JourneyBound | src/isochrone-engine.js:73-83 | every journey within the budget ends at a labelled stop, and its label is no worse than the journey |
| Search.JourneyWitness | src/isochrone-engine.js:73-83 | every label is at least the cost of some journey to that stop |
| Search.LabelsAreShortest | src/isochrone-engine.js:53-87 | a stop is labelled iff some journey reaches it within the budget, and its label is the cost of a journey no journey within the budget beats |
| Search.ReachableMonotone | src/isochrone-engine.js:53-87 | the equal-seeds case of `Search.ReachableGrowing`: with the same seeds, a larger budget labels every stop a smaller one does, no worse |
| Search.ReachableGrowing | src/isochrone-engine.js:53-87 | with a larger budget and a seed list containing every earlier seed, every stop labelled before is labelled again, no worse |
| Engine.SeedsOfMonotone | src/isochrone-engine.js:60 | a larger budget admits every seed a smaller one admits |
| Engine.IsochroneEngine.BudgetMonotone | src/isochrone-engine.js:53-87 | the search under a larger budget, with the seeds that budget admits, labels every stop the smaller budget's search labels, no later |
| Isochrone.Limit | src/isochrone-engine.js:108 | the budget is the given value, or 30 when absent or 0; never 0 |
| Isochrone.Passes | src/isochrone-engine.js:109 | definition, no contract: the filter built here and tested at line 133 is off when the category list is absent or empty, otherwise a category passes when listed; `Isochrone.AccessibleFromMembers` uses it |
| Isochrone.ReachedRecords | src/isochrone-engine.js:113-126 | no more report entries than labelled keys |
| Isochrone.IndexedKeys | src/isochrone-engine.js:114-118 | no more indexed keys than keys |
| Isochrone.IndexedKeysMembers | src/isochrone-engine.js:114-118 | a key is indexed exactly when it is a labelled key the stop index knows |
| Isochrone.IndexedKeysDistinct | src/isochrone-engine.js:114 | distinct labelled keys give distinct indexed keys |
| Isochrone.ReachedRecordsIndexed | src/isochrone-engine.js:113-126 | the report has exactly one entry per indexed key, in key order: that key's stop record and label |
| Isochrone.ReachedRecordsMembers | src/isochrone-engine.js:113-126 | a report entry is exactly an indexed labelled stop with its label |
| Engine.IsochroneEngine.CollectReachable | src/isochrone-engine.js:113-126 | the loop over the label map reports the indexed labelled stops in key order |
| Engine.IsochroneEngine.ReportedCount | src/isochrone-engine.js:113-128 | the sorted report has as many entries as there are indexed keys |
| Engine.IsochroneEngine.ReportedStops | src/isochrone-engine.js:113-128 | after sorting, the report holds exactly the indexed labelled stops with their labels |
| Isochrone.Totals | src/isochrone-engine.js:138-140 | one via-stop total per reached stop: its label plus the walk from it |
| Isochrone.BestStep | src/isochrone-engine.js:141-143 | one update yields the best time so far or the new total; once the best time is non-zero, the result is no larger than either |
| Isochrone.Best | src/isochrone-engine.js:137-144 | definition, no contract: the best-time update folded over the via-stop totals in report order; `Isochrone.BestIsCandidate`, `Isochrone.BestIsMinimum` and `Isochrone.ZeroWalkIsOverridden` state its properties |
| Isochrone.BestIsCandidate | src/isochrone-engine.js:137-144 | the best time is the direct walk or one via-stop total |
| Isochrone.BestIsMinimum | src/isochrone-engine.js:137-144 | with a positive direct walk and positive totals, the best time is the minimum of all of them |
| Isochrone.ZeroWalkIsOverridden | src/isochrone-engine.js:141 | a direct walk of exactly 0 is discarded: with positive totals, the best time is the smallest total, hence positive |
| Isochrone.ZeroWalkExample | src/isochrone-engine.js:141 | a 0-minute walk and one 12-minute total give 12, while a 3-minute walk gives 3 |
| Isochrone.ZeroTotalIsOverridden | src/isochrone-engine.js:141 | a via-stop total of exactly 0 is replaced by the next total, however large |
| Isochrone.DirectWalk | src/isochrone-engine.js:136 | definition, no contract: the walking minutes for the distance from the origin to the point |
| Isochrone.HopWalk | src/isochrone-engine.js:139 | definition, no contract: the walking minutes for the distance from a reached stop to the point |
| Isochrone.BestMinutes | src/isochrone-engine.js:136-144 | definition, no contract: the best-time fold starting from the direct walk over the via-stop totals; `Isochrone.BestIsCandidate` and `Isochrone.BestIsMinimum` state its properties |
| Engine.IsochroneEngine.BestOver | src/isochrone-engine.js:136-144 | the per-stop loop computes the best time over the reached stops in report order |
| Isochrone.Accessible | src/isochrone-engine.js:133-145 | definition, no contract: a point is reported when it passes the category filter and its best time is within the budget |
| Isochrone.Attached | src/isochrone-engine.js:146-149 | definition, no contract: the reported record is the point with its best time |
| Isochrone.LargerBudgetCanDropPoi | src/isochrone-engine.js:141 | a point at the origin, 0.8 km from a stop, is reported with no stop reached under budget 5, and not reported under budget 15 once that stop is reached at 10 minutes: the reported points are not monotone in the budget |
| Isochrone.AccessibleFrom | src/isochrone-engine.js:132-152 | no more reported points than points |
| Isochrone.AccessibleFromMembers | src/isochrone-engine.js:132-152 | a reported point is exactly a point that passes the filter and whose best time fits the budget, carrying that time |
| Isochrone.AccessibleWithinLimit | src/isochrone-engine.js:133-145 | every reported point passes the filter, fits the budget and is a dataset point |
| Engine.IsochroneEngine.AttachPois | src/isochrone-engine.js:132-152 | the loop reports the accessible points in dataset order and the counts object is their per-category tally |
| Isochrone.CountFor | src/isochrone-engine.js:94 | definition, no contract: `counts[category] \|\| 0`, the count or 0 when absent (also at line 150) |
| Isochrone.CountsOf | src/isochrone-engine.js:150 | definition, no contract: the counts object built one reported point at a time; `Isochrone.CountsOfCounts` states what it counts |
| Isochrone.CountsOfCounts | src/isochrone-engine.js:150 | each category's count is its number of reported points, and only occurring categories have an entry |
| Isochrone.OccurrencesPermutation | src/isochrone-engine.js:154 | sorting the reported points keeps each category's number of entries |
| Engine.IsochroneEngine.ReportedPois | src/isochrone-engine.js:130-154 | after sorting, the list holds exactly the accessible points, each passes the filter and fits the budget, and the counts count the sorted list |
| Isochrone.WeightedSum | src/isochrone-engine.js:91-96 | definition, no contract: the sum over the weight entries, in entry order, of count times weight, a missing count reading as 0; `Isochrone.WeightedSumMonotone` and `Isochrone.ScoreAtMostBound` state its properties |
| Isochrone.Score | src/isochrone-engine.js:89-101 | 0 when the weights sum to 0; otherwise the score times the total weight is the weighted count sum |
| Engine.IsochroneEngine.ComputeScore | src/isochrone-engine.js:89-101 | the accumulation loop computes that score, reading a missing count as 0 |
| Isochrone.ScoreNonNegative | src/isochrone-engine.js:89-101 | with non-negative weights the score is non-negative |
| Isochrone.WeightedSumMonotone | src/isochrone-engine.js:92-96 | with non-negative weights, raising any weighted category's count never lowers the weighted sum |
| Isochrone.ScoreAtMostBound | src/isochrone-engine.js:89-101 | with non-negative weights, the score is at most any bound on the weighted categories' counts |
| Isochrone.ScoreOfUniformCounts | src/isochrone-engine.js:89-101 | the score is a mean: equal counts k on all weighted categories give k |
| Engine.IsochroneEngine.ComputeIsochrone | src/isochrone-engine.js:103-170 | the snapshot holds the budget, the search result for it and its key order, the 5 nearest stops, a permutation (sorted by minutes) of the report of the labelled stops, so one entry per indexed key, exactly the indexed labelled stops, a permutation (sorted by minutes) of the accessible points in dataset order, counts equal to the points per category, the score of those counts, and metadata equal to the list lengths, the stop count being the number of indexed keys |

## Left out

- `haversineKm` (src/geo.js:4-16) is floating-point trigonometry. The engine takes the distance as a function value, and no property of it is assumed.
- Floating-point arithmetic: all minutes, distances and weights are exact reals, so rounding of sums and quotients is not modelled. For example, the table weights sum to exactly 1 here.
- Scoring.ProfileWeightsNormalised: the sum is exact over the reals; IEEE doubles may differ from 1 in the last bit.
- Engine.IsochroneEngine.ComputeIsochrone: reported minutes are the unrounded best times. The source rounds them with `toFixed(1)` and then sorts by the rounded values, so points whose rounded times tie may appear in another order than here.
- Engine.IsochroneEngine.ComputeIsochrone: `Number()` on the request fields is not modelled. Coordinates arrive as reals and the budget as an optional real, with `None` standing for NaN.
- Geo.NumberOf: `Number()` on a time component is modelled only for strings of decimal digits (the empty string gives 0) and gives `None` for anything else. JavaScript also accepts signs, decimals, exponents, hex and surrounding spaces.
- Geo.WalkingMinutes: the default speed argument is an explicit parameter, which every caller sets to 4.8. A speed of 0, which in JavaScript divides to Infinity, is excluded.
- Engine.IsochroneEngine.RunDijkstra: requires distinct stop ids in the dataset's stop list. With a duplicated id, two nearby entries can seed the same stop, and the seeding loop (src/isochrone-engine.js:58-64) lets the later, possibly longer, walk overwrite the earlier label. Both entries are still relaxed, so the labelling stays closed under the edges. What can fail is that a seed stop's label is at most its walk, and with it the claim that every label is a shortest journey.
- Engine.IsochroneEngine.ComputeIsochrone: requires distinct stop ids in the dataset's stop list, because it calls `RunDijkstra`.
- Engine.IsochroneEngine.RunDijkstra: the contract states that `keys` lists each labelled stop once, not that it is the order in which labels were first written (the `Map` iteration order at src/isochrone-engine.js:114). Stating it would need the sequence of label writes as a ghost trace through the seeding and relaxation loops. The order matters only for ties in the sort at src/isochrone-engine.js:128.
- Engine.IsochroneEngine.RunDijkstra: the over-budget `break` (src/isochrone-engine.js:69-71) is proved unreachable instead of being modelled as an exit.
- Stop-time minutes are numbers here. In the source they come from `parseTimeToMinutes`, which gives NaN for a malformed time (`Geo.ParseTimeDefined` says exactly when). `Math.max(0.5, NaN)` at src/isochrone-engine.js:28 is NaN, so such an edge would pass the budget test (`NaN > maxMinutes` is false) and can write a NaN label on an unlabelled stop. The real-valued `StopTime` cannot represent that case.
- Weight objects are sequences of (category, weight) entries in `Object.entries` order. Non-numeric weight values are not modelled.
- The `{ ...stop, distanceKm }` and `{ ...poi, minutes }` spreads become records that wrap the original entity, and the reported stop record wraps the indexed stop.
- Not modelled because they are I/O and orchestration:
  - server.js (HTTP routing, sessions, the database, geocoding)
  - src/data-loader.js (database loading; its centroid average is floating point)
  - src/saved-location-store.js (SQL CRUD)
  - public/js/app.js (the browser UI)
