/**
 * The read-only transit dataset the engine is built from: stops, scheduled
 * stop visits (stop-time records) with their trip, the trip-to-route lookup,
 * and the points of interest.
 */
module Transit {
  import opened Wrappers

  type StopId = string
  type TripId = string
  type RouteId = string
  type Category = string

  datatype Stop = Stop(stopId: StopId, stopName: string, latitude: real, longitude: real)

  /** One scheduled visit; the times are already minutes since midnight. */
  datatype StopTime = StopTime(
    tripId: TripId,
    stopSequence: int,
    arrivalMinutes: real,
    departureMinutes: real,
    stopId: StopId)

  datatype Poi = Poi(poiId: int, name: string, categoryName: Category, latitude: real, longitude: real)

  /** A timetable edge out of some stop; `routeId` is `None` for the source's `null`. */
  datatype Edge = Edge(to: StopId, minutes: real, tripId: TripId, routeId: Option<RouteId>)

  datatype Dataset = Dataset(
    stops: seq<Stop>,
    stopsById: map<StopId, Stop>,
    stopTimes: seq<StopTime>,
    trips: map<TripId, RouteId>,
    pois: seq<Poi>)

  /** Stop identifiers are a key of the stop list. */
  ghost predicate DistinctStopIds(stops: seq<Stop>) {
    forall i, j :: 0 <= i < j < |stops| ==> stops[i].stopId != stops[j].stopId
  }
}
