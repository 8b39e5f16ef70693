/** The `/routes` router (app/routers/routes.py). */
module RoutesRouter {
  import opened Wrappers
  import opened Models

  predicate StationExists(stations: seq<Station>, stationId: int) {
    exists s :: s in stations && s.id == stationId
  }

  /** `POST /routes/`: adds a route when both stations exist. Nothing else is
      checked: a route may start and end at the same station, and the same
      pair may be added twice. */
  method CreateRoute(db: Database, startStationId: int, endStationId: int) returns (r: Result<Route>)
    requires db.Valid()
    modifies db
    ensures db.Valid()
    ensures r.Err? <==> !StationExists(db.stations, startStationId) || !StationExists(db.stations, endStationId)
    ensures r.Err? ==> r.error == HttpError(400, "Start or end station does not exist")
                       && db.routes == old(db.routes)
    ensures r.Ok? ==> r.value == Route(NextId(old(db.routes), RouteId), startStationId, endStationId)
                      && db.routes == old(db.routes) + [r.value]
    ensures db.stations == old(db.stations) && db.trains == old(db.trains)
    ensures db.trips == old(db.trips) && db.tickets == old(db.tickets)
  {
    var startStation := First(db.stations, (s: Station) => s.id == startStationId);
    var endStation := First(db.stations, (s: Station) => s.id == endStationId);
    if startStation.None? || endStation.None? {
      return Err(HttpError(400, "Start or end station does not exist"));
    }
    var route := Route(NextId(db.routes, RouteId), startStationId, endStationId);
    AppendKeepsIdsAscending(db.routes, RouteId, route);
    db.routes := db.routes + [route];
    r := Ok(route);
  }

  /** `GET /routes/`: every stored route, in key order. */
  function ListRoutes(db: Database): (r: seq<Route>)
    reads db
    requires db.Valid()
    ensures |r| == |db.routes| && forall rt :: rt in r <==> rt in db.routes
    ensures IdsAscending(r, RouteId)
  {
    db.routes
  }
}
