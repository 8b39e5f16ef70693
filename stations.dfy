/** The `/stations` router (app/routers/stations.py). Each handler receives
    the database session as its `db` argument. */
module StationsRouter {
  import opened Wrappers
  import opened Models

  /** `POST /stations/`: adds a station unless its code is taken. */
  method CreateStation(db: Database, name: string, code: string) returns (r: Result<Station>)
    requires db.Valid()
    modifies db
    ensures db.Valid()
    ensures r.Err? <==> exists s :: s in old(db.stations) && s.code == code
    ensures r.Err? ==> r.error == HttpError(400, "Station with this code already exists")
                       && db.stations == old(db.stations)
    ensures r.Ok? ==> r.value == Station(NextId(old(db.stations), StationId), name, code)
                      && db.stations == old(db.stations) + [r.value]
    ensures db.trains == old(db.trains) && db.routes == old(db.routes)
    ensures db.trips == old(db.trips) && db.tickets == old(db.tickets)
  {
    var existing := First(db.stations, (s: Station) => s.code == code);
    if existing.Some? {
      return Err(HttpError(400, "Station with this code already exists"));
    }
    var station := Station(NextId(db.stations, StationId), name, code);
    AppendKeepsIdsAscending(db.stations, StationId, station);
    db.stations := db.stations + [station];
    r := Ok(station);
  }

  /** `GET /stations/`: every stored station, in key order. */
  function ListStations(db: Database): (r: seq<Station>)
    reads db
    requires db.Valid()
    ensures |r| == |db.stations| && forall s :: s in r <==> s in db.stations
    ensures IdsAscending(r, StationId)
  {
    db.stations
  }

  /** `GET /stations/{station_id}`: the station with that key, or 404. */
  function GetStation(db: Database, stationId: int): (r: Result<Station>)
    reads db
    ensures r.Ok? <==> exists s :: s in db.stations && s.id == stationId
    ensures r.Ok? ==> r.value in db.stations && r.value.id == stationId
    ensures r.Err? ==> r.error == HttpError(404, "Station not found")
  {
    match First(db.stations, (s: Station) => s.id == stationId)
    case Some(s) => Ok(s)
    case None => Err(HttpError(404, "Station not found"))
  }

  /** Whether some route starts or ends at the station. */
  predicate Referenced(routes: seq<Route>, stationId: int) {
    exists r :: r in routes && (r.startStationId == stationId || r.endStationId == stationId)
  }

  /** The position of the row with key `stationId` in a table that holds one. */
  function IndexOfStation(stations: seq<Station>, stationId: int): (k: int)
    requires exists s :: s in stations && s.id == stationId
    ensures 0 <= k < |stations| && stations[k].id == stationId
  {
    if stations[0].id == stationId then 0
    else
      assert exists s :: s in stations[1..] && s.id == stationId;
      1 + IndexOfStation(stations[1..], stationId)
  }

  /** `DELETE /stations/{station_id}`: 404 for an unknown key. Deleting a
      station that a route still names fails: SQLAlchemy's default one-to-many
      handling sets the routes' NOT NULL station columns to NULL at flush,
      the database refuses, and the unhandled IntegrityError is a 500 with
      nothing committed. Otherwise exactly that row is removed. */
  method DeleteStation(db: Database, stationId: int) returns (r: Result<string>)
    requires db.Valid()
    modifies db
    ensures db.Valid()
    ensures r.Err? <==> (forall s :: s in old(db.stations) ==> s.id != stationId)
                        || Referenced(db.routes, stationId)
    ensures (forall s :: s in old(db.stations) ==> s.id != stationId) ==>
              r == Err(HttpError(404, "Station not found"))
    ensures (exists s :: s in old(db.stations) && s.id == stationId) && Referenced(db.routes, stationId) ==>
              r == Err(HttpError(500, "Internal Server Error"))
    ensures r.Err? ==> db.stations == old(db.stations)
    ensures r.Ok? ==> r.value == "Station deleted"
                      && exists k :: 0 <= k < |old(db.stations)| && old(db.stations)[k].id == stationId
                                     && db.stations == old(db.stations)[..k] + old(db.stations)[k + 1..]
    ensures db.trains == old(db.trains) && db.routes == old(db.routes)
    ensures db.trips == old(db.trips) && db.tickets == old(db.tickets)
  {
    var station := First(db.stations, (s: Station) => s.id == stationId);
    if station.None? {
      return Err(HttpError(404, "Station not found"));
    }
    if First(db.routes, (rt: Route) => rt.startStationId == stationId || rt.endStationId == stationId).Some? {
      return Err(HttpError(500, "Internal Server Error"));
    }
    var k := IndexOfStation(db.stations, stationId);
    RemovalKeepsStationInvariants(db.stations, k);
    db.stations := db.stations[..k] + db.stations[k + 1..];
    r := Ok("Station deleted");
  }

  /** Removing one row keeps the keys ascending and the codes distinct. */
  lemma RemovalKeepsStationInvariants(stations: seq<Station>, k: int)
    requires IdsAscending(stations, StationId) && CodesDistinct(stations)
    requires 0 <= k < |stations|
    ensures IdsAscending(stations[..k] + stations[k + 1..], StationId)
    ensures CodesDistinct(stations[..k] + stations[k + 1..])
  {
    var rest := stations[..k] + stations[k + 1..];
    assert forall i :: 0 <= i < |rest| ==> rest[i] == stations[if i < k then i else i + 1];
  }

  /** After a successful delete no station has the deleted key and every
      other station is still there. */
  lemma DeleteRemovesOnlyThatStation(stations: seq<Station>, k: int, stationId: int)
    requires IdsAscending(stations, StationId)
    requires 0 <= k < |stations| && stations[k].id == stationId
    ensures forall s :: s in stations[..k] + stations[k + 1..] <==> s in stations && s.id != stationId
  {
    var rest := stations[..k] + stations[k + 1..];
    assert |rest| == |stations| - 1;
    assert forall i :: 0 <= i < |rest| ==> rest[i] == stations[if i < k then i else i + 1];
    forall s | s in stations && s.id != stationId
      ensures s in rest
    {
      var i :| 0 <= i < |stations| && stations[i] == s;
      assert rest[if i < k then i else i - 1] == s;
    }
    forall s | s in rest
      ensures s in stations && s.id != stationId
    {
      var i :| 0 <= i < |rest| && rest[i] == s;
      var j := if i < k then i else i + 1;
      assert stations[j] == s && j != k;
      assert StationId(stations[j]) != StationId(stations[k]);
    }
  }
}
