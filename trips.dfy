/** The `/trips` router (app/routers/trips.py). */
module TripsRouter {
  import opened Wrappers
  import opened Gregorian
  import opened IsoDate
  import opened SortedStrings
  import opened Models

  /** The request body of `POST /trips/`; pydantic has already read both
      datetimes. */
  datatype TripCreate = TripCreate(routeId: int, trainId: int, departureTime: DateTime,
                                   arrivalTime: DateTime, basePrice: int)

  predicate RouteExists(routes: seq<Route>, routeId: int) {
    exists r :: r in routes && r.id == routeId
  }

  predicate TrainExists(trains: seq<Train>, trainId: int) {
    exists t :: t in trains && t.id == trainId
  }

  /** `POST /trips/`: adds a trip when its route and train exist and it
      arrives strictly after it departs. */
  method CreateTrip(db: Database, trip: TripCreate) returns (r: Result<Trip>)
    requires db.Valid()
    requires ValidDateTime(trip.departureTime) && ValidDateTime(trip.arrivalTime)
    modifies db
    ensures db.Valid()
    ensures !RouteExists(db.routes, trip.routeId) || !TrainExists(db.trains, trip.trainId) ==>
              r == Err(HttpError(400, "Route or train does not exist"))
    ensures RouteExists(db.routes, trip.routeId) && TrainExists(db.trains, trip.trainId)
            && AtOrBefore(trip.arrivalTime, trip.departureTime) ==>
              r == Err(HttpError(400, "Arrival time must be after departure time"))
    ensures r.Ok? <==> RouteExists(db.routes, trip.routeId) && TrainExists(db.trains, trip.trainId)
                       && Before(trip.departureTime, trip.arrivalTime)
    ensures r.Err? ==> db.trips == old(db.trips)
    ensures r.Ok? ==> r.value == Trip(NextId(old(db.trips), TripId), trip.routeId, trip.trainId,
                                      trip.departureTime, trip.arrivalTime, trip.basePrice)
                      && db.trips == old(db.trips) + [r.value]
    ensures db.stations == old(db.stations) && db.trains == old(db.trains)
    ensures db.routes == old(db.routes) && db.tickets == old(db.tickets)
  {
    var route := First(db.routes, (rt: Route) => rt.id == trip.routeId);
    var train := First(db.trains, (t: Train) => t.id == trip.trainId);
    if route.None? || train.None? {
      return Err(HttpError(400, "Route or train does not exist"));
    }
    NotAtOrBefore(trip.arrivalTime, trip.departureTime);
    if AtOrBefore(trip.arrivalTime, trip.departureTime) {
      return Err(HttpError(400, "Arrival time must be after departure time"));
    }
    var dbTrip := Trip(NextId(db.trips, TripId), trip.routeId, trip.trainId,
                       trip.departureTime, trip.arrivalTime, trip.basePrice);
    AppendKeepsIdsAscending(db.trips, TripId, dbTrip);
    AppendKeepsTripsTimed(db.trips, dbTrip);
    db.trips := db.trips + [dbTrip];
    r := Ok(dbTrip);
  }

  /** A trip that arrives after it departs can join a table of such trips. */
  lemma AppendKeepsTripsTimed(trips: seq<Trip>, t: Trip)
    requires TripsTimed(trips)
    requires ValidDateTime(t.departureTime) && ValidDateTime(t.arrivalTime) && Before(t.departureTime, t.arrivalTime)
    ensures TripsTimed(trips + [t])
  {
    assert forall i :: 0 <= i < |trips| ==> (trips + [t])[i] == trips[i];
  }

  /** The route row a trip joins with (`query.join(models.Route)`), if any. */
  function JoinedRoute(routes: seq<Route>, t: Trip): Option<Route> {
    First(routes, (rt: Route) => rt.id == t.routeId)
  }

  /** The station conditions of `list_trips`: with neither station given,
      every trip; otherwise the trip must join a route whose start and end
      stations are the given ones. */
  predicate OnStations(routes: seq<Route>, t: Trip, startStationId: Option<int>, endStationId: Option<int>) {
    (startStationId.None? && endStationId.None?)
    || (JoinedRoute(routes, t).Some?
        && (startStationId.Some? ==> JoinedRoute(routes, t).value.startStationId == startStationId.value)
        && (endStationId.Some? ==> JoinedRoute(routes, t).value.endStationId == endStationId.value))
  }

  /** `start_dt <= departure_time < end_dt`, from midnight of `day` to
      midnight of the next day. */
  predicate InDayWindow(departure: DateTime, day: Date)
    requires ValidDate(day)
  {
    AtOrBefore(DateTime(day, 0), departure) && Before(departure, DateTime(NextDay(day), 0))
  }

  predicate TripMatches(routes: seq<Route>, t: Trip, startStationId: Option<int>,
                        endStationId: Option<int>, travelDate: Option<Date>)
    requires travelDate.Some? ==> ValidDate(travelDate.value)
  {
    OnStations(routes, t, startStationId, endStationId)
    && (travelDate.Some? ==> InDayWindow(t.departureTime, travelDate.value))
  }

  /** The trips `list_trips` answers with: those meeting every given
      condition, in table order. */
  function MatchingTrips(trips: seq<Trip>, routes: seq<Route>, startStationId: Option<int>,
                         endStationId: Option<int>, travelDate: Option<Date>): (r: seq<Trip>)
    requires travelDate.Some? ==> ValidDate(travelDate.value)
    ensures forall t :: t in r <==> t in trips && TripMatches(routes, t, startStationId, endStationId, travelDate)
    ensures TripsTimed(trips) ==> TripsTimed(r)
    ensures IdsAscending(trips, TripId) ==> IdsAscending(r, TripId)
  {
    var matches := (t: Trip) => TripMatches(routes, t, startStationId, endStationId, travelDate);
    var r := Filter(trips, matches);
    assert IdsAscending(trips, TripId) ==> IdsAscending(r, TripId) by {
      if IdsAscending(trips, TripId) {
        FilterKeepsIdsAscending(trips, TripId, matches);
      }
    }
    assert TripsTimed(trips) ==> TripsTimed(r) by {
      if TripsTimed(trips) {
        forall i | 0 <= i < |r|
          ensures ValidDateTime(r[i].departureTime) && ValidDateTime(r[i].arrivalTime)
                  && Before(r[i].departureTime, r[i].arrivalTime)
        {
          assert r[i] in r;
          var j :| 0 <= j < |trips| && trips[j] == r[i];
        }
      }
    }
    r
  }

  /** `GET /trips/`: narrows the query one optional parameter at a time.
      For travel_date 9999-12-31 the end of the day window is past
      `datetime.max`; the OverflowError is a 500. */
  method ListTrips(db: Database, startStationId: Option<int>, endStationId: Option<int>,
                   travelDate: Option<Date>) returns (r: Result<seq<Trip>>)
    requires db.Valid()
    requires travelDate.Some? ==> ValidDate(travelDate.value) && 1 <= travelDate.value.year <= 9999
    ensures r.Err? <==> travelDate == Some(Date(9999, 12, 31))
    ensures r.Err? ==> r.error == HttpError(500, "Internal Server Error")
    ensures r.Ok? ==> r.value == MatchingTrips(db.trips, db.routes, startStationId, endStationId, travelDate)
    ensures r.Ok? ==> IdsAscending(r.value, TripId)
  {
    var routes := db.routes;
    var query := db.trips;
    ghost var kept: Trip -> bool := (t: Trip) => true;
    FilterAll(query, kept);
    if startStationId.Some? || endStationId.Some? {
      var joined := (t: Trip) => JoinedRoute(routes, t).Some?;
      FilterTwice(db.trips, kept, joined, joined);
      query, kept := Filter(query, joined), joined;
      if startStationId.Some? {
        var fromStart := (t: Trip) => JoinedRoute(routes, t).Some?
                                      && JoinedRoute(routes, t).value.startStationId == startStationId.value;
        ghost var both := (t: Trip) => kept(t) && fromStart(t);
        FilterTwice(db.trips, kept, fromStart, both);
        query, kept := Filter(query, fromStart), both;
      }
      if endStationId.Some? {
        var toEnd := (t: Trip) => JoinedRoute(routes, t).Some?
                                  && JoinedRoute(routes, t).value.endStationId == endStationId.value;
        ghost var both := (t: Trip) => kept(t) && toEnd(t);
        FilterTwice(db.trips, kept, toEnd, both);
        query, kept := Filter(query, toEnd), both;
      }
    }
    if travelDate.Some? {
      var day := travelDate.value;
      if day == Date(9999, 12, 31) {
        return Err(HttpError(500, "Internal Server Error"));
      }
      var startDt := DateTime(day, 0);
      var endDt := DateTime(NextDay(day), 0);
      var inWindow := (t: Trip) => AtOrBefore(startDt, t.departureTime) && Before(t.departureTime, endDt);
      ghost var both := (t: Trip) => kept(t) && inWindow(t);
      FilterTwice(db.trips, kept, inWindow, both);
      query, kept := Filter(query, inWindow), both;
    }
    FilterSame(db.trips, kept, (t: Trip) => TripMatches(routes, t, startStationId, endStationId, travelDate));
    r := Ok(query);
  }

  /** With no query parameters every trip is listed. */
  lemma NoFiltersListAll(trips: seq<Trip>, routes: seq<Route>)
    ensures MatchingTrips(trips, routes, None, None, None) == trips
  {
    FilterAll(trips, (t: Trip) => TripMatches(routes, t, None, None, None));
  }

  /** A listed trip with a station filter runs on a stored route from the
      given start station to the given end station. */
  lemma StationFilterFollowsRoute(trips: seq<Trip>, routes: seq<Route>, startStationId: Option<int>,
                                  endStationId: Option<int>, travelDate: Option<Date>, t: Trip)
    requires travelDate.Some? ==> ValidDate(travelDate.value)
    requires t in MatchingTrips(trips, routes, startStationId, endStationId, travelDate)
    requires startStationId.Some? || endStationId.Some?
    ensures exists rt :: rt in routes && rt.id == t.routeId
                         && (startStationId.Some? ==> rt.startStationId == startStationId.value)
                         && (endStationId.Some? ==> rt.endStationId == endStationId.value)
  {
    var rt := JoinedRoute(routes, t).value;
    assert rt in routes;
  }

  /** Conversely, a stored trip whose route runs from the given start station
      to the given end station is listed for them. */
  lemma RouteMeansListed(trips: seq<Trip>, routes: seq<Route>, startStationId: Option<int>,
                         endStationId: Option<int>, t: Trip, rt: Route)
    requires IdsAscending(routes, RouteId)
    requires t in trips && rt in routes && rt.id == t.routeId
    requires startStationId.Some? ==> rt.startStationId == startStationId.value
    requires endStationId.Some? ==> rt.endStationId == endStationId.value
    ensures t in MatchingTrips(trips, routes, startStationId, endStationId, None)
  {
    var joined := JoinedRoute(routes, t);
    assert joined.Some? by {
      var k :| 0 <= k < |routes| && routes[k] == rt;
    }
    var i :| 0 <= i < |routes| && routes[i] == joined.value;
    var k :| 0 <= k < |routes| && routes[k] == rt;
    assert RouteId(routes[i]) == RouteId(routes[k]);
    assert joined.value == rt;
  }

  /** The day window is the departure's calendar day: a trip is listed for
      `travel_date` exactly when it departs on that date. */
  lemma DayWindowIsDepartureDay(departure: DateTime, day: Date)
    requires ValidDateTime(departure) && ValidDate(day)
    ensures InDayWindow(departure, day) <==> departure.date == day
  {
    NextDayIsSuccessor(day, departure.date);
  }

  /** The departure dates of the given trips as `date().isoformat()` text:
      each text reads back as its trip's departure date. */
  function DepartureDates(trips: seq<Trip>): (dates: seq<string>)
    requires forall i :: 0 <= i < |trips| ==> ValidDateTime(trips[i].departureTime)
    ensures |dates| == |trips|
    ensures forall i :: 0 <= i < |trips| ==>
      ValidDateTime(trips[i].departureTime) && dates[i] == FormatDate(trips[i].departureTime.date)
    ensures forall i :: 0 <= i < |trips| ==> ParseFullDate(dates[i]) == Some(trips[i].departureTime.date)
  {
    var dates := seq(|trips|, i requires 0 <= i < |trips| && ValidDateTime(trips[i].departureTime) =>
                   FormatDate(trips[i].departureTime.date));
    assert forall i :: 0 <= i < |trips| ==> ParseFullDate(dates[i]) == Some(trips[i].departureTime.date) by {
      forall i | 0 <= i < |trips|
        ensures ParseFullDate(dates[i]) == Some(trips[i].departureTime.date)
      {
        ParseFormat(trips[i].departureTime.date);
      }
    }
    dates
  }

  /** Some stored trip on a route from `startStationId` to `endStationId`
      departs on the day written `x`. */
  predicate RunsOn(trips: seq<Trip>, routes: seq<Route>, startStationId: int, endStationId: int, x: string) {
    exists t :: t in trips && ValidDateTime(t.departureTime)
                && OnStations(routes, t, Some(startStationId), Some(endStationId))
                && x == FormatDate(t.departureTime.date)
  }

  /** Each departure date of a trip on the route is a day on which the
      route runs. */
  lemma DepartureDateRuns(trips: seq<Trip>, routes: seq<Route>, startStationId: int, endStationId: int, x: string)
    requires TripsTimed(trips)
    requires x in DepartureDates(MatchingTrips(trips, routes, Some(startStationId), Some(endStationId), None))
    ensures RunsOn(trips, routes, startStationId, endStationId, x)
  {
    var m := MatchingTrips(trips, routes, Some(startStationId), Some(endStationId), None);
    var i :| 0 <= i < |m| && DepartureDates(m)[i] == x;
    assert m[i] in m;
  }

  /** Each day on which the route runs is among the departure dates of the
      trips on the route, and its text is a valid date. */
  lemma RunningDayIsDepartureDate(trips: seq<Trip>, routes: seq<Route>, startStationId: int, endStationId: int, x: string)
    requires TripsTimed(trips)
    requires RunsOn(trips, routes, startStationId, endStationId, x)
    ensures x in DepartureDates(MatchingTrips(trips, routes, Some(startStationId), Some(endStationId), None))
    ensures ParseFullDate(x).Some?
  {
    var m := MatchingTrips(trips, routes, Some(startStationId), Some(endStationId), None);
    var t :| t in trips && ValidDateTime(t.departureTime)
             && OnStations(routes, t, Some(startStationId), Some(endStationId))
             && x == FormatDate(t.departureTime.date);
    assert t in m;
    var i :| 0 <= i < |m| && m[i] == t;
    assert DepartureDates(m)[i] == x;
    ParseFormat(t.departureTime.date);
  }

  /** `GET /trips/available-dates`: the days on which some trip runs on a
      route from the start station to the end station, as sorted distinct
      `YYYY-MM-DD` text. */
  function GetAvailableDates(db: Database, startStationId: int, endStationId: int): (dates: seq<string>)
    reads db
    requires db.Valid()
    ensures StrictlySorted(dates)
    ensures forall x :: x in dates <==> RunsOn(db.trips, db.routes, startStationId, endStationId, x)
    ensures forall x :: x in dates ==> ParseFullDate(x).Some?
  {
    var trips := MatchingTrips(db.trips, db.routes, Some(startStationId), Some(endStationId), None);
    assert forall x :: x in DepartureDates(trips) <==> RunsOn(db.trips, db.routes, startStationId, endStationId, x) by {
      forall x ensures x in DepartureDates(trips) <==> RunsOn(db.trips, db.routes, startStationId, endStationId, x) {
        if x in DepartureDates(trips) {
          DepartureDateRuns(db.trips, db.routes, startStationId, endStationId, x);
        }
        if RunsOn(db.trips, db.routes, startStationId, endStationId, x) {
          RunningDayIsDepartureDate(db.trips, db.routes, startStationId, endStationId, x);
        }
      }
    }
    assert forall x :: x in DepartureDates(trips) ==> ParseFullDate(x).Some? by {
      forall x | x in DepartureDates(trips) ensures ParseFullDate(x).Some? {
        DepartureDateRuns(db.trips, db.routes, startStationId, endStationId, x);
        RunningDayIsDepartureDate(db.trips, db.routes, startStationId, endStationId, x);
      }
    }
    if |trips| == 0 then [] else SortedDistinct(DepartureDates(trips))
  }

  /** There are no dates exactly when no trip runs on a route between the
      two stations. */
  lemma NoTripsNoDates(db: Database, startStationId: int, endStationId: int)
    requires db.Valid()
    ensures GetAvailableDates(db, startStationId, endStationId) == []
            <==> forall t :: t in db.trips ==> !OnStations(db.routes, t, Some(startStationId), Some(endStationId))
  {
    var dates := GetAvailableDates(db, startStationId, endStationId);
    HeadIsElement(dates);
    if t :| t in db.trips && OnStations(db.routes, t, Some(startStationId), Some(endStationId)) {
      var i :| 0 <= i < |db.trips| && db.trips[i] == t;
      assert RunsOn(db.trips, db.routes, startStationId, endStationId, FormatDate(t.departureTime.date));
    }
  }
}
