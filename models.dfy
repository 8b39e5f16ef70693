/** The rows of the five SQLite tables (app/models.py) and the session that
    holds them. Each table is a sequence of rows in rowid order. */
module Models {
  import opened Wrappers
  import opened Gregorian

  /** A naive Python `datetime`: a date and the time of day in microseconds. */
  datatype DateTime = DateTime(date: Date, micros: int)

  const MicrosPerDay: int := 86_400_000_000

  /** A datetime Python can represent: years 1..9999, a real day and time. */
  predicate ValidDateTime(t: DateTime) {
    ValidDate(t.date) && 1 <= t.date.year <= 9999 && 0 <= t.micros < MicrosPerDay
  }

  /** Python's `a < b` on naive datetimes: by date, then by time of day. */
  predicate Before(a: DateTime, b: DateTime) {
    DateLess(a.date, b.date) || (a.date == b.date && a.micros < b.micros)
  }

  /** Python's `a <= b` on naive datetimes. */
  predicate AtOrBefore(a: DateTime, b: DateTime) {
    Before(a, b) || a == b
  }

  /** Datetimes are totally ordered: `not (a <= b)` is `b < a`. */
  lemma NotAtOrBefore(a: DateTime, b: DateTime)
    ensures !AtOrBefore(a, b) <==> Before(b, a)
  {
  }

  datatype Station = Station(id: int, name: string, code: string)

  /** `name` is nullable. */
  datatype Train = Train(id: int, number: string, name: Option<string>)

  datatype Route = Route(id: int, startStationId: int, endStationId: int)

  /** `base_price` is a Float column that the routers only copy; an opaque integer here. */
  datatype Trip = Trip(id: int, routeId: int, trainId: int, departureTime: DateTime,
                       arrivalTime: DateTime, basePrice: int)

  /** `price` is a Float column that the routers only copy; an opaque integer here. */
  datatype Ticket = Ticket(id: int, tripId: int, passengerName: string, seatNumber: string,
                           price: int, status: string, createdAt: DateTime)

  const Paid: string := "paid"

  function StationId(s: Station): int { s.id }
  function TrainId(t: Train): int { t.id }
  function RouteId(r: Route): int { r.id }
  function TripId(t: Trip): int { t.id }
  function TicketId(t: Ticket): int { t.id }

  /** `query.filter(p).first()`: the first row satisfying `p`, if any. */
  function First<T>(rows: seq<T>, p: T -> bool): (r: Option<T>)
    ensures r.Some? <==> exists i :: 0 <= i < |rows| && p(rows[i])
    ensures r.Some? ==> exists i :: 0 <= i < |rows| && rows[i] == r.value && p(rows[i])
                                    && forall j :: 0 <= j < i ==> !p(rows[j])
  {
    if |rows| == 0 then None
    else if p(rows[0]) then Some(rows[0])
    else
      var r := First(rows[1..], p);
      assert r.Some? ==> exists i :: 1 <= i < |rows| && rows[i] == r.value && p(rows[i])
                                     && forall j :: 0 <= j < i ==> !p(rows[j]) by {
        if r.Some? {
          var i :| 0 <= i < |rows| - 1 && rows[1..][i] == r.value && p(rows[1..][i])
                   && forall j :: 0 <= j < i ==> !p(rows[1..][j]);
          assert forall j :: 1 <= j < i + 1 ==> rows[j] == rows[1..][j - 1];
        }
      }
      r
  }

  /** `query.filter(p)`: the rows satisfying `p`, in table order. */
  function Filter<T(!new)>(rows: seq<T>, p: T -> bool): (r: seq<T>)
    ensures forall x :: x in r <==> x in rows && p(x)
    ensures |r| <= |rows|
  {
    if |rows| == 0 then []
    else (if p(rows[0]) then [rows[0]] else []) + Filter(rows[1..], p)
  }

  /** Filtering twice keeps the rows that pass both filters. */
  lemma {:induction false} FilterTwice<T(!new)>(rows: seq<T>, p: T -> bool, q: T -> bool, pq: T -> bool)
    requires forall x :: pq(x) == (p(x) && q(x))
    ensures Filter(Filter(rows, p), q) == Filter(rows, pq)
  {
    if |rows| > 0 {
      FilterTwice(rows[1..], p, q, pq);
      var once := Filter(rows, p);
      if p(rows[0]) {
        assert once == [rows[0]] + Filter(rows[1..], p);
        assert once[0] == rows[0] && once[1..] == Filter(rows[1..], p);
        assert Filter(once, q) == (if q(rows[0]) then [rows[0]] else []) + Filter(once[1..], q);
      } else {
        assert once == Filter(rows[1..], p);
      }
    }
  }

  /** Filters that agree on every row give the same rows. */
  lemma {:induction false} FilterSame<T(!new)>(rows: seq<T>, p: T -> bool, q: T -> bool)
    requires forall x :: p(x) == q(x)
    ensures Filter(rows, p) == Filter(rows, q)
  {
    if |rows| > 0 {
      FilterSame(rows[1..], p, q);
    }
  }

  /** A filter every row passes keeps the whole table. */
  lemma {:induction false} FilterAll<T(!new)>(rows: seq<T>, p: T -> bool)
    requires forall x :: p(x)
    ensures Filter(rows, p) == rows
  {
    if |rows| > 0 {
      FilterAll(rows[1..], p);
      assert rows == [rows[0]] + rows[1..];
    }
  }

  /** The primary keys of a table, in rowid order, strictly increase. */
  predicate IdsAscending<T>(rows: seq<T>, id: T -> int) {
    forall i, j :: 0 <= i < j < |rows| ==> id(rows[i]) < id(rows[j])
  }

  /** The key SQLite gives a new row of an INTEGER PRIMARY KEY table: one more
      than the largest key present, or 1 in an empty table. */
  function NextId<T>(rows: seq<T>, id: T -> int): (n: int)
    requires IdsAscending(rows, id)
    ensures forall r :: r in rows ==> id(r) < n
    ensures rows == [] ==> n == 1
  {
    if |rows| == 0 then 1 else id(rows[|rows| - 1]) + 1
  }

  /** Filtering a table keeps its rows in key order. With membership this
      fixes the result completely: the passing rows, each once, in table order. */
  lemma {:induction false} FilterKeepsIdsAscending<T(!new)>(rows: seq<T>, id: T -> int, p: T -> bool)
    requires IdsAscending(rows, id)
    ensures IdsAscending(Filter(rows, p), id)
  {
    if |rows| > 0 {
      FilterKeepsIdsAscending(rows[1..], id, p);
      var rest := Filter(rows[1..], p);
      forall x | x in rest
        ensures id(rows[0]) < id(x)
      {
        var j :| 0 <= j < |rows| - 1 && rows[1..][j] == x;
        assert rows[j + 1] == x;
      }
    }
  }

  /** A row keyed NextId can be appended without breaking the key order. */
  lemma AppendKeepsIdsAscending<T>(rows: seq<T>, id: T -> int, x: T)
    requires IdsAscending(rows, id) && id(x) == NextId(rows, id)
    ensures IdsAscending(rows + [x], id)
  {
  }

  /** No two stations share a code (the `unique=True` column). */
  predicate CodesDistinct(stations: seq<Station>) {
    forall i, j :: 0 <= i < j < |stations| ==> stations[i].code != stations[j].code
  }

  /** No two trains share a number (the `unique=True` column). */
  predicate NumbersDistinct(trains: seq<Train>) {
    forall i, j :: 0 <= i < j < |trains| ==> trains[i].number != trains[j].number
  }

  /** Every stored trip departs at a valid datetime and arrives strictly later. */
  predicate TripsTimed(trips: seq<Trip>) {
    forall i :: 0 <= i < |trips| ==>
      ValidDateTime(trips[i].departureTime) && ValidDateTime(trips[i].arrivalTime)
      && Before(trips[i].departureTime, trips[i].arrivalTime)
  }

  /** At most one paid ticket holds each seat of each trip. */
  predicate OnePaidTicketPerSeat(tickets: seq<Ticket>) {
    forall i, j :: 0 <= i < j < |tickets| && tickets[i].status == Paid && tickets[j].status == Paid ==>
      tickets[i].tripId != tickets[j].tripId || tickets[i].seatNumber != tickets[j].seatNumber
  }

  /** The database the routers share through their session. */
  class Database {
    var stations: seq<Station>
    var trains: seq<Train>
    var routes: seq<Route>
    var trips: seq<Trip>
    var tickets: seq<Ticket>

    /** What the routers keep true of the tables. */
    ghost predicate Valid()
      reads this
    {
      IdsAscending(stations, StationId) && IdsAscending(trains, TrainId)
      && IdsAscending(routes, RouteId) && IdsAscending(trips, TripId)
      && IdsAscending(tickets, TicketId)
      && CodesDistinct(stations) && NumbersDistinct(trains)
      && TripsTimed(trips) && OnePaidTicketPerSeat(tickets)
    }

    /** `Base.metadata.create_all`: five empty tables. */
    constructor ()
      ensures Valid()
      ensures stations == [] && trains == [] && routes == [] && trips == [] && tickets == []
    {
      stations, trains, routes, trips, tickets := [], [], [], [], [];
    }
  }
}
