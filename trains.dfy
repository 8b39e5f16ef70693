/** The `/trains` router (app/routers/trains.py). */
module TrainsRouter {
  import opened Wrappers
  import opened Models

  /** `POST /trains/`: adds a train unless its number is taken; the name may be absent. */
  method CreateTrain(db: Database, number: string, name: Option<string>) returns (r: Result<Train>)
    requires db.Valid()
    modifies db
    ensures db.Valid()
    ensures r.Err? <==> exists t :: t in old(db.trains) && t.number == number
    ensures r.Err? ==> r.error == HttpError(400, "Train with this number already exists")
                       && db.trains == old(db.trains)
    ensures r.Ok? ==> r.value == Train(NextId(old(db.trains), TrainId), number, name)
                      && db.trains == old(db.trains) + [r.value]
    ensures db.stations == old(db.stations) && db.routes == old(db.routes)
    ensures db.trips == old(db.trips) && db.tickets == old(db.tickets)
  {
    var existing := First(db.trains, (t: Train) => t.number == number);
    if existing.Some? {
      return Err(HttpError(400, "Train with this number already exists"));
    }
    var train := Train(NextId(db.trains, TrainId), number, name);
    AppendKeepsIdsAscending(db.trains, TrainId, train);
    db.trains := db.trains + [train];
    r := Ok(train);
  }

  /** `GET /trains/`: every stored train, in key order. */
  function ListTrains(db: Database): (r: seq<Train>)
    reads db
    requires db.Valid()
    ensures |r| == |db.trains| && forall t :: t in r <==> t in db.trains
    ensures IdsAscending(r, TrainId) && NumbersDistinct(r)
  {
    db.trains
  }
}
