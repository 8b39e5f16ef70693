/** The `/tickets` router (app/routers/tickets.py). */
module TicketsRouter {
  import opened Wrappers
  import opened Models

  /** The request body of `POST /tickets/`. */
  datatype TicketCreate = TicketCreate(tripId: int, passengerName: string, seatNumber: string, price: int)

  predicate TripExists(trips: seq<Trip>, tripId: int) {
    exists t :: t in trips && t.id == tripId
  }

  /** A paid ticket already holds this seat of this trip. */
  predicate SeatTaken(tickets: seq<Ticket>, tripId: int, seatNumber: string) {
    exists t :: t in tickets && t.tripId == tripId && t.seatNumber == seatNumber && t.status == Paid
  }

  /** `POST /tickets/`: sells the seat when the trip exists and no paid
      ticket holds the seat; the new ticket is paid and stamped `now`, the
      UTC clock reading that `created_at` defaults to. */
  method CreateTicket(db: Database, ticket: TicketCreate, now: DateTime) returns (r: Result<Ticket>)
    requires db.Valid()
    modifies db
    ensures db.Valid()
    ensures !TripExists(db.trips, ticket.tripId) ==> r == Err(HttpError(400, "Trip does not exist"))
    ensures TripExists(db.trips, ticket.tripId) && SeatTaken(old(db.tickets), ticket.tripId, ticket.seatNumber) ==>
              r == Err(HttpError(400, "Seat already booked for this trip"))
    ensures r.Ok? <==> TripExists(db.trips, ticket.tripId) && !SeatTaken(old(db.tickets), ticket.tripId, ticket.seatNumber)
    ensures r.Err? ==> db.tickets == old(db.tickets)
    ensures r.Ok? ==> r.value == Ticket(NextId(old(db.tickets), TicketId), ticket.tripId, ticket.passengerName,
                                        ticket.seatNumber, ticket.price, Paid, now)
                      && db.tickets == old(db.tickets) + [r.value]
    ensures r.Ok? ==> SeatTaken(db.tickets, ticket.tripId, ticket.seatNumber)
    ensures db.stations == old(db.stations) && db.trains == old(db.trains)
    ensures db.routes == old(db.routes) && db.trips == old(db.trips)
  {
    var trip := First(db.trips, (t: Trip) => t.id == ticket.tripId);
    if trip.None? {
      return Err(HttpError(400, "Trip does not exist"));
    }
    var existing := First(db.tickets, (t: Ticket) => t.tripId == ticket.tripId
                                                    && t.seatNumber == ticket.seatNumber && t.status == Paid);
    if existing.Some? {
      return Err(HttpError(400, "Seat already booked for this trip"));
    }
    var dbTicket := Ticket(NextId(db.tickets, TicketId), ticket.tripId, ticket.passengerName,
                           ticket.seatNumber, ticket.price, Paid, now);
    AppendKeepsIdsAscending(db.tickets, TicketId, dbTicket);
    db.tickets := db.tickets + [dbTicket];
    r := Ok(dbTicket);
  }

  /** `GET /tickets/{ticket_id}`: the ticket with that key, or 404. */
  function GetTicket(db: Database, ticketId: int): (r: Result<Ticket>)
    reads db
    ensures r.Ok? <==> exists t :: t in db.tickets && t.id == ticketId
    ensures r.Ok? ==> r.value in db.tickets && r.value.id == ticketId
    ensures r.Err? ==> r.error == HttpError(404, "Ticket not found")
  {
    match First(db.tickets, (t: Ticket) => t.id == ticketId)
    case Some(t) => Ok(t)
    case None => Err(HttpError(404, "Ticket not found"))
  }

  /** A ticket that is not paid (a cancelled one, say) never blocks its seat. */
  lemma UnpaidTicketDoesNotBlock(tickets: seq<Ticket>, unpaid: Ticket, tripId: int, seatNumber: string)
    requires unpaid.status != Paid
    ensures SeatTaken(tickets + [unpaid], tripId, seatNumber) <==> SeatTaken(tickets, tripId, seatNumber)
  {
    if SeatTaken(tickets + [unpaid], tripId, seatNumber) {
      var t :| t in tickets + [unpaid] && t.tripId == tripId && t.seatNumber == seatNumber && t.status == Paid;
      assert t in tickets;
    }
  }

  /** Under the one-paid-ticket-per-seat invariant the paid ticket holding a
      seat is unique. */
  lemma HolderIsUnique(tickets: seq<Ticket>, i: int, j: int)
    requires OnePaidTicketPerSeat(tickets)
    requires 0 <= i < |tickets| && 0 <= j < |tickets|
    requires tickets[i].status == Paid && tickets[j].status == Paid
    requires tickets[i].tripId == tickets[j].tripId && tickets[i].seatNumber == tickets[j].seatNumber
    ensures i == j
  {
  }
}
