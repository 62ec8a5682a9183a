/** The relational schema of the flight service and the rules its models
    enforce: the seat range check of `Ticket.validate_ticket`, the
    `(flight, row, seat)` uniqueness of tickets, what `Ticket.full_clean` runs
    before a ticket is written, the `(row, seat)` listing order, the field
    minimums, and the cascading deletes along Airport -> Route -> Flight ->
    Ticket and Order -> Ticket. The whole database is the value `Db`. */
module Models {
  import opened Common

  /** Primary keys. */
  type Id = nat

  datatype Crew = Crew(firstName: string, lastName: string)

  datatype Airport = Airport(name: string, closesBigCity: string)

  /** `created_at` is left out; `user` is the owning account. */
  datatype Order = Order(user: Id)

  /** `seats` is the number of seats in each row. */
  datatype Airplane = Airplane(name: string, rows: int, seats: int, airplaneType: Id)

  datatype Route = Route(source: Id, destination: Id, distance: int)

  datatype Date = Date(year: int, month: int, day: int)

  datatype DateTime = DateTime(date: Date, secondOfDay: int)

  /** `crew` is the many-to-many relation to Crew. Nothing relates
      `arrival` to `departure`. */
  datatype Flight = Flight(route: Id, airplane: Id, departure: DateTime, arrival: DateTime, crew: set<Id>)

  datatype Ticket = Ticket(row: int, seat: int, flight: Id, order: Id)

  /** The database: one map per table keyed by primary key, the ticket table
      in insertion order, and the supply of fresh primary keys. */
  datatype Db = Db(
    airports: map<Id, Airport>,
    airplanes: map<Id, Airplane>,
    routes: map<Id, Route>,
    crews: map<Id, Crew>,
    flights: map<Id, Flight>,
    orders: map<Id, Order>,
    tickets: seq<Ticket>,
    nextId: Id)

  const EmptyDb := Db(map[], map[], map[], map[], map[], map[], [], 0)

  datatype Table = AirportTable | AirplaneTable | RouteTable | CrewTable | FlightTable | OrderTable

  datatype Field = RowField | SeatField

  /** The content of the message "Row should be in range (1, {bound}), not {value}"
      (or "Seat ..."): which field, its upper bound, and the offending value. */
  datatype RangeError = OutOfRange(field: Field, bound: int, value: int)

  datatype MinField = AirplaneRows | AirplaneSeats | RouteDistance

  /** The `CharField(max_length=255)` columns written through the API. */
  datatype TextField = CrewFirstName | CrewLastName | AirportName | AirportCity | AirplaneName

  /** Why a text value is refused: nothing but whitespace, longer than 255
      characters once stripped, or holding a NUL character. */
  datatype TextProblem = Blank | TooLong | NullCharacter

  /** The validation errors the store and the API report. */
  datatype Error =
    | NotFound(table: Table)
    | InvalidSeat(range: RangeError)
    | AlreadyBooked
    | BelowMinimum(field: MinField)
    | EmptyTicketList
    | InvalidText(text: TextField, problem: TextProblem)
    | EmptyCrewList
    | UserRequired

  // ---------------------------------------------------------------------
  // Field minimums and capacity

  /** `MinValueValidator(1)` on `Airplane.rows` and `Airplane.seats`, rows first. */
  function AirplaneFieldError(a: Airplane): (r: Option<Error>)
    ensures r == None <==> a.rows >= 1 && a.seats >= 1
    ensures r != None ==> r == Some(BelowMinimum(if a.rows < 1 then AirplaneRows else AirplaneSeats))
  {
    if a.rows < 1 then Some(BelowMinimum(AirplaneRows))
    else if a.seats < 1 then Some(BelowMinimum(AirplaneSeats))
    else None
  }

  /** `MinValueValidator(1)` on `Route.distance`. */
  function RouteFieldError(r: Route): (e: Option<Error>)
    ensures e == None <==> r.distance >= 1
  {
    if r.distance < 1 then Some(BelowMinimum(RouteDistance)) else None
  }

  /** The number of seats on an airplane: `seats` in each of its `rows`. An
      airplane that passes its field validators has at least one seat, and at
      least as many seats as it has rows or seats per row. */
  function Capacity(a: Airplane): (r: int)
    ensures AirplaneFieldError(a) == None ==> r >= a.rows && r >= a.seats && r >= 1
    ensures a.rows == 0 || a.seats == 0 ==> r == 0
  {
    assert a.rows >= 1 && a.seats >= 1 ==> a.rows * a.seats >= a.rows * 1 && a.rows * a.seats >= 1 * a.seats;
    a.rows * a.seats
  }

  // ---------------------------------------------------------------------
  // Ticket.validate_ticket

  /** `validate_ticket` as written: it raises when `1 < row < rows` (and
      likewise for seats), which rejects the interior of the range its
      message names and lets every value outside it through. */
  function ValidateTicketAsWritten(row: int, seat: int, a: Airplane): (r: Option<RangeError>)
    ensures r == None <==> !(1 < row < a.rows) && !(1 < seat < a.seats)
    ensures 1 < row < a.rows ==> r == Some(OutOfRange(RowField, a.rows, row))
    ensures !(1 < row < a.rows) && 1 < seat < a.seats ==> r == Some(OutOfRange(SeatField, a.seats, seat))
  {
    if 1 < row < a.rows then Some(OutOfRange(RowField, a.rows, row))
    else if 1 < seat < a.seats then Some(OutOfRange(SeatField, a.seats, seat))
    else None
  }

  /** The range the message "should be in range (1, rows)" names and the
      tests expect: both ends included. */
  predicate InRange(row: int, seat: int, a: Airplane)
  {
    1 <= row <= a.rows && 1 <= seat <= a.seats
  }

  /** `validate_ticket` as intended: reject a row outside `[1, rows]`, then a
      seat outside `[1, seats]`, naming the bound and the offending value. */
  function ValidateTicket(row: int, seat: int, a: Airplane): (r: Option<RangeError>)
    ensures r == None <==> InRange(row, seat, a)
    ensures !(1 <= row <= a.rows) ==> r == Some(OutOfRange(RowField, a.rows, row))
    ensures 1 <= row <= a.rows && !(1 <= seat <= a.seats) ==> r == Some(OutOfRange(SeatField, a.seats, seat))
  {
    if row < 1 || row > a.rows then Some(OutOfRange(RowField, a.rows, row))
    else if seat < 1 || seat > a.seats then Some(OutOfRange(SeatField, a.seats, seat))
    else None
  }

  /** The check as written accepts every row the intended check rejects for
      being outside the range (when the seat passes both), and rejects the
      interior rows the intended check accepts. */
  lemma AsWrittenInvertsRowCheck(row: int, seat: int, a: Airplane)
    requires 1 <= seat <= a.seats && !(1 < seat < a.seats)
    ensures !(1 <= row <= a.rows) ==> ValidateTicketAsWritten(row, seat, a) == None && ValidateTicket(row, seat, a) != None
    ensures 1 < row < a.rows ==> ValidateTicketAsWritten(row, seat, a) != None && ValidateTicket(row, seat, a) == None
  {
  }

  /** Row 0 with seat 1 passes the check as written: it is not strictly
      between 1 and `rows`, and neither is seat 1 between 1 and `seats`. */
  lemma AsWrittenAcceptsRowZero(a: Airplane)
    requires a.rows >= 1 && a.seats >= 1
    ensures ValidateTicketAsWritten(0, 1, a) == None
    ensures ValidateTicket(0, 1, a) == Some(OutOfRange(RowField, a.rows, 0))
  {
  }

  /** The four inputs of the model tests, for an airplane of 100 rows of 10
      seats: the check as written rejects each one, but always for the field
      that is in range, so every message names the wrong offending value. */
  lemma AsWrittenBlamesWrongField()
    ensures var a := Airplane("", 100, 10, 0);
      && ValidateTicket(0, 3, a) == Some(OutOfRange(RowField, 100, 0))
      && ValidateTicketAsWritten(0, 3, a) == Some(OutOfRange(SeatField, 10, 3))
      && ValidateTicket(3, 0, a) == Some(OutOfRange(SeatField, 10, 0))
      && ValidateTicketAsWritten(3, 0, a) == Some(OutOfRange(RowField, 100, 3))
      && ValidateTicket(101, 5, a) == Some(OutOfRange(RowField, 100, 101))
      && ValidateTicketAsWritten(101, 5, a) == Some(OutOfRange(SeatField, 10, 5))
      && ValidateTicket(4, 13, a) == Some(OutOfRange(SeatField, 10, 13))
      && ValidateTicketAsWritten(4, 13, a) == Some(OutOfRange(RowField, 100, 4))
  {
  }

  // ---------------------------------------------------------------------
  // Ticket.clean

  /** What `Ticket.clean` does: it either passes, raises a validation error,
      or crashes reading an attribute the flight does not have. */
  datatype CleanOutcome = Cleaned | Invalid(error: Error) | MissingAttribute(name: string)

  /** The flight's airplane, when the flight and its airplane are stored. */
  predicate HasAirplane(db: Db, f: Id)
  {
    f in db.flights && db.flights[f].airplane in db.airplanes
  }

  function AirplaneOf(db: Db, f: Id): Airplane
    requires HasAirplane(db, f)
  {
    db.airplanes[db.flights[f].airplane]
  }

  /** `Ticket.clean` as written reads `self.flight.airport`, which a Flight
      does not have, so it never passes for a stored flight. */
  function TicketCleanAsWritten(db: Db, t: Ticket): (r: CleanOutcome)
    ensures t.flight in db.flights ==> r == MissingAttribute("airport")
  {
    if t.flight !in db.flights then Invalid(NotFound(FlightTable))
    else MissingAttribute("airport")
  }

  /** `Ticket.clean` reading the flight's airplane, as the ticket serializer
      does: it passes exactly for a seat in range on a stored flight. */
  function TicketClean(db: Db, t: Ticket): (r: CleanOutcome)
    ensures r.MissingAttribute? == false
    ensures r == Cleaned <==> HasAirplane(db, t.flight) && InRange(t.row, t.seat, AirplaneOf(db, t.flight))
  {
    if !HasAirplane(db, t.flight) then Invalid(NotFound(FlightTable))
    else match ValidateTicket(t.row, t.seat, AirplaneOf(db, t.flight))
      case Some(e) => Invalid(InvalidSeat(e))
      case None => Cleaned
  }

  /** A ticket for seat 1 in row 1 of a stored flight: the corrected clean
      accepts it, the clean as written crashes on it. */
  lemma CleanAsWrittenCrashesOnValidTicket()
    ensures var db := EmptyDb.(
        airplanes := map[0 := Airplane("", 10, 4, 0)],
        flights := map[1 := Flight(2, 0, DateTime(Date(2024, 1, 1), 0), DateTime(Date(2024, 1, 1), 0), {})]);
      var t := Ticket(1, 1, 1, 3);
      TicketClean(db, t) == Cleaned && TicketCleanAsWritten(db, t) == MissingAttribute("airport")
  {
  }

  // ---------------------------------------------------------------------
  // Uniqueness of (flight, row, seat)

  predicate SameSeat(t: Ticket, u: Ticket)
  {
    t.flight == u.flight && t.row == u.row && t.seat == u.seat
  }

  /** Some stored ticket already holds this seat on this flight. */
  predicate Booked(ts: seq<Ticket>, t: Ticket)
  {
    exists i :: 0 <= i < |ts| && SameSeat(ts[i], t)
  }

  /** `unique_together = ("flight", "row", "seat")`. */
  ghost predicate Unique(ts: seq<Ticket>): (r: bool)
    ensures |ts| <= 1 ==> r
  {
    forall i, j :: 0 <= i < j < |ts| ==> !SameSeat(ts[i], ts[j])
  }

  /** Uniqueness does not depend on which of two tickets comes first: no two
      distinct positions hold the same seat. */
  lemma UniqueSymmetric(ts: seq<Ticket>)
    ensures Unique(ts) <==> forall i, j :: 0 <= i < |ts| && 0 <= j < |ts| && i != j ==> !SameSeat(ts[i], ts[j])
  {
  }

  /** Appending a ticket keeps the table unique exactly when its seat is free. */
  lemma UniqueAppend(ts: seq<Ticket>, t: Ticket)
    requires Unique(ts)
    ensures Unique(ts + [t]) <==> !Booked(ts, t)
  {
    var s := ts + [t];
    if Booked(ts, t) {
      var i :| 0 <= i < |ts| && SameSeat(ts[i], t);
      assert s[i] == ts[i] && s[|ts|] == t;
    }
  }

  /** Removing tickets cannot create a clash. */
  lemma {:induction false} UniqueFilter(ts: seq<Ticket>, p: Ticket -> bool)
    requires Unique(ts)
    ensures Unique(Filter(ts, p))
    decreases |ts|
  {
    if ts != [] {
      var tail := ts[1..];
      assert Unique(tail) by {
        forall i, j | 0 <= i < j < |tail| ensures !SameSeat(tail[i], tail[j]) {
          assert tail[i] == ts[i + 1] && tail[j] == ts[j + 1];
        }
      }
      UniqueFilter(tail, p);
      var rest := Filter(tail, p);
      if p(ts[0]) {
        var r := [ts[0]] + rest;
        forall i, j | 0 <= i < j < |r| ensures !SameSeat(r[i], r[j]) {
          if i == 0 {
            assert r[j] in tail;
            var k :| 0 <= k < |tail| && tail[k] == r[j];
            assert ts[k + 1] == r[j];
          } else {
            assert r[i] == rest[i - 1] && r[j] == rest[j - 1];
          }
        }
      }
    }
  }

  // ---------------------------------------------------------------------
  // Ticket.save: full_clean, then insert

  /** `Ticket.full_clean()`: both foreign keys must name stored rows, then
      `clean()` runs the range check against the flight's airplane, then
      `validate_unique()` looks for a stored ticket holding the same seat.
      Of the checks that fail, the earliest is the one reported. */
  function FullClean(db: Db, t: Ticket): (r: Option<Error>)
    ensures r == None <==>
      && HasAirplane(db, t.flight)
      && t.order in db.orders
      && InRange(t.row, t.seat, AirplaneOf(db, t.flight))
      && !Booked(db.tickets, t)
    ensures r == Some(AlreadyBooked) ==> HasAirplane(db, t.flight) && InRange(t.row, t.seat, AirplaneOf(db, t.flight))
  {
    if !HasAirplane(db, t.flight) then Some(NotFound(FlightTable))
    else if t.order !in db.orders then Some(NotFound(OrderTable))
    else match TicketClean(db, t)
      case Invalid(e) => Some(e)
      case MissingAttribute(_) => Some(NotFound(FlightTable))
      case Cleaned => if Booked(db.tickets, t) then Some(AlreadyBooked) else None
  }

  /** The database after the ticket's row is inserted. */
  function WithTicket(db: Db, t: Ticket): Db
  {
    db.(tickets := db.tickets + [t])
  }

  // ---------------------------------------------------------------------
  // Integrity of the database

  ghost predicate KeysFresh(db: Db)
  {
    && (forall k :: k in db.airports ==> k < db.nextId)
    && (forall k :: k in db.airplanes ==> k < db.nextId)
    && (forall k :: k in db.routes ==> k < db.nextId)
    && (forall k :: k in db.crews ==> k < db.nextId)
    && (forall k :: k in db.flights ==> k < db.nextId)
    && (forall k :: k in db.orders ==> k < db.nextId)
  }

  predicate RouteOk(db: Db, r: Route)
  {
    r.source in db.airports && r.destination in db.airports && RouteFieldError(r) == None
  }

  predicate FlightOk(db: Db, f: Flight)
  {
    f.route in db.routes && f.airplane in db.airplanes && f.crew <= db.crews.Keys
  }

  /** A stored ticket names a stored flight (with its airplane) and a stored
      order, and its seat is in range for that airplane. */
  predicate TicketOk(db: Db, t: Ticket)
  {
    HasAirplane(db, t.flight) && t.order in db.orders && InRange(t.row, t.seat, AirplaneOf(db, t.flight))
  }

  /** The invariant of the database: fresh key supply, every foreign key
      resolves, field minimums hold, every ticket's seat is in range, and no
      two tickets hold the same seat on the same flight. */
  ghost predicate Consistent(db: Db)
  {
    && KeysFresh(db)
    && (forall k :: k in db.airplanes ==> AirplaneFieldError(db.airplanes[k]) == None)
    && (forall k :: k in db.routes ==> RouteOk(db, db.routes[k]))
    && (forall k :: k in db.flights ==> FlightOk(db, db.flights[k]))
    && (forall i :: 0 <= i < |db.tickets| ==> TicketOk(db, db.tickets[i]))
    && Unique(db.tickets)
  }

  lemma EmptyDbConsistent()
    ensures Consistent(EmptyDb)
  {
  }

  /** Saving a ticket that passes `full_clean` keeps the database consistent;
      in particular the ticket table stays free of duplicate seats. */
  lemma SaveKeepsConsistent(db: Db, t: Ticket)
    requires Consistent(db) && FullClean(db, t) == None
    ensures Consistent(WithTicket(db, t))
  {
    UniqueAppend(db.tickets, t);
    var db' := WithTicket(db, t);
    forall i | 0 <= i < |db'.tickets| ensures TicketOk(db', db'.tickets[i]) {
      if i < |db.tickets| {
        assert db'.tickets[i] == db.tickets[i];
      }
    }
  }

  /** Saving a second ticket for a seat already held fails, and fails with
      the uniqueness error when the seat itself is in range. */
  lemma DuplicateSaveFails(db: Db, t: Ticket, i: int)
    requires 0 <= i < |db.tickets| && SameSeat(db.tickets[i], t)
    ensures FullClean(db, t) != None
    ensures HasAirplane(db, t.flight) && t.order in db.orders && InRange(t.row, t.seat, AirplaneOf(db, t.flight))
      ==> FullClean(db, t) == Some(AlreadyBooked)
  {
    assert Booked(db.tickets, t);
  }

  /** Storing an airport under the next key keeps the database consistent. */
  lemma AirportAddedKeepsConsistent(db: Db, a: Airport)
    requires Consistent(db)
    ensures Consistent(db.(airports := db.airports[db.nextId := a], nextId := db.nextId + 1))
  {
    var db' := db.(airports := db.airports[db.nextId := a], nextId := db.nextId + 1);
    forall i | 0 <= i < |db'.tickets| ensures TicketOk(db', db'.tickets[i]) {
      assert TicketOk(db, db.tickets[i]);
    }
  }

  /** Storing a crew member under the next key keeps the database consistent. */
  lemma CrewAddedKeepsConsistent(db: Db, c: Crew)
    requires Consistent(db)
    ensures Consistent(db.(crews := db.crews[db.nextId := c], nextId := db.nextId + 1))
  {
    var db' := db.(crews := db.crews[db.nextId := c], nextId := db.nextId + 1);
    forall i | 0 <= i < |db'.tickets| ensures TicketOk(db', db'.tickets[i]) {
      assert TicketOk(db, db.tickets[i]);
    }
  }

  /** Storing an airplane that passes its field validators under the next key
      keeps the database consistent: no stored flight changes airplane. */
  lemma AirplaneAddedKeepsConsistent(db: Db, a: Airplane)
    requires Consistent(db) && AirplaneFieldError(a) == None
    ensures Consistent(db.(airplanes := db.airplanes[db.nextId := a], nextId := db.nextId + 1))
  {
    var db' := db.(airplanes := db.airplanes[db.nextId := a], nextId := db.nextId + 1);
    forall f | f in db.flights ensures HasAirplane(db', f) == HasAirplane(db, f) {
      assert FlightOk(db, db.flights[f]);
    }
    forall i | 0 <= i < |db'.tickets| ensures TicketOk(db', db'.tickets[i]) {
      assert TicketOk(db, db.tickets[i]);
    }
  }

  // ---------------------------------------------------------------------
  // Listing order: Meta.ordering = ["row", "seat"]

  predicate ListedBefore(t: Ticket, u: Ticket)
  {
    t.row < u.row || (t.row == u.row && t.seat <= u.seat)
  }

  ghost predicate SortedBySeat(ts: seq<Ticket>)
  {
    forall i, j :: 0 <= i < j < |ts| ==> ListedBefore(ts[i], ts[j])
  }

  /** Putting a ticket that comes no later than every ticket of a sorted
      sequence in front of it keeps the sequence sorted. */
  lemma SortedCons(x: Ticket, s: seq<Ticket>)
    requires SortedBySeat(s)
    requires forall y :: y in s ==> ListedBefore(x, y)
    ensures SortedBySeat([x] + s)
  {
    var r := [x] + s;
    forall i, j | 0 <= i < j < |r| ensures ListedBefore(r[i], r[j]) {
      if i == 0 {
        assert r[j] == s[j - 1];
      } else {
        assert r[i] == s[i - 1] && r[j] == s[j - 1];
      }
    }
  }

  function Insert(t: Ticket, ts: seq<Ticket>): (r: seq<Ticket>)
    requires SortedBySeat(ts)
    ensures SortedBySeat(r)
    ensures multiset(r) == multiset(ts) + multiset{t}
    decreases |ts|
  {
    if ts == [] then [t]
    else if ListedBefore(t, ts[0]) then
      SortedCons(t, ts);
      [t] + ts
    else
      assert ts == [ts[0]] + ts[1..];
      var rest := Insert(t, ts[1..]);
      InsertBound(t, ts, rest);
      [ts[0]] + rest
  }

  /** Helper for `Insert`: the head of `ts` comes before everything in the
      rest once `t` is inserted into it. */
  lemma InsertBound(t: Ticket, ts: seq<Ticket>, rest: seq<Ticket>)
    requires ts != [] && SortedBySeat(ts) && !ListedBefore(t, ts[0])
    requires SortedBySeat(rest) && multiset(rest) == multiset(ts[1..]) + multiset{t}
    ensures SortedBySeat([ts[0]] + rest)
  {
    forall y | y in rest ensures ListedBefore(ts[0], y) {
      assert multiset(rest)[y] > 0;
      if y != t {
        assert y in multiset(ts[1..]);
        var k :| 0 <= k < |ts[1..]| && ts[1..][k] == y;
        assert ts[k + 1] == y;
      }
    }
    SortedCons(ts[0], rest);
  }

  /** The tickets in listing order: sorted by row, then seat, and a
      permutation of the stored tickets. */
  function Listing(ts: seq<Ticket>): (r: seq<Ticket>)
    ensures SortedBySeat(r)
    ensures multiset(r) == multiset(ts)
    decreases |ts|
  {
    if ts == [] then []
    else
      assert ts == [ts[0]] + ts[1..];
      Insert(ts[0], Listing(ts[1..]))
  }

  // ---------------------------------------------------------------------
  // Tickets of a flight

  /** How many stored tickets are for flight `f` (`Count("tickets")`). */
  function CountOn(ts: seq<Ticket>, f: Id): (r: nat)
    ensures r <= |ts|
    ensures r == 0 <==> forall i :: 0 <= i < |ts| ==> ts[i].flight != f
    decreases |ts|
  {
    if ts == [] then 0
    else
      assert forall i :: 1 <= i < |ts| ==> ts[i] == ts[1..][i - 1];
      (if ts[0].flight == f then 1 else 0) + CountOn(ts[1..], f)
  }

  lemma {:induction false} CountOnAppend(a: seq<Ticket>, b: seq<Ticket>, f: Id)
    ensures CountOn(a + b, f) == CountOn(a, f) + CountOn(b, f)
    decreases |a|
  {
    if a == [] {
      assert a + b == b;
    } else {
      assert (a + b)[1..] == a[1..] + b;
      CountOnAppend(a[1..], b, f);
    }
  }

  // ---------------------------------------------------------------------
  // Cascading deletes

  /** Deleting the flights in `doomed`: `Ticket.flight` is `on_delete=CASCADE`,
      so exactly the tickets for those flights go with them. */
  function WithoutFlights(db: Db, doomed: set<Id>): (r: Db)
    ensures r.flights.Keys == db.flights.Keys - doomed
    ensures forall k :: k in r.flights ==> r.flights[k] == db.flights[k]
    ensures Selects(r.tickets, db.tickets, (t: Ticket) => t.flight !in doomed)
    ensures forall t :: t in r.tickets <==> t in db.tickets && t.flight !in doomed
    ensures r == db.(flights := r.flights, tickets := r.tickets)
  {
    db.(flights := map k | k in db.flights && k !in doomed :: db.flights[k],
        tickets := Filter(db.tickets, (t: Ticket) => t.flight !in doomed))
  }

  function WithoutFlight(db: Db, f: Id): (r: Db)
    ensures r.flights.Keys == db.flights.Keys - {f}
    ensures forall k :: k in r.flights ==> r.flights[k] == db.flights[k]
    ensures forall t :: t in r.tickets <==> t in db.tickets && t.flight != f
    ensures Selects(r.tickets, db.tickets, (t: Ticket) => t.flight != f)
    ensures r == db.(flights := r.flights, tickets := r.tickets)
  {
    WithoutFlights(db, {f})
  }

  /** The flights flying one of the routes `rts`. */
  function FlightsOnRoutes(db: Db, rts: set<Id>): (r: set<Id>)
    ensures forall k :: k in r <==> k in db.flights && db.flights[k].route in rts
  {
    set k | k in db.flights && db.flights[k].route in rts
  }

  /** The routes from or to airport `a`. */
  function RoutesAt(db: Db, a: Id): (r: set<Id>)
    ensures forall k :: k in r <==> k in db.routes && (db.routes[k].source == a || db.routes[k].destination == a)
  {
    set k | k in db.routes && (db.routes[k].source == a || db.routes[k].destination == a)
  }

  /** Deleting a route: `Flight.route` is `on_delete=CASCADE`, so its flights
      go, and with them their tickets. */
  function WithoutRoute(db: Db, rt: Id): (r: Db)
    ensures r.routes.Keys == db.routes.Keys - {rt}
    ensures forall k :: k in r.routes ==> r.routes[k] == db.routes[k]
    ensures forall k :: k in r.flights <==> k in db.flights && db.flights[k].route != rt
    ensures forall k :: k in r.flights ==> r.flights[k] == db.flights[k]
    ensures Selects(r.tickets, db.tickets, (t: Ticket) => t.flight !in FlightsOnRoutes(db, {rt}))
    ensures forall t :: t in r.tickets <==> t in db.tickets && t.flight !in FlightsOnRoutes(db, {rt})
    ensures r == db.(routes := r.routes, flights := r.flights, tickets := r.tickets)
  {
    var d := WithoutFlights(db, FlightsOnRoutes(db, {rt}));
    d.(routes := map k | k in db.routes && k != rt :: db.routes[k])
  }

  /** Deleting an airport: `Route.source` and `Route.destination` are
      `on_delete=CASCADE`, so every route from or to it goes, then their
      flights, then those flights' tickets. */
  function WithoutAirport(db: Db, a: Id): (r: Db)
    ensures r.airports.Keys == db.airports.Keys - {a}
    ensures forall k :: k in r.airports ==> r.airports[k] == db.airports[k]
    ensures r.routes.Keys == db.routes.Keys - RoutesAt(db, a)
    ensures forall k :: k in r.routes ==> r.routes[k] == db.routes[k]
    ensures r.flights.Keys == db.flights.Keys - FlightsOnRoutes(db, RoutesAt(db, a))
    ensures forall k :: k in r.flights ==> r.flights[k] == db.flights[k]
    ensures Selects(r.tickets, db.tickets, (t: Ticket) => t.flight !in FlightsOnRoutes(db, RoutesAt(db, a)))
    ensures forall t :: t in r.tickets <==> t in db.tickets && t.flight !in FlightsOnRoutes(db, RoutesAt(db, a))
    ensures r == db.(airports := r.airports, routes := r.routes, flights := r.flights, tickets := r.tickets)
  {
    var dead := RoutesAt(db, a);
    var d := WithoutFlights(db, FlightsOnRoutes(db, dead));
    d.(routes := map k | k in db.routes && k !in dead :: db.routes[k],
       airports := map k | k in db.airports && k != a :: db.airports[k])
  }

  /** Deleting an order: `Ticket.order` is `on_delete=CASCADE`, so exactly its
      tickets go with it. */
  function WithoutOrder(db: Db, o: Id): (r: Db)
    ensures r.orders.Keys == db.orders.Keys - {o}
    ensures forall k :: k in r.orders ==> r.orders[k] == db.orders[k]
    ensures forall t :: t in r.tickets <==> t in db.tickets && t.order != o
    ensures Selects(r.tickets, db.tickets, (t: Ticket) => t.order != o)
    ensures r == db.(orders := r.orders, tickets := r.tickets)
  {
    db.(orders := map k | k in db.orders && k != o :: db.orders[k],
        tickets := Filter(db.tickets, (t: Ticket) => t.order != o))
  }

  /** Every ticket left behind by `Filter` still satisfies the per-ticket
      part of the invariant in the database `db'`, provided its flight and
      order survive. */
  lemma TicketsSurvive(db: Db, db': Db, p: Ticket -> bool)
    requires Consistent(db)
    requires db'.tickets == Filter(db.tickets, p)
    requires forall t :: t in db.tickets && p(t) ==> t.flight in db'.flights && t.order in db'.orders
    requires forall k :: k in db'.flights ==> k in db.flights && db'.flights[k] == db.flights[k]
    requires db'.airplanes == db.airplanes
    requires forall k :: k in db.orders && k in db'.orders ==> db'.orders[k] == db.orders[k]
    ensures forall i :: 0 <= i < |db'.tickets| ==> TicketOk(db', db'.tickets[i])
    ensures Unique(db'.tickets)
  {
    UniqueFilter(db.tickets, p);
    forall i | 0 <= i < |db'.tickets| ensures TicketOk(db', db'.tickets[i]) {
      var t := db'.tickets[i];
      assert t in db.tickets;
      var j :| 0 <= j < |db.tickets| && db.tickets[j] == t;
      assert TicketOk(db, db.tickets[j]);
    }
  }

  lemma WithoutFlightsKeepsConsistent(db: Db, doomed: set<Id>)
    requires Consistent(db)
    ensures Consistent(WithoutFlights(db, doomed))
  {
    var db' := WithoutFlights(db, doomed);
    forall t | t in db.tickets && t.flight !in doomed ensures t.flight in db'.flights && t.order in db'.orders {
      var j :| 0 <= j < |db.tickets| && db.tickets[j] == t;
      assert TicketOk(db, db.tickets[j]);
    }
    TicketsSurvive(db, db', (t: Ticket) => t.flight !in doomed);
  }

  lemma WithoutFlightKeepsConsistent(db: Db, f: Id)
    requires Consistent(db)
    ensures Consistent(WithoutFlight(db, f))
  {
    WithoutFlightsKeepsConsistent(db, {f});
  }

  lemma WithoutRouteKeepsConsistent(db: Db, rt: Id)
    requires Consistent(db)
    ensures Consistent(WithoutRoute(db, rt))
  {
    WithoutFlightsKeepsConsistent(db, FlightsOnRoutes(db, {rt}));
  }

  lemma WithoutAirportKeepsConsistent(db: Db, a: Id)
    requires Consistent(db)
    ensures Consistent(WithoutAirport(db, a))
  {
    var dead := RoutesAt(db, a);
    var d := WithoutFlights(db, FlightsOnRoutes(db, dead));
    WithoutFlightsKeepsConsistent(db, FlightsOnRoutes(db, dead));
    var r := WithoutAirport(db, a);
    assert r.tickets == d.tickets && r.flights == d.flights && r.airplanes == d.airplanes && r.orders == d.orders;
    forall k | k in r.routes ensures RouteOk(r, r.routes[k]) {
      assert RouteOk(db, db.routes[k]);
    }
    forall k | k in r.flights ensures FlightOk(r, r.flights[k]) {
      assert FlightOk(db, db.flights[k]);
    }
    forall i | 0 <= i < |r.tickets| ensures TicketOk(r, r.tickets[i]) {
      assert TicketOk(d, d.tickets[i]);
    }
  }

  lemma WithoutOrderKeepsConsistent(db: Db, o: Id)
    requires Consistent(db)
    ensures Consistent(WithoutOrder(db, o))
  {
    var db' := WithoutOrder(db, o);
    forall t | t in db.tickets && t.order != o ensures t.flight in db'.flights && t.order in db'.orders {
      var j :| 0 <= j < |db.tickets| && db.tickets[j] == t;
      assert TicketOk(db, db.tickets[j]);
    }
    TicketsSurvive(db, db', (t: Ticket) => t.order != o);
  }
}
