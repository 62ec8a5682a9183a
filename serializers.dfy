/** The API boundary of ticket booking: `TicketSerializer.validate`, the
    `tickets` list of `OrderSerializer` (`allow_empty=False`) and what
    `OrderSerializer.create` writes inside its transaction. The transaction
    itself is the method `BookingStore.CreateOrder`; this module gives its
    specification as functions on `Db` and proves what it guarantees. */
module Serializers {
  import opened Common
  import opened Text
  import opened Models

  /** One element of an order's `tickets` list: the fields of `OrderTicketSerializer`. */
  datatype TicketSpec = TicketSpec(flight: Id, row: int, seat: int)

  /** The body of a create-order request. `user` is whatever the client sent. */
  datatype OrderPayload = OrderPayload(user: Option<Id>, tickets: seq<TicketSpec>)

  /** The ticket row `Ticket.objects.create(order=order, **ticket_data)` builds. */
  function Bind(s: TicketSpec, o: Id): Ticket
  {
    Ticket(s.row, s.seat, s.flight, o)
  }

  function BindAll(specs: seq<TicketSpec>, o: Id): (r: seq<Ticket>)
    ensures |r| == |specs|
    ensures forall i :: 0 <= i < |specs| ==> r[i] == Bind(specs[i], o)
  {
    seq(|specs|, i requires 0 <= i < |specs| => Bind(specs[i], o))
  }

  /** `TicketSerializer.validate`: the `flight` key must name a stored flight,
      then the same `ValidateTicket` that `Ticket.clean` runs is applied with
      that flight's airplane. */
  function ValidateSpec(db: Db, s: TicketSpec): (r: Option<Error>)
    ensures r == None <==> HasAirplane(db, s.flight) && InRange(s.row, s.seat, AirplaneOf(db, s.flight))
  {
    if !HasAirplane(db, s.flight) then Some(NotFound(FlightTable))
    else match ValidateTicket(s.row, s.seat, AirplaneOf(db, s.flight))
      case Some(e) => Some(InvalidSeat(e))
      case None => None
  }

  /** The API boundary and the storage boundary run one rule: for any order,
      the serializer accepts a spec exactly when `Ticket.clean` accepts the
      ticket built from it, and rejects it with the same error otherwise. */
  lemma BoundariesAgree(db: Db, s: TicketSpec, o: Id)
    ensures ValidateSpec(db, s) == None <==> TicketClean(db, Bind(s, o)) == Cleaned
    ensures ValidateSpec(db, s) != None ==> TicketClean(db, Bind(s, o)) == Invalid(ValidateSpec(db, s).value)
  {
  }

  /** The first spec of the list that the serializer rejects, if any. */
  function FirstSpecError(db: Db, specs: seq<TicketSpec>): (r: Option<Error>)
    ensures r == None <==> forall i :: 0 <= i < |specs| ==> ValidateSpec(db, specs[i]) == None
    ensures r != None ==> exists i :: 0 <= i < |specs| && ValidateSpec(db, specs[i]) == r
    decreases |specs|
  {
    if specs == [] then None
    else
      var e := ValidateSpec(db, specs[0]);
      if e != None then e
      else
        var r := FirstSpecError(db, specs[1..]);
        assert forall i :: 1 <= i < |specs| ==> specs[1..][i - 1] == specs[i];
        r
  }

  /** The loop of `OrderSerializer.create`: each spec in turn becomes a ticket
      of order `o` and goes through `Ticket.save`, which sees the tickets the
      loop has already written; the first failure is the one reported. */
  function BatchError(db: Db, specs: seq<TicketSpec>, o: Id): (r: Option<Error>)
    ensures r != None ==> r.value.NotFound? || r.value.InvalidSeat? || r.value == AlreadyBooked
    decreases |specs|
  {
    if specs == [] then None
    else match FullClean(db, Bind(specs[0], o))
      case Some(e) => Some(e)
      case None => BatchError(WithTicket(db, Bind(specs[0], o)), specs[1..], o)
  }

  /** One turn of the loop: the batch from position `i` on either fails at
      spec `i` or goes on with that spec's ticket written. */
  lemma BatchStep(db: Db, specs: seq<TicketSpec>, i: int, o: Id)
    requires 0 <= i < |specs|
    ensures BatchError(db, specs[i..], o) ==
      match FullClean(db, Bind(specs[i], o))
      case Some(e) => Some(e)
      case None => BatchError(WithTicket(db, Bind(specs[i], o)), specs[i + 1..], o)
  {
    assert specs[i..][0] == specs[i] && specs[i..][1..] == specs[i + 1..];
  }

  lemma BindAllSnoc(specs: seq<TicketSpec>, i: int, o: Id)
    requires 0 <= i < |specs|
    ensures BindAll(specs[..i + 1], o) == BindAll(specs[..i], o) + [Bind(specs[i], o)]
  {
    assert BindAll(specs[..i + 1], o) == BindAll(specs[..i], o) + [Bind(specs[i], o)];
  }

  /** `Order.objects.create(user=...)`: a new order under the next key, owned
      by `user`; every other order and every other table is as before. */
  function NewOrder(db: Db, user: Id): (r: Db)
    ensures r.orders.Keys == db.orders.Keys + {db.nextId}
    ensures r.orders[db.nextId] == Order(user)
    ensures forall k :: k in db.orders && k != db.nextId ==> r.orders[k] == db.orders[k]
    ensures r.nextId > db.nextId
    ensures r == db.(orders := r.orders, nextId := r.nextId)
  {
    db.(orders := db.orders[db.nextId := Order(user)], nextId := db.nextId + 1)
  }

  /** Why creating an order for `user` with these specs fails, if it does:
      an empty list is refused first (`allow_empty=False`), then each spec
      goes through the serializer's validation, then the transaction runs.
      So `EmptyTicketList` means exactly an empty list, and a spec that the
      serializer rejects is reported as that rejection, never as a taken seat. */
  function CreateOrderError(db: Db, user: Id, specs: seq<TicketSpec>): (r: Option<Error>)
    ensures r == Some(EmptyTicketList) <==> specs == []
    ensures (exists i :: 0 <= i < |specs| && ValidateSpec(db, specs[i]) != None) ==>
      r != None && (r.value.NotFound? || r.value.InvalidSeat?)
  {
    if specs == [] then Some(EmptyTicketList)
    else match FirstSpecError(db, specs)
      case Some(e) => Some(e)
      case None => BatchError(NewOrder(db, user), specs, db.nextId)
  }

  /** The database after a successful order: one new order, owned by `user`,
      and one new ticket per spec, in input order, bound to that order,
      after the tickets already stored. Nothing else changes. */
  function OrderPlaced(db: Db, user: Id, specs: seq<TicketSpec>): (r: Db)
    ensures r.orders.Keys == db.orders.Keys + {db.nextId} && r.orders[db.nextId] == Order(user)
    ensures forall k :: k in db.orders && k != db.nextId ==> r.orders[k] == db.orders[k]
    ensures |r.tickets| == |db.tickets| + |specs| && r.tickets[..|db.tickets|] == db.tickets
    ensures forall i :: 0 <= i < |specs| ==>
      r.tickets[|db.tickets| + i] == Ticket(specs[i].row, specs[i].seat, specs[i].flight, db.nextId)
    ensures r == db.(orders := r.orders, tickets := r.tickets, nextId := db.nextId + 1)
  {
    NewOrder(db, user).(tickets := db.tickets + BindAll(specs, db.nextId))
  }

  /** What `OrderSerializer.is_valid` and then `create` make of a whole
      request whose order will belong to `requester`: the `tickets` field is
      validated before the `user` field, and `user` is required, because
      `Order.user` is a foreign key without `null=True`. The user the client
      names plays no other part. */
  function OrderRequestError(db: Db, requester: Id, p: OrderPayload): (r: Option<Error>)
    ensures r == None <==> p.user.Some? && CreateOrderError(db, requester, p.tickets) == None
    ensures r == Some(UserRequired) <==> p.user.None? && p.tickets != [] && FirstSpecError(db, p.tickets) == None
  {
    if p.tickets == [] then Some(EmptyTicketList)
    else match FirstSpecError(db, p.tickets)
      case Some(e) => Some(e)
      case None =>
        if p.user.None? then Some(UserRequired)
        else BatchError(NewOrder(db, requester), p.tickets, db.nextId)
  }

  // ---------------------------------------------------------------------
  // What an accepted request looks like

  predicate SpecSameSeat(s: TicketSpec, u: TicketSpec)
  {
    s.flight == u.flight && s.row == u.row && s.seat == u.seat
  }

  /** A stored ticket already holds the seat the spec asks for. */
  predicate Taken(ts: seq<Ticket>, s: TicketSpec)
  {
    exists i :: 0 <= i < |ts| && ts[i].flight == s.flight && ts[i].row == s.row && ts[i].seat == s.seat
  }

  /** Every spec names a stored flight and a seat in range, none asks for a
      seat already taken, and no two ask for the same seat. */
  ghost predicate Bookable(db: Db, specs: seq<TicketSpec>)
  {
    && (forall i :: 0 <= i < |specs| ==> HasAirplane(db, specs[i].flight) && InRange(specs[i].row, specs[i].seat, AirplaneOf(db, specs[i].flight)))
    && (forall i :: 0 <= i < |specs| ==> !Taken(db.tickets, specs[i]))
    && (forall i, j :: 0 <= i < j < |specs| ==> !SpecSameSeat(specs[i], specs[j]))
  }

  lemma BookedIsTaken(ts: seq<Ticket>, s: TicketSpec, o: Id)
    ensures Booked(ts, Bind(s, o)) <==> Taken(ts, s)
  {
  }

  lemma TakenAppend(ts: seq<Ticket>, t: Ticket, s: TicketSpec)
    ensures Taken(ts + [t], s) <==> Taken(ts, s) || (t.flight == s.flight && t.row == s.row && t.seat == s.seat)
  {
    var u := ts + [t];
    if Taken(u, s) {
      var i :| 0 <= i < |u| && u[i].flight == s.flight && u[i].row == s.row && u[i].seat == s.seat;
      if i < |ts| {
        assert ts[i] == u[i];
      }
    }
    if Taken(ts, s) {
      var i :| 0 <= i < |ts| && ts[i].flight == s.flight && ts[i].row == s.row && ts[i].seat == s.seat;
      assert u[i] == ts[i];
    }
    assert u[|ts|] == t;
  }

  /** How the conditions of `Bookable` split at the head of the list. */
  lemma BookableCons(db: Db, specs: seq<TicketSpec>, o: Id)
    requires specs != []
    ensures var b := Bind(specs[0], o);
      Bookable(db, specs) <==>
        && HasAirplane(db, specs[0].flight) && InRange(specs[0].row, specs[0].seat, AirplaneOf(db, specs[0].flight))
        && !Taken(db.tickets, specs[0])
        && Bookable(WithTicket(db, b), specs[1..])
  {
    var b := Bind(specs[0], o);
    var rest := specs[1..];
    var db' := WithTicket(db, b);
    forall s ensures Taken(db'.tickets, s) <==> Taken(db.tickets, s) || SpecSameSeat(specs[0], s) {
      TakenAppend(db.tickets, b, s);
    }
    assert forall i :: 0 <= i < |rest| ==> rest[i] == specs[i + 1];
    if Bookable(db, specs) {
      forall i, j | 0 <= i < j < |rest| ensures !SpecSameSeat(rest[i], rest[j]) {
        assert !SpecSameSeat(specs[i + 1], specs[j + 1]);
      }
      forall i | 0 <= i < |rest| ensures !Taken(db'.tickets, rest[i]) {
        assert !SpecSameSeat(specs[0], specs[i + 1]);
      }
    }
    if && HasAirplane(db, specs[0].flight) && InRange(specs[0].row, specs[0].seat, AirplaneOf(db, specs[0].flight))
       && !Taken(db.tickets, specs[0])
       && Bookable(db', rest)
    {
      forall i | 0 <= i < |specs| ensures !Taken(db.tickets, specs[i]) {
        if i > 0 {
          assert !Taken(db'.tickets, rest[i - 1]);
        }
      }
      forall i, j | 0 <= i < j < |specs| ensures !SpecSameSeat(specs[i], specs[j]) {
        if i == 0 {
          assert !Taken(db'.tickets, rest[j - 1]);
        } else {
          assert !SpecSameSeat(rest[i - 1], rest[j - 1]);
        }
      }
      forall i | 0 <= i < |specs| ensures HasAirplane(db, specs[i].flight) && InRange(specs[i].row, specs[i].seat, AirplaneOf(db, specs[i].flight)) {
        if i > 0 {
          assert rest[i - 1] == specs[i];
        }
      }
    }
  }

  /** The transaction's loop writes every ticket exactly when the specs are
      bookable: all in range on stored flights, none taken, none twice. */
  lemma {:induction false} BatchErrorIff(db: Db, specs: seq<TicketSpec>, o: Id)
    requires o in db.orders
    ensures BatchError(db, specs, o) == None <==> Bookable(db, specs)
    decreases |specs|
  {
    if specs != [] {
      var b := Bind(specs[0], o);
      BookableCons(db, specs, o);
      BookedIsTaken(db.tickets, specs[0], o);
      BatchErrorIff(WithTicket(db, b), specs[1..], o);
    }
  }

  /** Creating an order succeeds exactly when the ticket list is non-empty
      and bookable. */
  lemma CreateOrderAcceptedIff(db: Db, user: Id, specs: seq<TicketSpec>)
    ensures CreateOrderError(db, user, specs) == None <==> specs != [] && Bookable(db, specs)
  {
    if specs != [] {
      var db1 := NewOrder(db, user);
      BatchErrorIff(db1, specs, db.nextId);
      assert Bookable(db1, specs) <==> Bookable(db, specs);
      if FirstSpecError(db, specs) != None {
        var i :| 0 <= i < |specs| && ValidateSpec(db, specs[i]) != None;
      }
    }
  }

  /** Two specs of one request for the same seat make the whole request fail,
      even though neither seat was taken before. */
  lemma SameSeatTwiceRejected(db: Db, user: Id, specs: seq<TicketSpec>, i: int, j: int)
    requires 0 <= i < j < |specs| && SpecSameSeat(specs[i], specs[j])
    ensures CreateOrderError(db, user, specs) != None
  {
    CreateOrderAcceptedIff(db, user, specs);
  }

  /** The loop of the transaction keeps the database consistent. */
  lemma {:induction false} BatchKeepsConsistent(db: Db, specs: seq<TicketSpec>, o: Id)
    requires Consistent(db) && BatchError(db, specs, o) == None
    ensures Consistent(db.(tickets := db.tickets + BindAll(specs, o)))
    decreases |specs|
  {
    if specs == [] {
      assert db.tickets + BindAll(specs, o) == db.tickets;
    } else {
      var b := Bind(specs[0], o);
      SaveKeepsConsistent(db, b);
      BatchKeepsConsistent(WithTicket(db, b), specs[1..], o);
      assert db.tickets + BindAll(specs, o) == (db.tickets + [b]) + BindAll(specs[1..], o);
    }
  }

  lemma NewOrderKeepsConsistent(db: Db, user: Id)
    requires Consistent(db)
    ensures Consistent(NewOrder(db, user)) && db.nextId !in db.orders
  {
    var db1 := NewOrder(db, user);
    forall i | 0 <= i < |db1.tickets| ensures TicketOk(db1, db1.tickets[i]) {
      assert TicketOk(db, db.tickets[i]);
    }
  }

  /** A successful order leaves the database consistent: in particular no
      two tickets share a seat, and every new ticket's seat is in range. */
  lemma OrderKeepsConsistent(db: Db, user: Id, specs: seq<TicketSpec>)
    requires Consistent(db) && CreateOrderError(db, user, specs) == None
    ensures Consistent(OrderPlaced(db, user, specs))
  {
    NewOrderKeepsConsistent(db, user);
    BatchKeepsConsistent(NewOrder(db, user), specs, db.nextId);
  }

  // ---------------------------------------------------------------------
  // Counting tickets per flight

  /** How many specs of the request name flight `f`. */
  function SpecsOn(specs: seq<TicketSpec>, f: Id): nat
    decreases |specs|
  {
    if specs == [] then 0
    else (if specs[0].flight == f then 1 else 0) + SpecsOn(specs[1..], f)
  }

  lemma {:induction false} CountBindAll(specs: seq<TicketSpec>, o: Id, f: Id)
    ensures CountOn(BindAll(specs, o), f) == SpecsOn(specs, f)
    decreases |specs|
  {
    if specs != [] {
      CountBindAll(specs[1..], o, f);
      assert BindAll(specs, o)[1..] == BindAll(specs[1..], o);
    }
  }

  /** A successful order adds, for each flight, one ticket per spec naming it. */
  lemma OrderCounts(db: Db, user: Id, specs: seq<TicketSpec>, f: Id)
    ensures CountOn(OrderPlaced(db, user, specs).tickets, f) == CountOn(db.tickets, f) + SpecsOn(specs, f)
  {
    CountOnAppend(db.tickets, BindAll(specs, db.nextId), f);
    CountBindAll(specs, db.nextId, f);
  }

  // ---------------------------------------------------------------------
  // The serializers of the admin-only viewsets

  /** `max_length` of every text column. */
  const MaxLength := 255

  /** A `CharField(max_length=255)` of a `ModelSerializer`, for a column
      without `blank=True`: a value that is empty or all whitespace is refused
      as blank; any other value is stripped, and what is left must have at
      most 255 characters and no NUL character (too long is reported first).
      An accepted value is the input without its surrounding whitespace. */
  function CleanText(field: TextField, s: string): (r: Result<string, Error>)
    ensures r.Failure? ==> r.error.InvalidText? && r.error.text == field
    ensures r == Failure(InvalidText(field, Blank)) <==> forall k :: 0 <= k < |s| ==> IsSpace(s[k])
    ensures (exists k :: 0 <= k < |s| && s[k] == '\0') ==> r.Failure?
    ensures r.Success? ==> r.value == Trim(s) && 1 <= |r.value| <= MaxLength
  {
    var t := Trim(s);
    if t == [] then Failure(InvalidText(field, Blank))
    else if |t| > MaxLength then Failure(InvalidText(field, TooLong))
    else if '\0' in t then Failure(InvalidText(field, NullCharacter))
    else
      Success(t)
  }

  /** An accepted value, sent again, is accepted unchanged. */
  lemma CleanTextIdempotent(field: TextField, s: string)
    requires CleanText(field, s).Success?
    ensures CleanText(field, CleanText(field, s).value) == CleanText(field, s)
  {
    TrimIdempotent(s);
  }

  /** `CrewSerializer`: `first_name`, then `last_name`. */
  function CleanCrew(c: Crew): (r: Result<Crew, Error>)
    ensures r.Success? <==> CleanText(CrewFirstName, c.firstName).Success? && CleanText(CrewLastName, c.lastName).Success?
    ensures r.Success? ==> r.value == Crew(Trim(c.firstName), Trim(c.lastName))
    ensures r.Failure? ==> r.error.InvalidText?
    ensures r.Failure? && r.error.text == CrewLastName ==> CleanText(CrewFirstName, c.firstName).Success?
  {
    match CleanText(CrewFirstName, c.firstName)
    case Failure(e) => Failure(e)
    case Success(first) =>
      match CleanText(CrewLastName, c.lastName)
      case Failure(e) => Failure(e)
      case Success(last) => Success(Crew(first, last))
  }

  /** `AirportSerializer`: `name`, then `closes_big_city`. */
  function CleanAirport(a: Airport): (r: Result<Airport, Error>)
    ensures r.Success? <==> CleanText(AirportName, a.name).Success? && CleanText(AirportCity, a.closesBigCity).Success?
    ensures r.Success? ==> r.value == Airport(Trim(a.name), Trim(a.closesBigCity))
    ensures r.Failure? ==> r.error.InvalidText?
    ensures r.Failure? && r.error.text == AirportCity ==> CleanText(AirportName, a.name).Success?
  {
    match CleanText(AirportName, a.name)
    case Failure(e) => Failure(e)
    case Success(name) =>
      match CleanText(AirportCity, a.closesBigCity)
      case Failure(e) => Failure(e)
      case Success(city) => Success(Airport(name, city))
  }

  /** `AirplaneSerializer`: `name`, then `rows` and `seats`. */
  function CleanAirplane(a: Airplane): (r: Result<Airplane, Error>)
    ensures r.Success? <==> CleanText(AirplaneName, a.name).Success? && AirplaneFieldError(a) == None
    ensures r.Success? ==> r.value == a.(name := Trim(a.name)) && AirplaneFieldError(r.value) == None
    ensures r.Failure? ==> r.error.InvalidText? || r.error.BelowMinimum?
    ensures r.Failure? && r.error.BelowMinimum? ==> CleanText(AirplaneName, a.name).Success?
  {
    match CleanText(AirplaneName, a.name)
    case Failure(e) => Failure(e)
    case Success(name) =>
      match AirplaneFieldError(a)
      case Some(e) => Failure(e)
      case None => Success(a.(name := name))
  }

  /** `FlightSerializer`: the route, the airplane, then the crew. The crew
      field is a list of crew keys that may not be empty (the many-to-many
      column has no `blank=True`), and each key must name a stored member. */
  function FlightError(db: Db, f: Flight): (r: Option<Error>)
    ensures r == None <==> FlightOk(db, f) && f.crew != {}
    ensures r == Some(EmptyCrewList) <==> f.route in db.routes && f.airplane in db.airplanes && f.crew == {}
    ensures r != None ==> r.value.NotFound? || r.value == EmptyCrewList
  {
    if f.route !in db.routes then Some(NotFound(RouteTable))
    else if f.airplane !in db.airplanes then Some(NotFound(AirplaneTable))
    else if f.crew == {} then Some(EmptyCrewList)
    else if !(f.crew <= db.crews.Keys) then Some(NotFound(CrewTable))
    else None
  }
}
