/** The database as a mutable object: one field per table, updated in place by
    `Ticket.save`, the order transaction of `OrderSerializer.create`, the
    `perform_create` of the order viewset, the inserts of the admin-only
    viewsets, and the cascading deletes. Every method is specified by the
    functions on `Db` in `Models` and `Serializers`, and keeps `Consistent`. */
module Store {
  import opened Common
  import opened Models
  import opened Serializers

  class BookingStore {
    var airports: map<Id, Airport>
    var airplanes: map<Id, Airplane>
    var routes: map<Id, Route>
    var crews: map<Id, Crew>
    var flights: map<Id, Flight>
    var orders: map<Id, Order>
    var tickets: seq<Ticket>
    var nextId: Id

    /** The tables as one value. */
    function State(): Db
      reads this
    {
      Db(airports, airplanes, routes, crews, flights, orders, tickets, nextId)
    }

    ghost predicate Valid()
      reads this
    {
      Consistent(State())
    }

    constructor ()
      ensures State() == EmptyDb && Valid()
    {
      airports, airplanes, routes, crews := map[], map[], map[], map[];
      flights, orders, tickets, nextId := map[], map[], [], 0;
      EmptyDbConsistent();
    }

    /** `Ticket.save`: `full_clean` first; on any error nothing is written,
        otherwise exactly this ticket is appended and nothing else changes. */
    method SaveTicket(t: Ticket) returns (e: Option<Error>)
      requires Valid()
      modifies this
      ensures e == FullClean(old(State()), t)
      ensures e == None ==> State() == WithTicket(old(State()), t)
      ensures e != None ==> State() == old(State())
      ensures Valid()
    {
      e := FullClean(State(), t);
      if e == None {
        SaveKeepsConsistent(State(), t);
        tickets := tickets + [t];
      }
    }

    /** The loop of `OrderSerializer.create`: one `Ticket.save` per spec, in
        order, stopping at the first failure. Only the ticket table changes. */
    method SaveTickets(specs: seq<TicketSpec>, o: Id) returns (e: Option<Error>)
      requires Valid()
      modifies this
      ensures e == BatchError(old(State()), specs, o)
      ensures e == None ==> tickets == old(tickets) + BindAll(specs, o)
      ensures State() == old(State()).(tickets := tickets)
      ensures Valid()
    {
      ghost var start := State();
      var i := 0;
      while i < |specs|
        invariant 0 <= i <= |specs|
        invariant Valid()
        invariant State() == start.(tickets := start.tickets + BindAll(specs[..i], o))
        invariant BatchError(start, specs, o) == BatchError(State(), specs[i..], o)
      {
        var b := Bind(specs[i], o);
        ghost var cur := State();
        BatchStep(cur, specs, i, o);
        BindAllSnoc(specs, i, o);
        e := SaveTicket(b);
        if e.Some? {
          return;
        }
        i := i + 1;
      }
      assert specs[..i] == specs;
      return None;
    }

    /** `OrderSerializer.create` after the serializer's validation: inside one
        transaction, create the order, then save one ticket per spec in
        order; the first failing save rolls the whole transaction back. */
    method CreateOrder(user: Id, specs: seq<TicketSpec>) returns (r: Result<Id, Error>)
      requires Valid()
      modifies this
      ensures r.Failure? <==> CreateOrderError(old(State()), user, specs) != None
      ensures r.Failure? ==> Some(r.error) == CreateOrderError(old(State()), user, specs) && State() == old(State())
      ensures r.Success? ==> r.value == old(nextId) && State() == OrderPlaced(old(State()), user, specs)
      ensures Valid()
    {
      if specs == [] {
        return Failure(EmptyTicketList);
      }
      var invalid := FirstSpecError(State(), specs);
      if invalid.Some? {
        return Failure(invalid.value);
      }
      ghost var before := State();
      // transaction.atomic: what a rollback restores
      var savedOrders, savedTickets, savedNext := orders, tickets, nextId;
      var o := nextId;
      NewOrderKeepsConsistent(State(), user);
      orders := orders[o := Order(user)];
      nextId := nextId + 1;
      assert State() == NewOrder(before, user);
      var e := SaveTickets(specs, o);
      if e.Some? {
        orders, tickets, nextId := savedOrders, savedTickets, savedNext;
        return Failure(e.value);
      }
      return Success(o);
    }

    /** `OrderViewSet.create`: `is_valid` (the `tickets` field, then the
        required `user` field), then `perform_create`, which saves the order
        for the requester, whatever user the payload names. */
    method PerformCreate(requester: Id, payload: OrderPayload) returns (r: Result<Id, Error>)
      requires Valid()
      modifies this
      ensures r.Failure? <==> OrderRequestError(old(State()), requester, payload) != None
      ensures r.Failure? ==> Some(r.error) == OrderRequestError(old(State()), requester, payload) && State() == old(State())
      ensures payload.user.None? ==> r.Failure?
      ensures r.Success? ==> State() == OrderPlaced(old(State()), requester, payload.tickets)
      ensures r.Success? ==> r.value in orders && orders[r.value].user == requester
      ensures Valid()
    {
      if payload.user.None? && payload.tickets != [] && FirstSpecError(State(), payload.tickets) == None {
        return Failure(UserRequired);
      }
      r := CreateOrder(requester, payload.tickets);
    }

    // -------------------------------------------------------------------
    // Inserts through the admin-only viewsets

    /** `Airport.objects.create` under the next key. */
    method InsertAirport(a: Airport) returns (k: Id)
      requires Valid()
      modifies this
      ensures k == old(nextId) && State() == old(State()).(airports := old(airports)[k := a], nextId := k + 1)
      ensures Valid()
    {
      AirportAddedKeepsConsistent(State(), a);
      k := nextId;
      airports := airports[k := a];
      nextId := nextId + 1;
    }

    /** `AirportViewSet.create`: the serializer's validation, then the insert;
        the stored airport holds the stripped names. */
    method AddAirport(a: Airport) returns (r: Result<Id, Error>)
      requires Valid()
      modifies this
      ensures r.Failure? <==> CleanAirport(a).Failure?
      ensures r.Failure? ==> r.error == CleanAirport(a).error && State() == old(State())
      ensures r.Success? ==> r.value == old(nextId) && State() == old(State()).(airports := old(airports)[r.value := CleanAirport(a).value], nextId := r.value + 1)
      ensures Valid()
    {
      var v := CleanAirport(a);
      if v.Failure? {
        return Failure(v.error);
      }
      var k := InsertAirport(v.value);
      return Success(k);
    }

    /** `Crew.objects.create` under the next key. */
    method InsertCrew(c: Crew) returns (k: Id)
      requires Valid()
      modifies this
      ensures k == old(nextId) && State() == old(State()).(crews := old(crews)[k := c], nextId := k + 1)
      ensures Valid()
    {
      CrewAddedKeepsConsistent(State(), c);
      k := nextId;
      crews := crews[k := c];
      nextId := nextId + 1;
    }

    /** `CrewViewSet.create`: the serializer's validation, then the insert;
        the stored member holds the stripped names. */
    method AddCrew(c: Crew) returns (r: Result<Id, Error>)
      requires Valid()
      modifies this
      ensures r.Failure? <==> CleanCrew(c).Failure?
      ensures r.Failure? ==> r.error == CleanCrew(c).error && State() == old(State())
      ensures r.Success? ==> r.value == old(nextId) && State() == old(State()).(crews := old(crews)[r.value := CleanCrew(c).value], nextId := r.value + 1)
      ensures Valid()
    {
      var v := CleanCrew(c);
      if v.Failure? {
        return Failure(v.error);
      }
      var k := InsertCrew(v.value);
      return Success(k);
    }

    /** `Airplane.objects.create` under the next key, for an airplane that
        passes its field validators. */
    method InsertAirplane(a: Airplane) returns (k: Id)
      requires Valid() && AirplaneFieldError(a) == None
      modifies this
      ensures k == old(nextId) && State() == old(State()).(airplanes := old(airplanes)[k := a], nextId := k + 1)
      ensures Valid()
    {
      AirplaneAddedKeepsConsistent(State(), a);
      k := nextId;
      airplanes := airplanes[k := a];
      nextId := nextId + 1;
    }

    /** `AirplaneViewSet.create`: the name must pass, then `rows` and `seats`
        must each be at least 1; the stored airplane holds the stripped name. */
    method AddAirplane(a: Airplane) returns (r: Result<Id, Error>)
      requires Valid()
      modifies this
      ensures r.Failure? <==> CleanAirplane(a).Failure?
      ensures r.Failure? ==> r.error == CleanAirplane(a).error && State() == old(State())
      ensures r.Success? ==> r.value == old(nextId) && State() == old(State()).(airplanes := old(airplanes)[r.value := CleanAirplane(a).value], nextId := r.value + 1)
      ensures Valid()
    {
      var v := CleanAirplane(a);
      if v.Failure? {
        return Failure(v.error);
      }
      var k := InsertAirplane(v.value);
      return Success(k);
    }

    /** Both airports must be stored, then `distance` must be at least 1. */
    method AddRoute(rt: Route) returns (r: Result<Id, Error>)
      requires Valid()
      modifies this
      ensures r.Failure? <==> !RouteOk(old(State()), rt)
      ensures r.Failure? ==> State() == old(State())
      ensures r.Failure? && rt.source in airports && rt.destination in airports ==> Some(r.error) == RouteFieldError(rt)
      ensures r.Success? ==> r.value == old(nextId) && State() == old(State()).(routes := old(routes)[r.value := rt], nextId := r.value + 1)
      ensures Valid()
    {
      if rt.source !in airports || rt.destination !in airports {
        return Failure(NotFound(AirportTable));
      }
      var e := RouteFieldError(rt);
      if e.Some? {
        return Failure(e.value);
      }
      var k := nextId;
      routes := routes[k := rt];
      nextId := nextId + 1;
      forall i | 0 <= i < |tickets| ensures TicketOk(State(), tickets[i]) {
        assert TicketOk(old(State()), tickets[i]);
      }
      return Success(k);
    }

    /** The route and the airplane must be stored, and the crew must be a
        non-empty set of stored members. */
    method AddFlight(f: Flight) returns (r: Result<Id, Error>)
      requires Valid()
      modifies this
      ensures r.Failure? <==> FlightError(old(State()), f) != None
      ensures r.Failure? ==> Some(r.error) == FlightError(old(State()), f) && State() == old(State())
      ensures r.Success? ==> r.value == old(nextId) && State() == old(State()).(flights := old(flights)[r.value := f], nextId := r.value + 1)
      ensures Valid()
    {
      var e := FlightError(State(), f);
      if e.Some? {
        return Failure(e.value);
      }
      var k := nextId;
      ghost var db := State();
      flights := flights[k := f];
      nextId := nextId + 1;
      forall i | 0 <= i < |tickets| ensures TicketOk(State(), tickets[i]) {
        assert TicketOk(db, tickets[i]);
      }
      return Success(k);
    }

    // -------------------------------------------------------------------
    // Cascading deletes

    /** Deleting a flight deletes its tickets (`on_delete=CASCADE`). */
    method DeleteFlight(f: Id) returns (found: bool)
      requires Valid()
      modifies this
      ensures found == (f in old(flights))
      ensures found ==> State() == WithoutFlight(old(State()), f)
      ensures !found ==> State() == old(State())
      ensures Valid()
    {
      if f !in flights {
        return false;
      }
      WithoutFlightKeepsConsistent(State(), f);
      var d := WithoutFlight(State(), f);
      flights, tickets := d.flights, d.tickets;
      return true;
    }

    /** Deleting an order deletes its tickets. */
    method DeleteOrder(o: Id) returns (found: bool)
      requires Valid()
      modifies this
      ensures found == (o in old(orders))
      ensures found ==> State() == WithoutOrder(old(State()), o)
      ensures !found ==> State() == old(State())
      ensures Valid()
    {
      if o !in orders {
        return false;
      }
      WithoutOrderKeepsConsistent(State(), o);
      var d := WithoutOrder(State(), o);
      orders, tickets := d.orders, d.tickets;
      return true;
    }

    /** Deleting a route deletes its flights and their tickets. */
    method DeleteRoute(rt: Id) returns (found: bool)
      requires Valid()
      modifies this
      ensures found == (rt in old(routes))
      ensures found ==> State() == WithoutRoute(old(State()), rt)
      ensures !found ==> State() == old(State())
      ensures Valid()
    {
      if rt !in routes {
        return false;
      }
      WithoutRouteKeepsConsistent(State(), rt);
      var d := WithoutRoute(State(), rt);
      routes, flights, tickets := d.routes, d.flights, d.tickets;
      return true;
    }

    /** Deleting an airport deletes the routes from or to it, with their
        flights and tickets. */
    method DeleteAirport(a: Id) returns (found: bool)
      requires Valid()
      modifies this
      ensures found == (a in old(airports))
      ensures found ==> State() == WithoutAirport(old(State()), a)
      ensures !found ==> State() == old(State())
      ensures Valid()
    {
      if a !in airports {
        return false;
      }
      WithoutAirportKeepsConsistent(State(), a);
      var d := WithoutAirport(State(), a);
      airports, routes, flights, tickets := d.airports, d.routes, d.flights, d.tickets;
      return true;
    }
  }
}
