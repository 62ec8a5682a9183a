/** The query layer of the API: what each viewset's `get_queryset` returns for
    the query parameters of a request, the `tickets_available` annotation of
    the flight list, the owner scoping of orders and tickets, and the
    per-resource permission policy. A queryset is the sequence of primary
    keys (or ticket rows) the database returns, in the database's order. */
module Views {
  import opened Common
  import opened Text
  import opened Models
  import opened Serializers

  /** Python's truth test on a query parameter: present and non-empty. */
  predicate Given(p: Option<string>)
  {
    p.Some? && p.value != ""
  }

  // ---------------------------------------------------------------------
  // Crew and airports

  predicate CrewMatches(crews: map<Id, Crew>, k: Id, search: string)
  {
    k in crews && (IContains(crews[k].firstName, search) || IContains(crews[k].lastName, search))
  }

  /** `CrewViewSet.get_queryset`: a non-empty `search` keeps the crew whose
      first or last name contains it, ignoring case; otherwise every row. */
  function CrewQueryset(crews: map<Id, Crew>, qs: seq<Id>, search: Option<string>): (r: seq<Id>)
    ensures !Given(search) ==> r == qs
    ensures Given(search) ==> Selects(r, qs, (k: Id) => CrewMatches(crews, k, search.value))
    ensures Given(search) ==> forall k :: k in r <==>
      k in qs && k in crews && (IContains(crews[k].firstName, search.value) || IContains(crews[k].lastName, search.value))
  {
    if Given(search) then Filter(qs, (k: Id) => CrewMatches(crews, k, search.value)) else qs
  }

  predicate AirportMatches(airports: map<Id, Airport>, k: Id, name: string)
  {
    k in airports && IContains(airports[k].name, name)
  }

  /** `AirportViewSet.get_queryset`: a non-empty `name` keeps the airports
      whose name contains it, ignoring case; otherwise every row. */
  function AirportQueryset(airports: map<Id, Airport>, qs: seq<Id>, name: Option<string>): (r: seq<Id>)
    ensures !Given(name) ==> r == qs
    ensures Given(name) ==> Selects(r, qs, (k: Id) => AirportMatches(airports, k, name.value))
    ensures Given(name) ==> forall k :: k in r <==> k in qs && k in airports && IContains(airports[k].name, name.value)
  {
    if Given(name) then Filter(qs, (k: Id) => AirportMatches(airports, k, name.value)) else qs
  }

  // ---------------------------------------------------------------------
  // Airplanes

  /** A query parameter the view cannot convert: `int()` raises `ValueError`. */
  datatype QueryError = NotAnInteger(param: string)

  /** The airplane passes the `type` filter (an exact type id, when one was
      given) and the `name` filter (a substring, ignoring case, when given). */
  predicate AirplaneMatches(airplanes: map<Id, Airplane>, k: Id, typeId: Option<int>, name: Option<string>)
  {
    && (typeId.Some? ==> k in airplanes && airplanes[k].airplaneType == typeId.value)
    && (Given(name) ==> k in airplanes && IContains(airplanes[k].name, name.value))
  }

  /** `AirplaneViewSet.get_queryset`: the `type` filter, then the `name`
      filter, each narrowing the queryset only when its parameter is given.
      A `type` that is not an integer makes the request fail. */
  method AirplaneQueryset(airplanes: map<Id, Airplane>, qs: seq<Id>, typeParam: Option<string>, name: Option<string>)
    returns (r: Result<seq<Id>, QueryError>)
    ensures r.Failure? <==> Given(typeParam) && ParseInt(typeParam.value) == None
    ensures r.Success? ==>
      var typeId := if Given(typeParam) then ParseInt(typeParam.value) else None;
      Selects(r.value, qs, (k: Id) => AirplaneMatches(airplanes, k, typeId, name))
  {
    var typeId: Option<int> := None;
    var q := qs;
    SelectsAll(qs, (k: Id) => true);
    ghost var prev := q;
    if Given(typeParam) {
      typeId := ParseInt(typeParam.value);
      if typeId == None {
        return Failure(NotAnInteger("type"));
      }
      var n := typeId.value;
      q := Filter(q, (k: Id) => k in airplanes && airplanes[k].airplaneType == n);
      SelectsThen(qs, prev, q, (k: Id) => true, (k: Id) => k in airplanes && airplanes[k].airplaneType == n,
        (k: Id) => AirplaneMatches(airplanes, k, typeId, None));
    } else {
      SelectsSame(q, qs, (k: Id) => true, (k: Id) => AirplaneMatches(airplanes, k, typeId, None));
    }
    prev := q;
    if Given(name) {
      var s := name.value;
      q := Filter(q, (k: Id) => k in airplanes && IContains(airplanes[k].name, s));
      SelectsThen(qs, prev, q, (k: Id) => AirplaneMatches(airplanes, k, typeId, None),
        (k: Id) => k in airplanes && IContains(airplanes[k].name, s), (k: Id) => AirplaneMatches(airplanes, k, typeId, name));
    } else {
      SelectsSame(q, qs, (k: Id) => AirplaneMatches(airplanes, k, typeId, None), (k: Id) => AirplaneMatches(airplanes, k, typeId, name));
    }
    return Success(q);
  }

  // ---------------------------------------------------------------------
  // Flights

  /** `F("airplane__rows") * F("airplane__seats") - Count("tickets")`. */
  function TicketsAvailable(db: Db, f: Id): (r: int)
    requires HasAirplane(db, f)
    ensures r <= Capacity(AirplaneOf(db, f))
    ensures r == Capacity(AirplaneOf(db, f)) <==> forall i :: 0 <= i < |db.tickets| ==> db.tickets[i].flight != f
  {
    Capacity(AirplaneOf(db, f)) - CountOn(db.tickets, f)
  }

  /** One row of the flight list: the flight and its annotation. */
  datatype FlightRow = FlightRow(flight: Id, ticketsAvailable: int)

  predicate DateOk(db: Db, k: Id, date: Option<Date>)
  {
    date.Some? ==> k in db.flights && db.flights[k].departure.date == date.value
  }

  /** The name of the airport at one end of the flight's route, if stored. */
  function EndName(db: Db, k: Id, source: bool): Option<string>
  {
    if k in db.flights && db.flights[k].route in db.routes then
      var rt := db.routes[db.flights[k].route];
      var a := if source then rt.source else rt.destination;
      if a in db.airports then Some(db.airports[a].name) else None
    else None
  }

  predicate EndOk(db: Db, k: Id, source: bool, p: Option<string>)
  {
    Given(p) ==> EndName(db, k, source).Some? && IContains(EndName(db, k, source).value, p.value)
  }

  /** The flight departs on `date` (when given), and its source and
      destination airports' names contain `source` and `destination` (when
      given), ignoring case. */
  predicate FlightMatches(db: Db, k: Id, date: Option<Date>, source: Option<string>, destination: Option<string>)
  {
    DateOk(db, k, date) && EndOk(db, k, true, source) && EndOk(db, k, false, destination)
  }

  function Ids(rows: seq<FlightRow>): (r: seq<Id>)
    ensures |r| == |rows| && forall i :: 0 <= i < |rows| ==> r[i] == rows[i].flight
  {
    seq(|rows|, i requires 0 <= i < |rows| => rows[i].flight)
  }

  /** The `date` filter of the flight list, applied when a date is given. */
  function ByDate(db: Db, q: seq<Id>, date: Option<Date>): (r: seq<Id>)
    ensures Selects(r, q, (k: Id) => DateOk(db, k, date))
  {
    if date.Some? then
      var d := date.value;
      var r := Filter(q, (k: Id) => k in db.flights && db.flights[k].departure.date == d);
      SelectsSame(r, q, (k: Id) => k in db.flights && db.flights[k].departure.date == d, (k: Id) => DateOk(db, k, date));
      r
    else
      SelectsAll(q, (k: Id) => DateOk(db, k, date));
      q
  }

  /** The `source` (or `destination`) filter: the name of the airport at that
      end of the route contains the parameter, ignoring case. */
  function ByEnd(db: Db, q: seq<Id>, source: bool, p: Option<string>): (r: seq<Id>)
    ensures Selects(r, q, (k: Id) => EndOk(db, k, source, p))
  {
    if Given(p) then
      var s := p.value;
      var r := Filter(q, (k: Id) => EndName(db, k, source).Some? && IContains(EndName(db, k, source).value, s));
      SelectsSame(r, q, (k: Id) => EndName(db, k, source).Some? && IContains(EndName(db, k, source).value, s),
        (k: Id) => EndOk(db, k, source, p));
      r
    else
      SelectsAll(q, (k: Id) => EndOk(db, k, source, p));
      q
  }

  /** The `tickets_available` annotation of each listed flight. */
  function Annotate(db: Db, q: seq<Id>): (r: seq<FlightRow>)
    requires forall k :: k in q ==> HasAirplane(db, k)
    ensures Ids(r) == q
    ensures forall i :: 0 <= i < |r| ==> HasAirplane(db, r[i].flight) && r[i].ticketsAvailable == TicketsAvailable(db, r[i].flight)
  {
    var r := seq(|q|, i requires 0 <= i < |q| => FlightRow(q[i], TicketsAvailable(db, q[i])));
    assert Ids(r) == q;
    r
  }

  /** `FlightViewSet.get_queryset`: the `date`, `source` and `destination`
      filters in that order, each narrowing the queryset only when given,
      then every remaining flight annotated with its free seats. `date` is
      the already parsed `YYYY-MM-DD` value. */
  method FlightQueryset(db: Db, qs: seq<Id>, date: Option<Date>, source: Option<string>, destination: Option<string>)
    returns (r: seq<FlightRow>)
    requires forall i :: 0 <= i < |qs| ==> HasAirplane(db, qs[i])
    ensures Selects(Ids(r), qs, (k: Id) => FlightMatches(db, k, date, source, destination))
    ensures forall i :: 0 <= i < |r| ==> HasAirplane(db, r[i].flight) && r[i].ticketsAvailable == TicketsAvailable(db, r[i].flight)
  {
    var q := qs;
    q := ByDate(db, q, date);
    ghost var afterDate := q;
    q := ByEnd(db, q, true, source);
    SelectsThen(qs, afterDate, q, (k: Id) => DateOk(db, k, date), (k: Id) => EndOk(db, k, true, source),
      (k: Id) => DateOk(db, k, date) && EndOk(db, k, true, source));
    ghost var afterSource := q;
    q := ByEnd(db, q, false, destination);
    SelectsThen(qs, afterSource, q, (k: Id) => DateOk(db, k, date) && EndOk(db, k, true, source),
      (k: Id) => EndOk(db, k, false, destination), (k: Id) => FlightMatches(db, k, date, source, destination));
    assert forall k :: k in q ==> k in qs by {
      forall k | k in q ensures k in qs {
        assert multiset(q)[k] > 0;
      }
    }
    r := Annotate(db, q);
  }

  /** Writing one ticket lowers the free seats of its flight by exactly one
      and leaves every other flight's count as it was. */
  lemma BookingLowersAvailability(db: Db, t: Ticket, g: Id)
    requires HasAirplane(db, g)
    ensures HasAirplane(WithTicket(db, t), g)
    ensures TicketsAvailable(WithTicket(db, t), g) == TicketsAvailable(db, g) - (if g == t.flight then 1 else 0)
  {
    CountOnAppend(db.tickets, [t], g);
    assert CountOn([t], g) == (if t.flight == g then 1 else 0) + CountOn([], g);
  }

  /** A successful order lowers each flight's free seats by the number of
      specs naming that flight. */
  lemma OrderLowersAvailability(db: Db, user: Id, specs: seq<TicketSpec>, g: Id)
    requires HasAirplane(db, g)
    ensures HasAirplane(OrderPlaced(db, user, specs), g)
    ensures TicketsAvailable(OrderPlaced(db, user, specs), g) == TicketsAvailable(db, g) - SpecsOn(specs, g)
  {
    OrderCounts(db, user, specs, g);
  }

  // ---------------------------------------------------------------------
  // Free seats never run out below zero

  /** The position of a seat in the airplane's seat map, counted from 0. */
  function SeatIndex(a: Airplane, t: Ticket): int
  {
    (t.row - 1) * a.seats + (t.seat - 1)
  }

  lemma MulStep(x: int, y: int, c: int)
    requires x < y && c >= 1
    ensures x * c + c <= y * c
  {
    assert y * c == x * c + (y - x) * c;
    MulAtLeast(y - x, c);
  }

  lemma {:induction false} MulAtLeast(k: int, c: int)
    requires k >= 1 && c >= 0
    ensures k * c >= c
    decreases k
  {
    if k > 1 {
      MulAtLeast(k - 1, c);
      assert k * c == (k - 1) * c + c;
    }
  }

  lemma SeatIndexBounds(a: Airplane, t: Ticket)
    requires InRange(t.row, t.seat, a)
    ensures 0 <= SeatIndex(a, t) < Capacity(a)
  {
    assert (t.row - 1) * a.seats >= 0;
    if t.row < a.rows {
      MulStep(t.row - 1, a.rows - 1, a.seats);
    }
    assert Capacity(a) == (a.rows - 1) * a.seats + a.seats;
  }

  /** Two in-range seats with the same position are the same seat. */
  lemma SeatIndexInjective(a: Airplane, t: Ticket, u: Ticket)
    requires InRange(t.row, t.seat, a) && InRange(u.row, u.seat, a)
    requires SeatIndex(a, t) == SeatIndex(a, u)
    ensures t.row == u.row && t.seat == u.seat
  {
    if t.row < u.row {
      MulStep(t.row - 1, u.row - 1, a.seats);
    } else if u.row < t.row {
      MulStep(u.row - 1, t.row - 1, a.seats);
    }
  }

  /** The positions of the seats held on flight `f`. */
  function SeatsHeld(ts: seq<Ticket>, f: Id, a: Airplane): (r: set<int>)
    ensures forall x :: x in r ==> exists i :: 0 <= i < |ts| && ts[i].flight == f && SeatIndex(a, ts[i]) == x
    decreases |ts|
  {
    if ts == [] then {}
    else
      var rest := SeatsHeld(ts[1..], f, a);
      assert forall i :: 1 <= i < |ts| ==> ts[1..][i - 1] == ts[i];
      (if ts[0].flight == f then {SeatIndex(a, ts[0])} else {}) + rest
  }

  /** Distinct tickets in range hold distinct positions, so there are as
      many positions as tickets on the flight. */
  lemma {:induction false} SeatsHeldCount(ts: seq<Ticket>, f: Id, a: Airplane)
    requires Unique(ts)
    requires forall i :: 0 <= i < |ts| && ts[i].flight == f ==> InRange(ts[i].row, ts[i].seat, a)
    ensures |SeatsHeld(ts, f, a)| == CountOn(ts, f)
    ensures forall x :: x in SeatsHeld(ts, f, a) ==> 0 <= x < Capacity(a)
    decreases |ts|
  {
    if ts != [] {
      var rest := ts[1..];
      assert forall i :: 0 <= i < |rest| ==> rest[i] == ts[i + 1];
      assert Unique(rest) by {
        forall i, j | 0 <= i < j < |rest| ensures !SameSeat(rest[i], rest[j]) {
          assert !SameSeat(ts[i + 1], ts[j + 1]);
        }
      }
      SeatsHeldCount(rest, f, a);
      if ts[0].flight == f {
        SeatIndexBounds(a, ts[0]);
        if SeatIndex(a, ts[0]) in SeatsHeld(rest, f, a) {
          var i :| 0 <= i < |rest| && rest[i].flight == f && SeatIndex(a, rest[i]) == SeatIndex(a, ts[0]);
          SeatIndexInjective(a, ts[0], rest[i]);
          assert SameSeat(ts[0], ts[i + 1]);
          assert false;
        }
      }
    }
  }

  /** `{0, ..., n - 1}`. */
  function Below(n: nat): (r: set<int>)
    ensures |r| == n
    ensures forall x :: x in r <==> 0 <= x < n
  {
    if n == 0 then {} else Below(n - 1) + {n - 1}
  }

  /** In a consistent database no flight has more tickets than seats. */
  lemma AvailabilityNonNegative(db: Db, f: Id)
    requires Consistent(db) && HasAirplane(db, f)
    ensures 0 <= TicketsAvailable(db, f) <= Capacity(AirplaneOf(db, f))
  {
    var a := AirplaneOf(db, f);
    SeatsHeldCount(db.tickets, f, a);
    var held := SeatsHeld(db.tickets, f, a);
    var all := Below(Capacity(a));
    assert held <= all;
    assert all == held + (all - held);
  }

  /** A ticket is only ever written to a flight with a free seat. */
  lemma SaveNeedsFreeSeat(db: Db, t: Ticket)
    requires Consistent(db) && FullClean(db, t) == None
    ensures TicketsAvailable(db, t.flight) >= 1
  {
    SaveKeepsConsistent(db, t);
    BookingLowersAvailability(db, t, t.flight);
    AvailabilityNonNegative(WithTicket(db, t), t.flight);
  }

  // ---------------------------------------------------------------------
  // Owner scoping

  /** `OrderViewSet.get_queryset`: the orders whose user is the requester. */
  function OrderQueryset(orders: map<Id, Order>, qs: seq<Id>, requester: Id): (r: seq<Id>)
    ensures Selects(r, qs, (k: Id) => k in orders && orders[k].user == requester)
    ensures forall k :: k in r <==> k in qs && k in orders && orders[k].user == requester
  {
    Filter(qs, (k: Id) => k in orders && orders[k].user == requester)
  }

  predicate OwnedBy(db: Db, t: Ticket, requester: Id)
  {
    t.order in db.orders && db.orders[t.order].user == requester
  }

  /** `TicketViewSet.get_queryset`: the tickets of the requester's orders,
      listed in the model's `(row, seat)` order. */
  function TicketQueryset(db: Db, requester: Id): (r: seq<Ticket>)
    ensures SortedBySeat(r)
    ensures forall t :: multiset(r)[t] == if OwnedBy(db, t, requester) then multiset(db.tickets)[t] else 0
    ensures forall t :: t in r <==> t in db.tickets && OwnedBy(db, t, requester)
  {
    var own := Filter(db.tickets, (t: Ticket) => OwnedBy(db, t, requester));
    assert forall t :: multiset(own)[t] == if OwnedBy(db, t, requester) then multiset(db.tickets)[t] else 0;
    var r := Listing(own);
    assert multiset(r) == multiset(own);
    r
  }

  // ---------------------------------------------------------------------
  // Permissions

  /** Who sends the request: no credentials, a signed-in user, or staff. */
  datatype Role = Anonymous | Member | Admin

  datatype Resource = CrewView | AirportView | AirplaneTypeView | AirplaneView | FlightView | RouteView | OrderView | TicketView

  /** `Read` is list and retrieve; `Write` is create, update and delete. */
  datatype Action = Read | Write

  /** The response status the framework gives before the handler runs:
      200/201, 401, 403 or 405. */
  datatype Decision = Allowed | Unauthorized | Forbidden | MethodNotAllowed

  datatype PermissionClass = IsAdminUser | IsAdminOrAuthenticatedReadOnly | IsAuthenticated

  /** The `permission_classes` of each viewset. */
  function PermissionOf(res: Resource): PermissionClass
  {
    match res
    case CrewView => IsAdminUser
    case OrderView => IsAuthenticated
    case TicketView => IsAuthenticated
    case _ => IsAdminOrAuthenticatedReadOnly
  }

  function Grants(pc: PermissionClass, role: Role, action: Action): bool
  {
    match pc
    case IsAdminUser => role == Admin
    case IsAdminOrAuthenticatedReadOnly => role == Admin || (role == Member && action == Read)
    case IsAuthenticated => role != Anonymous
  }

  /** Authentication and permissions are checked first; only then does a
      read-only viewset refuse a write. */
  function Policy(role: Role, res: Resource, action: Action): (d: Decision)
    ensures role == Anonymous ==> d == Unauthorized
    ensures res == CrewView ==> (d == Allowed <==> role == Admin)
    ensures role == Member && res in {AirportView, AirplaneTypeView, AirplaneView, FlightView, RouteView} ==>
      (d == Allowed <==> action == Read) && (action == Write ==> d == Forbidden)
    ensures res in {OrderView, TicketView} && role != Anonymous && action == Read ==> d == Allowed
    ensures res == OrderView && role != Anonymous ==> d == Allowed
    ensures res == TicketView && action == Write ==> d != Allowed
    ensures res == TicketView && action == Write && role != Anonymous ==> d == MethodNotAllowed
  {
    if !Grants(PermissionOf(res), role, action) then
      if role == Anonymous then Unauthorized else Forbidden
    else if res == TicketView && action == Write then MethodNotAllowed
    else Allowed
  }

  /** Staff can do whatever a signed-in user can, who can do whatever an
      anonymous client can. */
  lemma PolicyMonotone(res: Resource, action: Action)
    ensures Policy(Anonymous, res, action) == Allowed ==> Policy(Member, res, action) == Allowed
    ensures Policy(Member, res, action) == Allowed ==> Policy(Admin, res, action) == Allowed
    ensures Policy(Admin, res, action) == Allowed <==> !(res == TicketView && action == Write)
  {
  }
}
