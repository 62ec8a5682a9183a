# Booking store of the flight service

This project models the booking core of an airline REST API and proves properties of that model. The API manages airports, routes, airplanes, crews, flights, orders and tickets.

The model covers:

- **Storage layer** (`flight_service/models.py`).
  - The seat range check `Ticket.validate_ticket`, both as written and as intended.
  - `Ticket.clean`, and what `Ticket.save` checks with `full_clean` before it writes.
  - The `(flight, row, seat)` uniqueness of tickets and the `(row, seat)` listing order.
  - The minimums on airplane rows, seats and route distance.
  - The cascading deletes from an airport down to its routes, their flights and their tickets, and from an order to its tickets.
- **Order transaction** (`flight_service/serializers.py`).
  - How `TicketSerializer.validate` checks each requested ticket.
  - The non-empty ticket list and the required `user` field of `OrderSerializer`.
  - The all-or-nothing `OrderSerializer.create`.
  - What the serializers of the admin-only viewsets accept: the text columns (`CharField(max_length=255)`, stripped, never blank), the field minimums, and a flight's non-empty crew.
- **Query layer** (`flight_service/views.py`).
  - The filters of the crew, airport, airplane and flight lists.
  - The `tickets_available` annotation.
  - The scoping of orders and tickets to their owner.
  - `perform_create`, which sets an order's owner.
  - The per-resource permission policy.

Layout:

| file | module | contents |
|---|---|---|
| `common.dfy` | `Common` | `Option`, `Result`, `Filter` and the `Selects` relation. `Selects` says a query keeps exactly the matching rows, in order. |
| `text.dfy` | `Text` | `icontains` as an ASCII case-folded substring test, Python's `str.strip()`, and `int()` on a query parameter. |
| `models.dfy` | `Models` | The schema as the value `Db`, the checks, the consistency invariant and the cascades. |
| `serializers.dfy` | `Serializers` | Ticket specs, the batch of saves inside the order transaction and its all-or-nothing lemmas, and the validation of the admin-only serializers. |
| `views.dfy` | `Views` | The querysets, `TicketsAvailable` and its accounting lemmas, owner scoping and the permission table. |
| `store.dfy` | `Store` | The class `BookingStore`. It has one field per table, and its methods update them in place and keep `Consistent`. |

Where the code and its own tests or declarations disagree, the model follows the code:

- The tests' fixtures (flight_service/tests/sample_functions.py:30 and flight_service/tests/test_airport_api_view.py:239) name the airport's second field `closest_big_city`. flight_service/models.py:14 names it `closes_big_city`, and the model follows models.py.
- `Airplane.airplane_type` and `Flight.airplane` are required foreign keys: neither has `null=True`. Their `on_delete=SET_NULL` is a configuration error that Django refuses. The model keeps both keys required and leaves deleting an airplane or a type out.
- Capacity is not a property of the `Airplane` model. The tests and `AirplaneDetailSerializer` expect one, so the model defines `Capacity` as `rows * seats`.
- The field validators are declared as `validators=MinValueValidator(1)` rather than as a list. The model applies the intended minimum of 1.
- The two defects listed under Findings are modelled twice: once as written, once corrected. Every other member uses the corrected definitions.

Errors are values of `Models.Error`. Django and the REST framework collect every failing check of a request into one validation error. The model reports a single one: the earliest, in the order the checks run.

## Model

| member | source | states |
|---|---|---|
| `Models.AirplaneFieldError` | flight_service/models.py:28-29 | No error exactly when `rows >= 1` and `seats >= 1`. A bad `rows` is reported before a bad `seats`. |
| `Models.RouteFieldError` | flight_service/models.py:86 | No error exactly when `distance >= 1`. |
| `Models.Capacity` | flight_service/tests/test_airport_api_models.py:67-69 | The number of seats, `seats` in each of `rows` rows. For an airplane that passes the field minimums it is at least 1, at least `rows` and at least `seats`. With no rows or no seats it is 0. |
| `Models.ValidateTicketAsWritten` | flight_service/models.py:51-60 | The literal check rejects exactly `1 < row < rows` (reporting the row) and otherwise `1 < seat < seats` (reporting the seat). It accepts everything else. |
| `Models.ValidateTicket` | flight_service/models.py:53-60 | The intended check accepts exactly `1 <= row <= rows` and `1 <= seat <= seats`. The row error comes first and names the bound and the offending value. |
| `Models.AsWrittenInvertsRowCheck` | flight_service/models.py:53-56 | For an edge seat, the literal check accepts every row the intended check rejects, and rejects every interior row the intended check accepts. |
| `Models.AsWrittenAcceptsRowZero` | flight_service/models.py:53-56 | On every airplane, row 0 at seat 1 passes the literal check, while the intended check rejects it with the row error. |
| `Models.AsWrittenBlamesWrongField` | flight_service/tests/test_airport_api_models.py:103-117 | On a 100×10 airplane, for each of the four inputs of the test, the literal check blames a field other than the one the intended check rejects. |
| `Models.TicketCleanAsWritten` | flight_service/models.py:62-68 | For every ticket whose flight is stored, `clean` as written fails on the missing attribute `airport`. |
| `Models.TicketClean` | flight_service/models.py:62-68 | `clean` run against the flight's airplane succeeds exactly when the flight and its airplane are stored and the seat is in range. It never fails on an attribute. |
| `Models.CleanAsWrittenCrashesOnValidTicket` | flight_service/models.py:66 | A concrete in-range ticket on a stored flight: `clean` as written fails, the corrected one succeeds. |
| `Models.Unique` | flight_service/models.py:48 | No two tickets of the table share flight, row and seat. A table of at most one ticket qualifies. |
| `Models.UniqueSymmetric` | flight_service/models.py:48 | Uniqueness holds exactly when no two distinct positions, in either order, hold the same seat. |
| `Models.UniqueAppend` | flight_service/models.py:48 | Appending a ticket keeps the ticket table free of duplicate seats exactly when its seat is not already booked. |
| `Models.UniqueFilter` | flight_service/models.py:48 | Removing tickets keeps the ticket table free of duplicate seats. |
| `Models.FullClean` | flight_service/models.py:70-80 | Passes exactly when the flight (with its airplane) and the order are stored, the seat is in range and the seat is free. Of the failing checks it reports the earliest of `clean_fields`, `clean` and `validate_unique`, so `AlreadyBooked` comes only with a stored flight and an in-range seat. |
| `Models.SaveKeepsConsistent` | flight_service/models.py:70-80 | Writing a ticket that passed `full_clean` keeps the database consistent. |
| `Models.DuplicateSaveFails` | flight_service/tests/test_airport_api_models.py:98-101 | A second ticket for a booked seat is refused, even though its flight, order and range are all valid. |
| `Models.EmptyDbConsistent` | flight_service/models.py:41-49 | The empty database satisfies the invariant. |
| `Models.AirportAddedKeepsConsistent` | flight_service/models.py:12-14 | Storing an airport under the next key keeps the database consistent. |
| `Models.CrewAddedKeepsConsistent` | flight_service/models.py:7-9 | Storing a crew member under the next key keeps the database consistent. |
| `Models.AirplaneAddedKeepsConsistent` | flight_service/models.py:26-30 | Storing an airplane that passes the field minimums under the next key keeps the database consistent, and no stored flight changes airplane. |
| `Models.CountOn` | flight_service/views.py:216 | `Count("tickets")`: at most the number of stored tickets, and zero exactly when no ticket is for the flight. |
| `Models.Listing` | flight_service/models.py:49 | Lists the tickets sorted by `(row, seat)` as a permutation of the tickets given. |
| `Models.WithoutFlights` | flight_service/models.py:44 | Removes the doomed flights and exactly their tickets, keeping the remaining tickets in order, and changes nothing else. |
| `Models.WithoutFlight` | flight_service/models.py:44 | Deleting a flight removes it and exactly the tickets on it, keeping the other tickets in order. Every other flight keeps its value, and the other tables are unchanged. |
| `Models.WithoutOrder` | flight_service/models.py:45 | Deleting an order removes it and exactly its tickets, keeping the other tickets in order. Every other order keeps its user, and the other tables are unchanged. |
| `Models.WithoutRoute` | flight_service/models.py:34 | Deleting a route removes it, exactly its flights and exactly their tickets, keeping the other tickets in order. Every surviving route and flight keeps its value, and the other tables are unchanged. |
| `Models.WithoutAirport` | flight_service/models.py:84-85 | Deleting an airport removes it, the routes from or to it, their flights and exactly those flights' tickets, keeping the other tickets in order. Every surviving airport, route and flight keeps its value, and the other tables are unchanged. |
| `Models.WithoutFlightsKeepsConsistent` | flight_service/models.py:44 | Removing any set of flights with their tickets keeps the database consistent. |
| `Models.WithoutFlightKeepsConsistent` | flight_service/models.py:44 | The flight cascade keeps the database consistent. |
| `Models.WithoutOrderKeepsConsistent` | flight_service/models.py:45 | The order cascade keeps the database consistent. |
| `Models.WithoutRouteKeepsConsistent` | flight_service/models.py:34 | The route cascade keeps the database consistent. |
| `Models.WithoutAirportKeepsConsistent` | flight_service/models.py:84-85 | The airport cascade keeps the database consistent. |
| `Text.ContainsIff` | flight_service/views.py:58-59 | The left-to-right substring search succeeds exactly when the pattern occurs at some index. |
| `Text.IContains` | flight_service/views.py:58-59 | `icontains`: holds exactly when the lower-cased pattern occurs at some index of the lower-cased value. The empty pattern is contained in every value. |
| `Text.ParseInt` | flight_service/views.py:154 | `int()` succeeds exactly on an optional sign followed by at least one decimal digit. |
| `Text.ParseIntShowNat` | flight_service/views.py:154 | `int(str(n)) == n` and `int("-" + str(n)) == -n`. |
| `Serializers.BindAll` | flight_service/serializers.py:168-169 | One ticket per spec, in input order, each carrying its spec's flight, row and seat and bound to the order. |
| `Serializers.ValidateSpec` | flight_service/serializers.py:79-84 | A spec passes exactly when its flight and that flight's airplane are stored and its seat is in range for that airplane. |
| `Serializers.BoundariesAgree` | flight_service/serializers.py:79-84 | The API check accepts a spec exactly when `Ticket.clean` accepts the ticket built from it, and rejects it otherwise with the same error. |
| `Serializers.FirstSpecError` | flight_service/serializers.py:158 | The list validates exactly when every spec validates. The error reported is one of the specs' own errors. |
| `Serializers.BatchError` | flight_service/serializers.py:168-169 | The loop of saves, one per spec, each seeing the tickets written before it. Its error can only be a save's validation error: a missing row, a seat out of range, or a booked seat. |
| `Serializers.BatchErrorIff` | flight_service/serializers.py:165-170 | The loop of saves writes every ticket exactly when every spec is in range on a stored flight, no spec's seat is booked, and no two specs name the same seat. |
| `Serializers.NewOrder` | flight_service/serializers.py:167 | The order is stored under the next key, owned by the given user. Every other order and every other table is unchanged, and the key counter moves past it. |
| `Serializers.CreateOrderError` | flight_service/serializers.py:157-170 | `EmptyTicketList` is reported exactly for an empty list. If any spec fails the serializer's validation, the request fails with a missing row or an out-of-range seat, never with a booked seat. |
| `Serializers.OrderPlaced` | flight_service/serializers.py:164-170 | After a successful order there is exactly one new order, owned by the user. Exactly one ticket per spec is appended after the stored tickets, in input order, with the spec's flight, row and seat. Nothing else changes. |
| `Serializers.OrderRequestError` | flight_service/serializers.py:157-162 | A request is accepted exactly when it names a user and the order could be created. A missing user is reported exactly when the ticket list is non-empty and valid. |
| `Serializers.CreateOrderAcceptedIff` | flight_service/serializers.py:157-170 | Creating an order succeeds exactly when the ticket list is non-empty and bookable, in both directions. |
| `Serializers.SameSeatTwiceRejected` | flight_service/serializers.py:168-169 | Two specs in one request for the same seat make the whole request fail. |
| `Serializers.BatchKeepsConsistent` | flight_service/serializers.py:168-169 | A loop of saves that all succeed leaves the database consistent. |
| `Serializers.NewOrderKeepsConsistent` | flight_service/serializers.py:167 | Creating the order keeps the database consistent, and its key is fresh. |
| `Serializers.OrderKeepsConsistent` | flight_service/serializers.py:164-170 | A successful order leaves the database consistent. In particular, seats stay unique and every new seat is in range. |
| `Serializers.OrderCounts` | flight_service/serializers.py:164-170 | After a successful order, each flight has as many more tickets as there are specs naming it. |
| `Serializers.CleanText` | flight_service/models.py:8-9 | A `CharField(max_length=255)` value is refused as blank exactly when it is all whitespace. A value holding a NUL character is refused. Any refusal names the field. An accepted value is the input without surrounding whitespace, 1 to 255 characters long. |
| `Serializers.CleanTextIdempotent` | flight_service/models.py:8-9 | An accepted value, sent again, is accepted unchanged. |
| `Serializers.CleanCrew` | flight_service/serializers.py:17-20 | Accepts exactly when both names pass, and stores both stripped. A last-name error is reported only when the first name passes. |
| `Serializers.CleanAirport` | flight_service/serializers.py:23-26 | Accepts exactly when the name and `closes_big_city` pass, and stores both stripped. A city error is reported only when the name passes. |
| `Serializers.CleanAirplane` | flight_service/serializers.py:118-121 | Accepts exactly when the name passes and `rows` and `seats` are at least 1, and stores the name stripped. A minimum error is reported only when the name passes. |
| `Serializers.FlightError` | flight_service/serializers.py:49-52 | Accepts exactly when the route, the airplane and every crew member are stored and the crew is not empty. The empty-crew error comes exactly when route and airplane are stored and the crew is empty. |
| `Views.CrewQueryset` | flight_service/views.py:52-61 | For a non-empty `search`, keeps exactly the crew (in order) whose first or last name contains it, ignoring case. Otherwise returns every row. |
| `Views.AirportQueryset` | flight_service/views.py:81-88 | For a non-empty `name`, keeps exactly the airports (in order) whose name contains it, ignoring case. Otherwise returns every row. |
| `Views.AirplaneQueryset` | flight_service/views.py:146-160 | Fails exactly when a non-empty `type` is not an integer. Otherwise keeps exactly the airplanes, in order, that pass each given filter: the exact type id and the name substring. |
| `Views.ByDate` | flight_service/views.py:202-204 | With a date, keeps exactly the flights departing on it, in order. Otherwise keeps every row. |
| `Views.ByEnd` | flight_service/views.py:206-212 | With a non-empty parameter, keeps exactly the flights (in order) whose source or destination airport name contains it, ignoring case. Otherwise keeps every row. |
| `Views.TicketsAvailable` | flight_service/views.py:214-218 | Free seats of a flight: never above its airplane's capacity, and equal to it exactly when no ticket is for that flight. |
| `Views.Annotate` | flight_service/views.py:214-218 | Each listed flight, in order, carries `rows * seats - count of its tickets`. |
| `Views.FlightQueryset` | flight_service/views.py:191-218 | Keeps exactly the flights matching every given filter (date, source, destination), in order, each annotated with its free seats. |
| `Views.BookingLowersAvailability` | flight_service/views.py:214-218 | Writing one ticket lowers its flight's `tickets_available` by exactly 1 and leaves every other flight's value unchanged. |
| `Views.OrderLowersAvailability` | flight_service/tests/test_airport_api_view.py:112-116 | A successful order lowers each flight's `tickets_available` by the number of specs naming that flight. |
| `Views.SeatsHeldCount` | flight_service/models.py:48 | With unique seats in range, the booked positions of a flight are as many as its tickets, and each lies within the seat map. |
| `Views.AvailabilityNonNegative` | flight_service/views.py:216 | In a consistent database, `tickets_available` is between 0 and the airplane's capacity. |
| `Views.SaveNeedsFreeSeat` | flight_service/models.py:70-80 | A ticket that passes `full_clean` on a consistent database finds at least one free seat on its flight. |
| `Views.OrderQueryset` | flight_service/views.py:123-124 | Lists exactly the orders, in order, whose user is the requester. |
| `Views.TicketQueryset` | flight_service/views.py:262-263 | Lists exactly the tickets of the requester's orders, with their multiplicities, sorted by `(row, seat)`. |
| `Views.Policy` | flight_service/views.py:47-268 | Anonymous requests get 401 everywhere. Crew is for staff only. A signed-in non-staff user may read but not write airports, airplane types, airplanes, flights and routes (403 on writes). Orders are open to any signed-in user. A write to tickets is never allowed, and a signed-in user gets 405 for one. |
| `Views.PolicyMonotone` | flight_service/tests/test_airport_api_view.py:326-404 | Staff may do everything a signed-in user may, who may do everything an anonymous client may. Staff are refused only ticket writes. |
| `Store.BookingStore.constructor` | flight_service/models.py:7-86 | A new store is empty and consistent. |
| `Store.BookingStore.SaveTicket` | flight_service/models.py:70-80 | Reports `full_clean`'s verdict. On an error nothing changes; otherwise exactly this ticket is appended. |
| `Store.BookingStore.SaveTickets` | flight_service/serializers.py:168-169 | Saves each spec's ticket in order and stops at the first failure, whose error is the batch's. On success, the ticket table grows by exactly the bound specs. Only the ticket table changes. |
| `Store.BookingStore.CreateOrder` | flight_service/serializers.py:164-170 | Fails exactly when `CreateOrderError` reports an error, and then leaves every table as it was. On success it returns the new order's key, and the database is the old one plus that order and one ticket per spec. |
| `Store.BookingStore.PerformCreate` | flight_service/views.py:126-127 | A request without a user is refused, and so is any request `OrderRequestError` rejects; nothing changes then. A new order belongs to the requester, whatever user the payload names. |
| `Store.BookingStore.InsertAirport` | flight_service/models.py:12-14 | Stores the airport under a fresh key and changes nothing else. |
| `Store.BookingStore.AddAirport` | flight_service/serializers.py:23-26 | Refuses exactly what `CleanAirport` refuses and changes nothing then. Otherwise stores the stripped airport under a fresh key. |
| `Store.BookingStore.InsertCrew` | flight_service/models.py:7-9 | Stores the crew member under a fresh key and changes nothing else. |
| `Store.BookingStore.AddCrew` | flight_service/serializers.py:17-20 | Refuses exactly what `CleanCrew` refuses and changes nothing then. Otherwise stores the stripped member under a fresh key. |
| `Store.BookingStore.InsertAirplane` | flight_service/models.py:26-30 | Stores an airplane that passes the field minimums under a fresh key and changes nothing else. |
| `Store.BookingStore.AddAirplane` | flight_service/serializers.py:118-121 | Refuses a bad name, or rows or seats below 1, and leaves every table unchanged. Otherwise stores the airplane, name stripped, under a fresh key. |
| `Store.BookingStore.AddRoute` | flight_service/models.py:83-86 | Refuses a route whose airports are not stored, or whose distance is below 1. Otherwise stores it under a fresh key. |
| `Store.BookingStore.AddFlight` | flight_service/models.py:33-38 | Refuses exactly what `FlightError` refuses: a route, airplane or crew member that is not stored, or an empty crew. Nothing changes then. Otherwise stores the flight under a fresh key. |
| `Store.BookingStore.DeleteFlight` | flight_service/models.py:44 | The state becomes `WithoutFlight` of the old one, and stays consistent. |
| `Store.BookingStore.DeleteOrder` | flight_service/models.py:45 | The state becomes `WithoutOrder` of the old one, and stays consistent. |
| `Store.BookingStore.DeleteRoute` | flight_service/models.py:34 | The state becomes `WithoutRoute` of the old one, and stays consistent. |
| `Store.BookingStore.DeleteAirport` | flight_service/models.py:84-85 | The state becomes `WithoutAirport` of the old one, and stays consistent. |

## Left out

- The AirplaneType table and airplane-type CRUD are not modelled. An airplane's type is only a key that the `type` filter compares.
- Deleting an airplane or an airplane type (`SET_NULL`) is not modelled. Both are declared without `null=True`, which is a configuration error, not behaviour.
- Deleting a crew member is not modelled. It only removes members of the many-to-many relation.
- Updates (`PUT`/`PATCH`) of any resource are not modelled.
- User accounts are outside the model. `Order.user` is an opaque key, and `SET_NULL` on user deletion is not modelled.
- `created_at` timestamps (`auto_now_add`) are not modelled.
- The newest-first order of the order list is not modelled, because `models.py` defines no ordering for orders.
- `__str__` formats are not modelled.
- URL routing, admin registration and pagination (`CustomPagination`) are framework plumbing and are not modelled.
- Output serializers (nested representations, `seats_taken`, `SlugField`) are not modelled. `extend_schema` documentation is not modelled either.
- Date parsing (`datetime.strptime`) is not modelled, and so neither is its failure on a malformed date. `Views.FlightQueryset` takes the parsed date, and the departure date is compared without time-zone conversion.
- Case folding beyond ASCII, and database collations, are not modelled. `icontains` is ASCII lower-casing plus a substring test.
- `int()` accepting surrounding whitespace, underscores and non-ASCII digits is not modelled.
- The internals of the permission classes, including `permissions.py`, are not modelled. `Views.Policy` is the table the viewsets' `permission_classes` and the tests determine.
- Concurrency and transaction isolation are not modelled. `transaction.atomic` is a sequential rollback to the pre-state, including the key counter.
- The model uses one key counter shared by all tables, where the database keeps one sequence per table.
- `Serializers.FirstSpecError`: reports only the first failing spec, where the framework collects the errors of every spec.
- `Models.FullClean`: reports one error. Django's `full_clean` runs `clean_fields`, then `clean`, then `validate_unique` even after an earlier failure, and raises everything it found as one error.
- `Models.FullClean`: a ticket whose flight has no stored airplane is reported as a missing flight. In Django, `clean` would raise `DoesNotExist` on the attribute access, which is not a validation error.
- `Serializers.CleanCrew`, `Serializers.CleanAirport`, `Serializers.CleanAirplane`, `Serializers.FlightError` and `Serializers.OrderRequestError`: each reports the first failing field, in the serializer's field order. The framework reports every failing field.
- `Serializers.CleanText`: when a value is both too long and holds a NUL character, only the length is reported. Input that is not a string is not modelled.
- `Serializers.OrderRequestError`: does not check that the named user exists, because user accounts are outside the model.
- `Serializers.CleanAirplane`: does not check that the airplane type exists, because the AirplaneType table is not modelled.
- `Serializers.FlightError`: the departure and arrival times are taken as parsed; the framework's datetime parsing and its errors are not modelled.
- Integer width is not modelled. The `IntegerField` columns (`rows`, `seats`, `distance`, `row`, `seat`) are 32-bit in the database, `clean_fields` refuses `row` and `seat` values outside that range, and `rows * seats` in the `tickets_available` annotation is computed in SQL. The model's integers are unbounded.
- `Serializers.ValidateSpec`: does not include the framework's own unique-together check of the ticket serializer. A taken seat is refused by `Ticket.save` inside the transaction instead, so whether an order is accepted is the same, but the error may be reported at a later stage.
- The request and response layer is not modelled: status codes other than the policy's, and response bodies.

## Findings

| source | as written | input that shows it | evidently intended | confidence | as-written member | corrected member |
|---|---|---|---|---|---|---|
| flight_service/models.py:53-60 | raises when `1 < row < airplane.rows` (and likewise for seats), the inverse of its own message "Row should be in range (1, rows)" | row 0, seat 1 on any airplane passes (`Models.AsWrittenAcceptsRowZero`); on a 100×10 airplane, row 0 at seat 3 is rejected for its seat instead of its row (`Models.AsWrittenBlamesWrongField`) | reject exactly `row` outside `1..rows` or `seat` outside `1..seats`, row first | not executed | `Models.ValidateTicketAsWritten` | `Models.ValidateTicket` |
| flight_service/models.py:66 | `clean` passes `self.flight.airport` to the range check, and `Flight` has no such attribute | a ticket at row 1, seat 1 on a stored flight with a 10×4 airplane (`Models.CleanAsWrittenCrashesOnValidTicket`) | pass the flight's airplane, as `TicketSerializer.validate` does at flight_service/serializers.py:82 | not executed | `Models.TicketCleanAsWritten` | `Models.TicketClean` |
