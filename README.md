# Aircraft selection service — Dafny model

This project models the aircraft query service of Service Oriented Airlines
(`AircraftService`). The service holds a fleet of aircraft records that is
fixed when the service is built, and it answers three read-only queries:

- **getAircraftForLoad(minSeats, minBags, minRangeKm)**: keep the aircraft that
  meet all three minimums, sort the survivors stably by seating capacity, and
  return the first one, or nothing when none qualifies. The range of an
  aircraft is its fuel capacity divided by its burn rate.
- **getMaximumSeatingCapacity()**: the largest seat count in the fleet, or 0
  for an empty fleet.
- **getMaximumCheckedBagCapacity()**: the same for checked bags.

The service's only field is assigned once and never changed, so the fleet is a
`seq<Aircraft>` and every query is a function of it. Modules:

- `Wrappers` (wrappers.dfy): `Option`, for `java.util.Optional`.
- `AircraftEntity` (aircraft.dfy): the `Aircraft` record and its range.
- `SeatOrder` (seat_order.dfy): a stable insertion sort by seats. It stands for
  the stream's `sorted(comparingInt(getSeatingCapacity))`, which is stable.
- `AircraftService` (aircraft_service.dfy): the default fleet, the filter, the
  selection, the two maximum queries and the lemmas about them.
- `DefaultFleet` (default_fleet.dfy): the queries evaluated on the default fleet.

The selection is modelled directly as "the first candidate with the fewest
seats" (`FewestSeatsIndex`). It is proved equal to two independent
definitions:

- the head of the stably sorted candidates, which is the stream pipeline itself;
- a position in the fleet that qualifies, has no more seats than any qualifying
  aircraft, and comes before every other qualifying aircraft with that seat
  count. At most one position satisfies this.

Real numbers replace Java doubles for fuel, burn rate and range.

## Model

| member | source | states |
|---|---|---|
| `AircraftEntity.MaxRange` | src/main/java/com/agrummer/service/AircraftService.java:77-79 | the range times the burn rate is the fuel capacity; the range is non-negative for a non-negative tank |
| `AircraftEntity.RangeReachesIff` | src/main/java/com/agrummer/service/AircraftService.java:48 | the range reaches a minimum exactly when fuel capacity ≥ minimum × burn rate (both directions) |
| `SeatOrder.Insert` | src/main/java/com/agrummer/service/AircraftService.java:49 | inserting adds exactly one element: the result has one more element and the multiset gains exactly `x` |
| `SeatOrder.InsertSorted` | src/main/java/com/agrummer/service/AircraftService.java:49 | inserting into a sequence sorted by seats keeps it sorted |
| `SeatOrder.SortBySeats` | src/main/java/com/agrummer/service/AircraftService.java:49 | the sort by seating capacity is a permutation of its input and is ordered by seats |
| `SeatOrder.InsertStable` | src/main/java/com/agrummer/service/AircraftService.java:49 | inserting never moves an aircraft past another with the same seat count |
| `SeatOrder.SortBySeatsStable` | src/main/java/com/agrummer/service/AircraftService.java:49 | the sort is stable: for every seat count, the aircraft with that count stay in input order |
| `AircraftService.Init` | src/main/java/com/agrummer/service/AircraftService.java:25-33 | the default fleet has five aircraft, each with a positive burn rate |
| `AircraftService.Meets` | src/main/java/com/agrummer/service/AircraftService.java:46-48 | an aircraft meets a load exactly when seats ≥ minSeats, bags ≥ minBags and fuel capacity ≥ minRangeKm × burn rate (range ≥ minRangeKm); no minimum is validated |
| `AircraftService.MeetsRequirementsAppend` | src/main/java/com/agrummer/service/AircraftService.java:45-49 | the filter keeps fleet order and duplicates: filtering a concatenation is concatenating the filtered parts |
| `AircraftService.MeetsRequirements` | src/main/java/com/agrummer/service/AircraftService.java:45-48 | an aircraft is a candidate exactly when it is in the fleet and meets seats, bags and range minimums |
| `AircraftService.FewestSeatsIndex` | src/main/java/com/agrummer/service/AircraftService.java:49-53 | the position holds the fewest seats, and every earlier position has strictly more seats |
| `AircraftService.FirstOfFewestSeats` | src/main/java/com/agrummer/service/AircraftService.java:50-54 | empty exactly when there are no candidates; otherwise a candidate with no more seats than any other candidate, and every candidate before it has strictly more seats (first wins on ties) |
| `AircraftService.GetAircraftForLoad` | src/main/java/com/agrummer/service/AircraftService.java:44-55 | empty exactly when no fleet aircraft meets all three minimums; otherwise a fleet member that meets them, with no more seats than any aircraft that does |
| `AircraftService.FirstFewestQualifyingUnique` | src/main/java/com/agrummer/service/AircraftService.java:49-53 | at most one fleet position is the first qualifying position with the fewest seats |
| `AircraftService.FirstOfFewestSeatsCons` | src/main/java/com/agrummer/service/AircraftService.java:49-53 | with one more candidate in front, that candidate wins when it has no more seats than the previous winner (ties go to the earlier one) |
| `AircraftService.MeetsRequirementsCons` | src/main/java/com/agrummer/service/AircraftService.java:45-48 | the filter keeps the front aircraft exactly when it meets the load, followed by the filtered rest |
| `AircraftService.SelectionIsFirstFewest` | src/main/java/com/agrummer/service/AircraftService.java:45-53 | the selected candidate sits at a fleet position that qualifies, has the fewest qualifying seats, and comes before every other qualifying aircraft with that seat count |
| `AircraftService.GetAircraftForLoadIsFirstFewest` | src/main/java/com/agrummer/service/AircraftService.java:44-55 | when position i is the first qualifying position with the fewest seats, the query returns exactly the aircraft at i |
| `AircraftService.GetAircraftForLoadFirstWins` | src/main/java/com/agrummer/service/AircraftService.java:49-53 | a returned aircraft is at some first-qualifying-fewest-seats position (tie-break: first in fleet order wins) |
| `AircraftService.SortedHeadIsFirstFewest` | src/main/java/com/agrummer/service/AircraftService.java:49-53 | the head of the stable sort by seats is the first aircraft with the fewest seats |
| `AircraftService.GetAircraftForLoadIsHeadOfSorted` | src/main/java/com/agrummer/service/AircraftService.java:45-54 | the query equals the stream pipeline: filter, sort stably by seats, then the first element or empty |
| `AircraftService.MeetsRequirementsAll` | src/main/java/com/agrummer/service/AircraftService.java:45-49 | when every aircraft meets the load, the filter keeps the whole fleet in order |
| `AircraftService.LowMinimumsSelectFewestInFleet` | src/main/java/com/agrummer/service/AircraftService.java:44-49 | minimums are not validated: minimums at or below every aircraft's values, negative ones included, select the fleet-wide first aircraft with the fewest seats |
| `AircraftService.TooManySeatsSelectsNone` | src/main/java/com/agrummer/service/AircraftService.java:45-51 | a seat minimum above every aircraft's seat count yields empty |
| `AircraftService.MaxBy` | src/main/java/com/agrummer/service/AircraftService.java:63 | the stream maximum by a key is a fleet member whose key is at least that of every member |
| `AircraftService.MaximumSeatingCapacity` | src/main/java/com/agrummer/service/AircraftService.java:62-65 | 0 for an empty fleet; otherwise an upper bound on every seat count that some aircraft attains |
| `AircraftService.MaximumCheckedBagCapacity` | src/main/java/com/agrummer/service/AircraftService.java:72-75 | 0 for an empty fleet; otherwise an upper bound on every bag capacity that some aircraft attains |
| `DefaultFleet.DefaultMaximumSeatingCapacity` | src/main/java/com/agrummer/service/AircraftService.java:62-65 | on the default fleet the maximum seating capacity is 36 |
| `DefaultFleet.DefaultMaximumCheckedBagCapacity` | src/main/java/com/agrummer/service/AircraftService.java:72-75 | on the default fleet the maximum checked-bag capacity is 72 |
| `DefaultFleet.DefaultLightLoad` | src/main/java/com/agrummer/service/AircraftService.java:44-55 | on the default fleet, (6, 12, 700 km) yields the Cessna Citation M2 |
| `DefaultFleet.DefaultLongRangeLoad` | src/main/java/com/agrummer/service/AircraftService.java:44-55 | on the default fleet, (18, 36, 3000 km) yields the Beechcraft 1900D; the G200 and the CRJ900 fall short on range |
| `DefaultFleet.DefaultTieGoesToFirst` | src/main/java/com/agrummer/service/AircraftService.java:44-55 | on the default fleet, (18, 36, 0 km) yields the Gulfstream G200, which ties the 1900D on seats and comes first |
| `DefaultFleet.DefaultTooManySeats` | src/main/java/com/agrummer/service/AircraftService.java:44-55 | on the default fleet, (40, 0, 0 km) yields empty |

## Left out

- Floating point: fuel, burn rate, minimum range and range are Dafny `real`, not IEEE-754 `double`. Rounding in the division and in the comparison is not modelled.
- Zero or negative burn rates: every fleet member must have a positive burn rate (`WellFormedFleet`). In Java, `x / 0.0` gives Infinity or NaN, and the source does not guard against it. The model leaves that platform behaviour out rather than pick a policy the code does not have.
- Fleet order: the fleet is a `Collection`, and its iteration order decides ties. The model takes the fleet as a sequence in iteration order. For unordered collections such as a `HashSet`, that order is not defined and is not modelled.
- Java stream machinery: `stream()`, `Collectors.toList`, `Optional` plumbing and `Comparator.comparingInt` are not modelled one to one. The filter is a recursive function and the sort is an insertion sort. Java's list sort is a merge sort; the model only relies on it being stable, and that is proved of `SortBySeats`.
- The `Aircraft` class body (getters, `equals`, `hashCode`) is not part of this model. The record is inferred from its constructor calls and getters and treated as an immutable value.
- Integer width: seat and bag counts are unbounded `int`. The queries only compare them, so Java's 32-bit `int` cannot overflow here.
- The constructor that takes a caller's collection: a fleet is any `seq<Aircraft>` passed to the query functions. The service object itself is not modelled.
