# Booking back end: a Dafny model

This project models the domain core of the `com.reserves` Spring back end.
The back end books rooms (meeting rooms, event halls, auditoriums, …) for a
time interval, prices each booking by the hour, and answers allocation
questions about the spaces.

The model covers:

- The two entities, `Space` and `Reservation`, with their field constraints
  as validity predicates (`Model`). Nullable Java fields are `Option`s.
- Durations as `java.time.Duration` reads them, truncated toward zero
  (`Durations`).
- The repository queries as filters over id-keyed tables (`ReservationRepository`,
  `SpaceRepository`). A query's result is the sub-map of matching rows.
- The store the services work on, and its invariant (`Store`): rows keyed by
  id, every reservation timed with its end after its start, and no two
  active reservations of one space overlapping.
- `ReservationService` and `SpaceService`. Each is a set of pure functions from
  a store to `Result<(new store, saved row)>`. The error kinds are
  `BadRequest`, `NotFound` and `ServerError`; the last stands for an
  unchecked runtime exception such as dereferencing a null price.
- `AllocationService` (`Allocation`, `Intervals`): the conflict test,
  best-fit ranking, the cheapest conflict-free space, the whole-hour cost,
  and the free slots of a space in a time window. The free slots are found by
  merging the booked intervals and taking the gaps between them.
- The legacy `SpaceType` column converter (`SpaceTypeConverter`).
- Two supporting modules. `Sorting` is a stable insertion sort used for
  `Stream.sorted`. `Tables` holds sub-tables and the rows of a table in id
  order.

Units and conventions:

- Times are whole seconds (`Instant = int`).
- Money is whole cents (`Cents = int`): the price columns have scale 2.
- The clock `LocalDateTime.now()` is a parameter `now`.

The source's quirks are modelled as written:

- `bestFitDecreasing`. The comment at `AllocationService.java:62` says the
  ranking is cheapest first. The comparator is reversed as a whole, so the
  code lists the dearer space first, and the larger of two equally priced
  ones. The model follows the code: see `Allocation.BestFitListsDearerFirst`.
- Two hour-rounding rules:
  - `calculateTotalCost` truncates the duration to whole hours and raises
    zero to one;
  - `calculatePrice` takes the ceiling of the whole minutes over 60, at
    least one.

  `Allocation.RoundingRulesCompared` states exactly when they differ.
- `cancel` cancels whatever the prior status.
- `mergeIntervals` merges slots that only touch. The conflict query does not
  count touching intervals as a conflict.

A reservation object built from a request starts with status PENDING
(`Model.NewReservation`). `create` saves it as CONFIRMED.

## Model

| member | source | states |
|---|---|---|
| SpaceTypeConverter.ValueOf | src/main/java/com/reserves/converter/SpaceTypeConverter.java:24 | Enum.valueOf answers the constant whose name is exactly the string, and nothing when no name matches |
| SpaceTypeConverter.UpperCase | src/main/java/com/reserves/converter/SpaceTypeConverter.java:27 | toUpperCase keeps the length and upper-cases each character |
| SpaceTypeConverter.ConvertToEntityAttribute | src/main/java/com/reserves/converter/SpaceTypeConverter.java:19-49 | null or empty reads as null and anything else as some constant; an exact constant name reads as that constant |
| SpaceTypeConverter.ConvertToDatabaseColumn | src/main/java/com/reserves/converter/SpaceTypeConverter.java:11-16 | null is stored as null; reading the stored column back gives the same constant (round trip) |
| SpaceTypeConverter.NameInjective | src/main/java/com/reserves/converter/SpaceTypeConverter.java:15 | distinct constants are stored under distinct names |
| SpaceTypeConverter.KeywordTypeOfName | src/main/java/com/reserves/converter/SpaceTypeConverter.java:26-47 | the keyword fallback maps every constant's name to that constant |
| SpaceTypeConverter.NonEmptyIsTotal | src/main/java/com/reserves/converter/SpaceTypeConverter.java:23-47 | every non-empty string reads as some constant |
| SpaceTypeConverter.CaseInsensitiveName | src/main/java/com/reserves/converter/SpaceTypeConverter.java:26-44 | a string whose upper-casing is a constant name, e.g. "event_hall", reads as that constant |
| SpaceTypeConverter.FallbackIgnoresCase | src/main/java/com/reserves/converter/SpaceTypeConverter.java:27 | two non-name strings that upper-case alike read as the same constant |
| SpaceTypeConverter.KeywordType | src/main/java/com/reserves/converter/SpaceTypeConverter.java:27-47 | the fallback on the upper-cased value: the first keyword group whose keyword it contains decides, and OTHER when none does |
| SpaceTypeConverter.GroupConditions | src/main/java/com/reserves/converter/SpaceTypeConverter.java:28-43 | each constant's keyword list is exactly what the fallback's condition for that constant tests, and OTHER has none |
| SpaceTypeConverter.KeywordPrecedence | src/main/java/com/reserves/converter/SpaceTypeConverter.java:28-45 | for every value, the first group in source order that has a keyword in it decides, and no later group overrides it |
| SpaceTypeConverter.OtherIffNoKeyword | src/main/java/com/reserves/converter/SpaceTypeConverter.java:28-47 | the fallback answers OTHER exactly when no group has a keyword in the value |
| SpaceTypeConverter.MeetingKeywordsComeFirst | src/main/java/com/reserves/converter/SpaceTypeConverter.java:24-30 | any value that is not a constant name and holds "SALA", "REUNIAO" or "MEETING" in any case reads as MEETING_ROOM, whatever other keywords it holds |
| SpaceTypeConverter.SalaDeTreinamentoIsMeetingRoom | src/main/java/com/reserves/converter/SpaceTypeConverter.java:28-39 | "Sala de Treinamento" holds a meeting and a training keyword and reads as MEETING_ROOM |
| SpaceTypeConverter.UnknownIsOther | src/main/java/com/reserves/converter/SpaceTypeConverter.java:20-47 | a non-empty value reads as OTHER exactly when it is "OTHER", or it is not a constant name and holds no keyword of any group |
| Durations.TruncDiv | src/main/java/com/reserves/algorithm/AllocationService.java:287 | Duration.toHours/toMinutes division rounds toward zero: the quotient brackets the dividend from the side of zero |
| Tables.Rows | src/main/java/com/reserves/algorithm/AllocationService.java:140-144 | the rows a query lists are the table's values, each listed as many times as there are rows holding it |
| Sorting.Sort | src/main/java/com/reserves/algorithm/AllocationService.java:149 | Stream.sorted answers a permutation of its input |
| Sorting.SortSorted | src/main/java/com/reserves/algorithm/AllocationService.java:149 | under a total, transitive comparator every element of the sorted list may stay ahead of every later one |
| ReservationRepository.FindConflictingReservations | src/main/java/com/reserves/repository/ReservationRepository.java:22-37 | answers exactly the rows of the space that are not cancelled and start before the end and end after the start |
| ReservationRepository.FindWithFilters | src/main/java/com/reserves/repository/ReservationRepository.java:39-45 | a null space id or status imposes no condition; a given one must equal the row's |
| ReservationRepository.FindBySpaceId | src/main/java/com/reserves/repository/ReservationRepository.java:16 | equality filter on the space id, every status included; a null id finds nothing |
| ReservationRepository.FindByStatus | src/main/java/com/reserves/repository/ReservationRepository.java:18 | equality filter on the status; a null status finds nothing |
| ReservationRepository.FindByUserEmail | src/main/java/com/reserves/repository/ReservationRepository.java:20 | a row is found exactly when its e-mail equals the argument |
| ReservationRepository.FindBySpaceIdAndCreatedAtAfter | src/main/java/com/reserves/repository/ReservationRepository.java:48 | a row is found exactly when it is of the space and created strictly after the instant |
| ReservationRepository.TouchingIsNoConflict | src/main/java/com/reserves/repository/ReservationRepository.java:25-26 | a reservation ending exactly at the start, or starting exactly at the end, is no conflict |
| ReservationRepository.OverlapIsSymmetric | src/main/java/com/reserves/repository/ReservationRepository.java:25-30 | the overlap test gives the same answer with the two intervals swapped |
| ReservationRepository.OverlapMeansSharedInstant | src/main/java/com/reserves/repository/ReservationRepository.java:27-31 | for non-empty intervals, conflicting means sharing an instant, in both directions |
| ReservationRepository.NoFiltersFindsAll | src/main/java/com/reserves/repository/ReservationRepository.java:39-45 | findWithFilters with both filters null answers every reservation |
| ReservationRepository.SingleFilterAgrees | src/main/java/com/reserves/repository/ReservationRepository.java:16-18 | with one filter given, findWithFilters answers what findBySpaceId or findByStatus answers |
| ReservationRepository.ConflictsAreSpaceRows | src/main/java/com/reserves/repository/ReservationRepository.java:22-24 | the conflicts of a space are among the rows findBySpaceId answers for it |
| SpaceRepository.FindByAvailable | src/main/java/com/reserves/repository/SpaceRepository.java:20 | a space is found exactly when its flag equals the argument |
| SpaceRepository.FindByType | src/main/java/com/reserves/repository/SpaceRepository.java:25 | a space is found exactly when its type equals the argument |
| SpaceRepository.FindAvailableSpacesWithFilters | src/main/java/com/reserves/repository/SpaceRepository.java:35-44 | only available spaces, of the given type, with at least the given capacity and at most the given price, each condition only when given |
| SpaceRepository.FiltersNarrowAvailable | src/main/java/com/reserves/repository/SpaceRepository.java:20-44 | with every filter null the query equals findByAvailable(true); otherwise its answer is part of that one |
| SpaceRepository.BoundsAreInclusive | src/main/java/com/reserves/repository/SpaceRepository.java:37-38 | a space at exactly the minimum capacity and the maximum price is found |
| Model.NewReservation | src/main/java/com/reserves/model/Reservation.java:62-70 | a reservation object built from a request has status PENDING, no total price and no creation time, and carries the request's user and times |
| Model.ValidSpace | src/main/java/com/reserves/model/Space.java:32-79 | a stored space has a non-blank name of at most 100 characters, a type, a capacity of at least 1, a price of at least 0.01 that fits decimal(10,2), an availability flag, and optional texts within their column lengths |
| Model.ValidReservation | src/main/java/com/reserves/model/Reservation.java:31-74 | a stored reservation has a non-blank user name and e-mail of at most 100 characters, a phone of at most 20, both times, a total price that fits decimal(10,2), and notes of at most 500 |
| ReservationRepository.IsConflicting | src/main/java/com/reserves/repository/ReservationRepository.java:22-26 | same space, not CANCELLED, starting before the queried end and ending after the queried start; a null time never passes |
| Store.Inv | src/main/java/com/reserves/service/ReservationService.java:122-153 | every row is stored under its own id below the identity counter, every reservation has both times with the end after the start, and no two active reservations of one space overlap |
| Store.ClashIsSymmetric | src/main/java/com/reserves/service/ReservationService.java:135-153 | two reservations clash in either order or in neither |
| Store.EmptyStoreIsValid | src/main/java/com/reserves/service/ReservationService.java:54-118 | the empty store satisfies the no-overlap invariant |
| ReservationService.FindById | src/main/java/com/reserves/service/ReservationService.java:45-48 | the row under the id, or NotFound when there is none |
| ReservationService.ValidateTimes | src/main/java/com/reserves/service/ReservationService.java:122-133 | passes exactly when both times are given, the end is after the start and the start is not before now; BadRequest otherwise |
| ReservationService.CheckConflicts | src/main/java/com/reserves/service/ReservationService.java:135-153 | passes exactly when no reservation other than the excluded one conflicts; BadRequest otherwise |
| ReservationService.BilledHours | src/main/java/com/reserves/service/ReservationService.java:155-158 | the least whole number of hours covering the whole minutes, and at least one |
| ReservationService.CalculatePrice | src/main/java/com/reserves/service/ReservationService.java:155-160 | for a non-negative rate, at least one hour's price and never less than the minutes' worth at that rate |
| ReservationService.Create | src/main/java/com/reserves/service/ReservationService.java:54-81 | fails in source order (times, unknown space, unavailable space, conflict, then ServerError for a space without a price); on success saves a CONFIRMED reservation under a fresh id with the request's fields, the looked-up space and the ceiling-hour price, and changes nothing else |
| ReservationService.Update | src/main/java/com/reserves/service/ReservationService.java:83-105 | NotFound for an unknown id, then BadRequest for invalid times, then BadRequest when another reservation conflicts (the reservation itself is skipped), then ServerError when its space or the space's price is missing; only the user fields, times and notes change, with the price recomputed; id, space, status and creation time stay |
| ReservationService.Cancel | src/main/java/com/reserves/service/ReservationService.java:107-113 | NotFound for an unknown id; otherwise the status becomes CANCELLED whatever it was, and nothing else changes |
| ReservationService.Delete | src/main/java/com/reserves/service/ReservationService.java:115-118 | NotFound for an unknown id; otherwise removes exactly that reservation |
| ReservationService.CancelIsIdempotent | src/main/java/com/reserves/service/ReservationService.java:107-113 | cancelling twice gives the store cancelling once gives |
| ReservationService.InsertKeepsNoOverlap | src/main/java/com/reserves/service/ReservationService.java:135-153 | saving a row that clashes with no other row keeps the no-overlap property |
| ReservationService.CreatePreservesInv | src/main/java/com/reserves/service/ReservationService.java:54-81 | create keeps the store invariant |
| ReservationService.UpdatePreservesInv | src/main/java/com/reserves/service/ReservationService.java:83-105 | update keeps the store invariant |
| ReservationService.CancelPreservesInv | src/main/java/com/reserves/service/ReservationService.java:107-113 | cancel keeps the store invariant |
| ReservationService.DeletePreservesInv | src/main/java/com/reserves/service/ReservationService.java:115-118 | delete keeps the store invariant |
| ReservationService.CreatedReservationIsValid | src/main/java/com/reserves/model/Reservation.java:32-83 | a reservation created from fields that fit their columns satisfies the entity's constraints and has valid times |
| SpaceService.FindById | src/main/java/com/reserves/service/SpaceService.java:37-40 | the space under the id, or NotFound |
| SpaceService.FindAvailableWithFilters | src/main/java/com/reserves/service/SpaceService.java:42-44 | exactly the spaces the filtered repository query matches |
| SpaceService.Create | src/main/java/com/reserves/service/SpaceService.java:46-57 | BadRequest exactly for a given capacity below 1 or a given price of zero or less; otherwise saves the space unchanged but for a fresh id and its creation time |
| SpaceService.Update | src/main/java/com/reserves/service/SpaceService.java:59-75 | NotFound for an unknown id; otherwise the ten editable fields come from the update and the id and creation time stay |
| SpaceService.Delete | src/main/java/com/reserves/service/SpaceService.java:77-92 | NotFound for an unknown id; BadRequest while any reservation of the space is not cancelled; otherwise removes exactly that space |
| SpaceService.ValidSpaceIsAccepted | src/main/java/com/reserves/model/Space.java:48-57 | a space meeting the entity's capacity and price constraints passes create's checks |
| SpaceService.UpdateSkipsCreateChecks | src/main/java/com/reserves/service/SpaceService.java:59-75 | an update to a capacity or price that create rejects is saved |
| SpaceService.SpaceOperationsPreserveInv | src/main/java/com/reserves/service/SpaceService.java:46-92 | create, update and delete of spaces keep the store invariant |
| Intervals.TimeSlot.DurationMinutes | src/main/java/com/reserves/algorithm/AllocationService.java:340-342 | the whole minutes of the slot, truncated toward zero |
| Intervals.MergeIntervals | src/main/java/com/reserves/algorithm/AllocationService.java:175-203 | no more slots than the input; empty exactly when the input is |
| Intervals.MergeFromCorrect | src/main/java/com/reserves/algorithm/AllocationService.java:180-201 | the merge loop on start-sorted slots answers non-empty, separated slots, the first starting where the current one does, covering the same instants |
| Intervals.MergeIntervalsCorrect | src/main/java/com/reserves/algorithm/AllocationService.java:164-203 | on start-sorted non-empty slots the result is sorted, strictly separated (touching slots merged) and covers the same instants |
| Intervals.MergeIntervalsExample | src/main/java/com/reserves/algorithm/AllocationService.java:169-171 | [[1,3],[2,6],[8,10]] merges to [[1,6],[8,10]] |
| Intervals.MergeJoinsTouchingSlots | src/main/java/com/reserves/algorithm/AllocationService.java:186-187 | [[1,3],[3,5]] merges to [[1,5]] |
| Intervals.CalculateGaps | src/main/java/com/reserves/algorithm/AllocationService.java:210-230 | every gap is non-empty |
| Intervals.CalculateGapsCorrect | src/main/java/com/reserves/algorithm/AllocationService.java:210-230 | over separated slots the gaps are separated, start in the window, end by its end, avoid every slot, and cover exactly the window's instants no slot covers |
| Intervals.CalculateGapsExample | src/main/java/com/reserves/algorithm/AllocationService.java:127-129 | a 9:00-18:00 day booked 9-10 and 11-12 is free 10-11 and 12-18 |
| Allocation.HasConflict | src/main/java/com/reserves/algorithm/AllocationService.java:90-112 | true exactly when some row conflicts with the interval on the space |
| Allocation.Fitting | src/main/java/com/reserves/algorithm/AllocationService.java:57-63 | exactly the candidates with enough capacity and a price within the budget, each as often as in the input |
| Allocation.RankedBefore | src/main/java/com/reserves/algorithm/AllocationService.java:64-67 | the comparator after .reversed(): `a` may stay ahead of `b` when it is dearer, or as dear and no smaller |
| Allocation.RankedBeforeIsTotalPreorder | src/main/java/com/reserves/algorithm/AllocationService.java:64-67 | the reversed comparator is total and transitive, as a sort requires |
| Allocation.BestFitDecreasing | src/main/java/com/reserves/algorithm/AllocationService.java:49-71 | at most five fitting candidates, ahead of every fitting one left out, in price-descending then capacity-descending order |
| Allocation.TopOfSorted | src/main/java/com/reserves/algorithm/AllocationService.java:64-69 | the first k of the sorted fitting spaces are some of them, sorted, and rank ahead of the rest |
| Allocation.BestFitListsDearerFirst | src/main/java/com/reserves/algorithm/AllocationService.java:60-67 | of two fitting spaces of equal capacity the dearer is listed first |
| Allocation.WholeHours | src/main/java/com/reserves/algorithm/AllocationService.java:287-289 | the whole hours truncated toward zero, with zero raised to one |
| Allocation.CalculateTotalCost | src/main/java/com/reserves/algorithm/AllocationService.java:282-292 | for a non-negative rate and an ordered interval, at least one hour's price |
| Allocation.RoundingRulesCompared | src/main/java/com/reserves/service/ReservationService.java:155-160 | the booking price bills the same hours as calculateTotalCost or one more, the same exactly when the duration is under an hour or its rest past the whole hours is under a minute |
| Allocation.CostOrderIsTotalPreorder | src/main/java/com/reserves/algorithm/AllocationService.java:254-258 | comparing by total cost is total and transitive |
| Allocation.CostKey | src/main/java/com/reserves/algorithm/AllocationService.java:254-258 | the sort key of a priced space is its total cost |
| Allocation.FirstFree | src/main/java/com/reserves/algorithm/AllocationService.java:261-271 | null exactly when every space conflicts; otherwise the first space without a conflict |
| Allocation.AllocateOptimal | src/main/java/com/reserves/algorithm/AllocationService.java:245-272 | null exactly when every candidate conflicts; otherwise a conflict-free candidate of least total cost among the conflict-free ones |
| Allocation.FirstFreeIsCheapest | src/main/java/com/reserves/algorithm/AllocationService.java:254-271 | the first conflict-free space of the cost-sorted candidates is a cheapest conflict-free one |
| Allocation.SlotsOf | src/main/java/com/reserves/algorithm/AllocationService.java:147-148 | one slot per reservation, spanning its start and end |
| Allocation.GetAvailableSlots | src/main/java/com/reserves/algorithm/AllocationService.java:131-162 | every free slot is non-empty |
| Allocation.OccupiedSlots | src/main/java/com/reserves/algorithm/AllocationService.java:135-150 | the sorted booked slots are non-empty, meet the window, and cover exactly the window's instants held by an active reservation of the space |
| Allocation.InvIsWellTimed | src/main/java/com/reserves/service/ReservationService.java:122-130 | in a store meeting the invariant every reservation ends after it starts, so GetAvailableSlotsCorrect applies to the stored table |
| Allocation.GetAvailableSlotsCorrect | src/main/java/com/reserves/algorithm/AllocationService.java:114-162 | over well-timed rows the free slots are separated, inside the window, and each instant of the window is free exactly when no active reservation of the space holds it |

## Left out

- `calculateOccupancyScore`: double arithmetic on the wall clock.
- Logging calls, which have no effect on results.
- The controllers, authentication, security configuration, start-up data and
  DTO classes. This includes the controller's default of `available` to true
  on a new space.
- Transactions and JPA persistence. Each service call is one atomic step on an
  in-memory store, so concurrent double-booking is not modelled. The database
  does not check Bean Validation or NOT NULL constraints here. They are stated
  as `Model.ValidSpace` and `Model.ValidReservation`. The foreign key from a
  reservation to its space is not enforced. The model removes a space whose
  reservations are all cancelled and leaves those reservations pointing at
  it; the database's foreign key would refuse that delete.
- Query result order. A query answers a sub-map of the table, keyed by id,
  and the model lists it in id order. For rows whose start is before their
  end, which `Store.Inv` guarantees (`Allocation.InvIsWellTimed`), the result
  of `getAvailableSlots` does not depend on that order. A row whose end is not
  after its start can change the merged slots with its position among equal
  starts. The model does not characterise that case.
- Stability of the sorts. `Sorting.Insert` is stable, but no property states it.
- `Model.ValidReservation`: does not check the e-mail's syntax (`@Email`);
  only its presence and length are stated.
- The entity field initialisers that the model does not apply: `available =
  true` (`Space.java:71`) and the empty amenity list (`Space.java:63`). A space
  reaches `create` with whatever values its caller gives.
- Time below one second and money below one cent.
- Overflow of Java's `int` capacity and `long` hour counts. Integers are
  unbounded.
- `SpaceTypeConverter.UpperCase`: upper-cases ASCII letters only, where Java
  upper-cases all of Unicode. Java's `toUpperCase()` also follows the default
  locale: under a Turkish locale `i` becomes `İ`, so "sala" would not contain
  "SALA" there. The model fixes the rules of a locale without such cases.
- `ReservationService.BilledHours`: the source rounds up through a `double`
  division and `Math.ceil`. This model takes that division as exact, which it
  is for any realistic number of minutes.
- `Allocation.AllocateOptimal`: requires every candidate to have a price. The
  source dereferences the price of every candidate the sort compares, and
  the log line prices the space it picks. So an unpriced candidate fails the
  call whenever there are two or more candidates, or when it is the only one
  and has no conflict. Only a lone unpriced candidate that conflicts answers
  null.
- `Allocation.BestFitDecreasing`: requires every candidate to have a capacity,
  and a price when its capacity is enough. Those are the values its filters
  dereference; a null there is a NullPointerException in the source. The
  budget `maxPrice` is a number, never null. In the source a null budget
  throws a NullPointerException in `compareTo` once a candidate has enough
  capacity, and the model does not cover that case.
- `Allocation.CalculateTotalCost`: requires a price, which the source
  dereferences.
- `ReservationService.Create`: a null space id, and a space without a price,
  answer `ServerError`, standing for the runtime exceptions of
  `findById(null)` and of the price multiplication.
- `SpaceService.Create`: the creation time is the `now` parameter, as `@PrePersist`
  sets it.
- `Intervals.CalculateGaps`: its correctness lemma assumes the merged slots of
  `getAvailableSlots`, which are separated and end after the window starts.
  Unmerged input is not characterised.
