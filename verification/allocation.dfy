/** AllocationService: ranking candidate spaces, conflict detection, free
    slots of a space in a time window, and the cheapest free space. */
module Allocation {
  import opened Wrappers
  import opened Model
  import opened Durations
  import opened Tables
  import opened Sorting
  import opened Intervals
  import opened ReservationRepository
  import ReservationService
  import Store

  /** The number of spaces bestFitDecreasing answers with at most. */
  const TopResults: nat := 5

  // ---------------------------------------------------------------- conflicts

  /** hasConflict: the conflict query finds at least one row. */
  function HasConflict(table: Table, space: Space, startTime: Instant, endTime: Instant): (conflict: bool)
    ensures conflict <==> exists id :: id in table && IsConflicting(table[id], space.id, startTime, endTime)
  {
    var conflicts := FindConflictingReservations(table, space.id, startTime, endTime);
    if conflicts.Keys == {} then false
    else
      var id :| id in conflicts.Keys;
      assert id in table && IsConflicting(table[id], space.id, startTime, endTime);
      true
  }

  // ----------------------------------------------------------------- best fit

  /** Both filters of bestFitDecreasing: enough capacity and a price within
      the budget. */
  predicate Fits(s: Space, requiredCapacity: int, maxPrice: Cents) {
    && s.capacity.Some? && s.capacity.value >= requiredCapacity
    && s.pricePerHour.Some? && s.pricePerHour.value <= maxPrice
  }

  /** The filters dereference the capacity of every candidate and the price
      of every candidate with enough capacity. */
  predicate FiltersDefined(s: Space, requiredCapacity: int) {
    s.capacity.Some? && (s.capacity.value >= requiredCapacity ==> s.pricePerHour.Some?)
  }

  /** The candidates that pass both filters, in their original order. */
  function Fitting(candidates: seq<Space>, requiredCapacity: int, maxPrice: Cents): (fitting: seq<Space>)
    requires forall i :: 0 <= i < |candidates| ==> FiltersDefined(candidates[i], requiredCapacity)
    ensures forall s :: multiset(fitting)[s] == if Fits(s, requiredCapacity, maxPrice) then multiset(candidates)[s] else 0
    ensures forall s :: s in fitting <==> s in candidates && Fits(s, requiredCapacity, maxPrice)
  {
    if candidates == [] then []
    else
      assert FiltersDefined(candidates[0], requiredCapacity);
      var rest := Fitting(candidates[1..], requiredCapacity, maxPrice);
      assert candidates == [candidates[0]] + candidates[1..];
      if candidates[0].capacity.value >= requiredCapacity && candidates[0].pricePerHour.value <= maxPrice
      then [candidates[0]] + rest
      else rest
  }

  /** Comparator.comparing(getPricePerHour).thenComparingInt(getCapacity):
      `a` may stay ahead of `b` when it is cheaper, or as cheap and no larger.
      Only spaces with both values are compared. */
  predicate PriceThenCapacity(a: Space, b: Space) {
    var pa := a.pricePerHour.GetOr(0);
    var pb := b.pricePerHour.GetOr(0);
    pa < pb || (pa == pb && a.capacity.GetOr(0) <= b.capacity.GetOr(0))
  }

  /** The same comparator after .reversed(), which reverses both keys: the
      dearer space first, then the larger. */
  predicate RankedBefore(a: Space, b: Space) {
    PriceThenCapacity(b, a)
  }

  lemma RankedBeforeIsTotalPreorder()
    ensures TotalPreorder(RankedBefore)
  {
  }

  /** bestFitDecreasing: the fitting candidates sorted by the reversed
      comparator, of which the first five. */
  function BestFitDecreasing(candidates: seq<Space>, requiredCapacity: int, maxPrice: Cents): (best: seq<Space>)
    requires forall i :: 0 <= i < |candidates| ==> FiltersDefined(candidates[i], requiredCapacity)
    ensures var fitting := Fitting(candidates, requiredCapacity, maxPrice);
      && |best| == (if |fitting| < TopResults then |fitting| else TopResults)
      && multiset(best) <= multiset(fitting)
      && (forall x, y :: x in multiset(fitting) - multiset(best) && y in best ==> RankedBefore(y, x))
    ensures forall s :: s in best ==> s in candidates && Fits(s, requiredCapacity, maxPrice)
    ensures forall i, j :: 0 <= i < j < |best| ==>
      && best[i].pricePerHour.GetOr(0) >= best[j].pricePerHour.GetOr(0)
      && (best[i].pricePerHour == best[j].pricePerHour ==> best[i].capacity.GetOr(0) >= best[j].capacity.GetOr(0))
  {
    var sorted := Sort(Fitting(candidates, requiredCapacity, maxPrice), RankedBefore);
    var k := if |sorted| < TopResults then |sorted| else TopResults;
    TopOfSorted(Fitting(candidates, requiredCapacity, maxPrice), k);
    sorted[..k]
  }

  /** The first `k` of the fitting spaces sorted by the reversed comparator
      are some of them, in that order, ahead of every one left out. */
  lemma TopOfSorted(fitting: seq<Space>, k: nat)
    requires k <= |fitting|
    ensures var top := Sort(fitting, RankedBefore)[..k];
      && multiset(top) <= multiset(fitting)
      && (forall x, y :: x in multiset(fitting) - multiset(top) && y in top ==> RankedBefore(y, x))
      && (forall s :: s in top ==> s in fitting)
      && SortedBy(top, RankedBefore)
  {
    var sorted := Sort(fitting, RankedBefore);
    RankedBeforeIsTotalPreorder();
    SortSorted(fitting, RankedBefore);
    PrefixIsTop(sorted, k, RankedBefore);
    PrefixIsSortedPart(sorted, k, RankedBefore);
    SortKeepsMembers(fitting, RankedBefore);
  }

  /** The source comments this ordering as cheapest first; after .reversed()
      it lists the dearer of two fitting spaces first. */
  lemma BestFitListsDearerFirst(cheap: Space, dear: Space)
    requires cheap.capacity == Some(10) && cheap.pricePerHour == Some(1000)
    requires dear.capacity == Some(10) && dear.pricePerHour == Some(2000)
    ensures BestFitDecreasing([cheap, dear], 10, 5000) == [dear, cheap]
  {
    assert [cheap, dear][1..] == [dear] && [dear][1..] == [];
    assert Fitting([dear], 10, 5000) == [dear];
    assert Fitting([cheap, dear], 10, 5000) == [cheap, dear];
    assert [cheap, dear][..1] == [cheap];
    assert Sort([cheap], RankedBefore) == [cheap];
    assert !RankedBefore(cheap, dear);
    assert Insert(dear, [cheap], RankedBefore) == [dear, cheap];
    assert Sort([cheap, dear], RankedBefore) == [dear, cheap];
  }

  // --------------------------------------------------------------------- cost

  /** The hours calculateTotalCost bills: Duration.toHours, truncated toward
      zero, with a zero result raised to one. */
  function WholeHours(startTime: Instant, endTime: Instant): (hours: int)
    ensures -SecondsPerHour < endTime - startTime < SecondsPerHour ==> hours == 1
    ensures endTime - startTime >= SecondsPerHour ==>
      hours >= 1 && hours * SecondsPerHour <= endTime - startTime < (hours + 1) * SecondsPerHour
    ensures endTime - startTime <= -SecondsPerHour ==>
      hours <= -1 && (hours - 1) * SecondsPerHour < endTime - startTime <= hours * SecondsPerHour
  {
    var hours := ToHours(startTime, endTime);
    if hours == 0 then 1 else hours
  }

  /** calculateTotalCost. */
  function CalculateTotalCost(space: Space, startTime: Instant, endTime: Instant): (cost: Cents)
    requires space.pricePerHour.Some?
    ensures space.pricePerHour.value >= 0 && startTime <= endTime ==> cost >= space.pricePerHour.value
  {
    space.pricePerHour.value * WholeHours(startTime, endTime)
  }

  lemma {:induction false} MulAtLeast(k: int, n: int)
    requires k >= 1 && n > 0
    ensures k * n >= n
    decreases k
  {
    if k > 1 {
      MulAtLeast(k - 1, n);
      assert k * n == (k - 1) * n + n;
    }
  }

  /** Quotient and remainder are unique. */
  lemma DivisionOfSplit(d: int, q: int, r: int, n: int)
    requires n > 0 && 0 <= r < n && d == q * n + r
    ensures d / n == q && d % n == r
  {
    var q', r' := d / n, d % n;
    assert d == q' * n + r';
    assert (q - q') * n == r' - r;
    if q > q' {
      MulAtLeast(q - q', n);
    } else if q < q' {
      MulAtLeast(q' - q, n);
    }
  }

  /** The two rounding rules of the source, on a duration of at least one
      second: the booking price's ceiling rule bills the same hours as the
      allocation cost's truncating rule, or one more; the same exactly when
      the duration is under an hour or its part past the whole hours is
      under a minute. */
  lemma RoundingRulesCompared(startTime: Instant, endTime: Instant)
    requires startTime < endTime
    ensures var whole := WholeHours(startTime, endTime);
      var billed := ReservationService.BilledHours(startTime, endTime);
      && whole <= billed <= whole + 1
      && (billed == whole <==> endTime - startTime < SecondsPerHour || (endTime - startTime) % SecondsPerHour < SecondsPerMinute)
  {
    var d := endTime - startTime;
    var m := d / 60;
    var r1 := d % 60;
    var h := m / 60;
    var r2 := m % 60;
    assert d == m * 60 + r1;
    assert m == h * 60 + r2;
    assert d == h * 3600 + (r2 * 60 + r1);
    DivisionOfSplit(d, h, r2 * 60 + r1, 3600);
    assert ToMinutes(startTime, endTime) == m;
    assert ToHours(startTime, endTime) == h;
    if m > 0 {
      DivisionOfSplit(m + 59, h + (if r2 > 0 then 1 else 0), if r2 > 0 then r2 - 1 else 59, 60);
    }
  }

  // --------------------------------------------------------- optimal choice

  /** Comparator.comparing(space -> calculateTotalCost(space, start, end)):
      the cheaper total first. Only priced spaces are compared. */
  function CostOrder(startTime: Instant, endTime: Instant): (Space, Space) -> bool {
    (a: Space, b: Space) => CostKey(a, startTime, endTime) <= CostKey(b, startTime, endTime)
  }

  /** The sort key of allocateOptimal; equal to the total cost of a priced space. */
  function CostKey(space: Space, startTime: Instant, endTime: Instant): (key: Cents)
    ensures space.pricePerHour.Some? ==> key == CalculateTotalCost(space, startTime, endTime)
  {
    space.pricePerHour.GetOr(0) * WholeHours(startTime, endTime)
  }

  lemma CostOrderIsTotalPreorder(startTime: Instant, endTime: Instant)
    ensures TotalPreorder(CostOrder(startTime, endTime))
  {
  }

  /** spaces[i] is the first space of `spaces` with no conflict. */
  predicate FirstFreeAt(table: Table, spaces: seq<Space>, i: int, startTime: Instant, endTime: Instant) {
    && 0 <= i < |spaces|
    && !HasConflict(table, spaces[i], startTime, endTime)
    && forall j :: 0 <= j < i ==> HasConflict(table, spaces[j], startTime, endTime)
  }

  /** The loop of allocateOptimal: the first space with no conflict. */
  function FirstFree(table: Table, spaces: seq<Space>, startTime: Instant, endTime: Instant): (found: Option<Space>)
    ensures found.None? <==> forall i :: 0 <= i < |spaces| ==> HasConflict(table, spaces[i], startTime, endTime)
    ensures found.Some? ==>
      exists i :: FirstFreeAt(table, spaces, i, startTime, endTime) && spaces[i] == found.value
    decreases |spaces|
  {
    if spaces == [] then None
    else if !HasConflict(table, spaces[0], startTime, endTime) then
      assert FirstFreeAt(table, spaces, 0, startTime, endTime);
      Some(spaces[0])
    else
      var found := FirstFree(table, spaces[1..], startTime, endTime);
      FirstFreeShift(table, spaces, startTime, endTime);
      found
  }

  /** Skipping a first space that conflicts shifts every answer by one. */
  lemma FirstFreeShift(table: Table, spaces: seq<Space>, startTime: Instant, endTime: Instant)
    requires spaces != [] && HasConflict(table, spaces[0], startTime, endTime)
    ensures forall i :: FirstFreeAt(table, spaces[1..], i, startTime, endTime) ==>
      FirstFreeAt(table, spaces, i + 1, startTime, endTime)
    ensures (forall i :: 0 <= i < |spaces[1..]| ==> HasConflict(table, spaces[1..][i], startTime, endTime)) ==>
      forall i :: 0 <= i < |spaces| ==> HasConflict(table, spaces[i], startTime, endTime)
  {
    forall i | FirstFreeAt(table, spaces[1..], i, startTime, endTime)
      ensures FirstFreeAt(table, spaces, i + 1, startTime, endTime)
    {
      forall j | 0 <= j < i + 1 ensures HasConflict(table, spaces[j], startTime, endTime) {
        if j > 0 {
          assert spaces[j] == spaces[1..][j - 1];
        }
      }
    }
    if forall i :: 0 <= i < |spaces[1..]| ==> HasConflict(table, spaces[1..][i], startTime, endTime) {
      forall i | 0 <= i < |spaces| ensures HasConflict(table, spaces[i], startTime, endTime) {
        if i > 0 {
          assert spaces[i] == spaces[1..][i - 1];
        }
      }
    }
  }

  /** allocateOptimal: null only when every candidate has a conflict;
      otherwise a candidate without conflict whose total cost is the least
      among the candidates without conflict. */
  function AllocateOptimal(table: Table, candidates: seq<Space>, startTime: Instant, endTime: Instant): (chosen: Option<Space>)
    requires forall s :: s in candidates ==> s.pricePerHour.Some?
    ensures chosen.None? <==> forall s :: s in candidates ==> HasConflict(table, s, startTime, endTime)
    ensures chosen.Some? ==>
      && chosen.value in candidates
      && !HasConflict(table, chosen.value, startTime, endTime)
      && forall s :: s in candidates && !HasConflict(table, s, startTime, endTime) ==>
           CalculateTotalCost(chosen.value, startTime, endTime) <= CalculateTotalCost(s, startTime, endTime)
  {
    var sorted := Sort(candidates, CostOrder(startTime, endTime));
    FirstFreeIsCheapest(table, candidates, startTime, endTime);
    FirstFree(table, sorted, startTime, endTime)
  }

  /** The first conflict-free space of the candidates sorted by total cost
      costs no more than any conflict-free candidate, and there is none only
      when every candidate conflicts. */
  lemma FirstFreeIsCheapest(table: Table, candidates: seq<Space>, startTime: Instant, endTime: Instant)
    requires forall s :: s in candidates ==> s.pricePerHour.Some?
    ensures var found := FirstFree(table, Sort(candidates, CostOrder(startTime, endTime)), startTime, endTime);
      && (found.None? <==> forall s :: s in candidates ==> HasConflict(table, s, startTime, endTime))
      && (found.Some? ==>
          && found.value in candidates
          && !HasConflict(table, found.value, startTime, endTime)
          && forall s :: s in candidates && !HasConflict(table, s, startTime, endTime) ==>
               CalculateTotalCost(found.value, startTime, endTime) <= CalculateTotalCost(s, startTime, endTime))
  {
    var order := CostOrder(startTime, endTime);
    var sorted := Sort(candidates, order);
    CostOrderIsTotalPreorder(startTime, endTime);
    SortSorted(candidates, order);
    SortKeepsMembers(candidates, order);
    var found := FirstFree(table, sorted, startTime, endTime);
    if found.Some? {
      var i :| FirstFreeAt(table, sorted, i, startTime, endTime) && sorted[i] == found.value;
      FirstFreeAtIsCheapest(table, sorted, i, startTime, endTime);
    }
  }

  /** In a list sorted by total cost, the first space without a conflict
      costs no more than any other space without a conflict. */
  lemma FirstFreeAtIsCheapest(table: Table, sorted: seq<Space>, i: int, startTime: Instant, endTime: Instant)
    requires SortedBy(sorted, CostOrder(startTime, endTime))
    requires FirstFreeAt(table, sorted, i, startTime, endTime)
    ensures forall s :: s in sorted && !HasConflict(table, s, startTime, endTime) ==>
      CostKey(sorted[i], startTime, endTime) <= CostKey(s, startTime, endTime)
  {
    forall s | s in sorted && !HasConflict(table, s, startTime, endTime)
      ensures CostKey(sorted[i], startTime, endTime) <= CostKey(s, startTime, endTime)
    {
      var j :| 0 <= j < |sorted| && sorted[j] == s;
      if i < j {
        assert CostOrder(startTime, endTime)(sorted[i], sorted[j]);
      }
    }
  }

  // -------------------------------------------------------------- free slots

  /** Every row has both times. */
  predicate Timed(rows: seq<Reservation>) {
    forall i :: 0 <= i < |rows| ==> rows[i].startTime.Some? && rows[i].endTime.Some?
  }

  /** Every row of the table has both times. */
  predicate AllTimed(table: Table) {
    forall id :: id in table ==> table[id].startTime.Some? && table[id].endTime.Some?
  }

  /** new TimeSlot(r.getStartTime(), r.getEndTime()) for a timed row. */
  function SlotsOf(rows: seq<Reservation>): (slots: seq<TimeSlot>)
    requires Timed(rows)
    ensures |slots| == |rows|
    ensures forall i :: 0 <= i < |rows| ==>
      slots[i].start == rows[i].startTime.value && slots[i].end == rows[i].endTime.value
  {
    seq(|rows|, i requires 0 <= i < |rows| => TimeSlot(rows[i].startTime.value, rows[i].endTime.value))
  }

  /** Comparator.comparing(TimeSlot::getStart). */
  predicate StartsNoLater(a: TimeSlot, b: TimeSlot) {
    a.start <= b.start
  }

  /** getAvailableSlots: the conflicting reservations as slots sorted by
      start, merged, and the gaps between them inside the window. */
  function GetAvailableSlots(table: Table, space: Space, startTime: Instant, endTime: Instant): (gaps: seq<TimeSlot>)
    ensures NonEmptySlots(gaps)
  {
    var conflicts := FindConflictingReservations(table, space.id, startTime, endTime);
    var rows := Rows(conflicts);
    RowsTimed(conflicts);
    var occupied := Sort(SlotsOf(rows), StartsNoLater);
    CalculateGaps(MergeIntervals(occupied), startTime, endTime)
  }

  /** A non-cancelled reservation of the space holds instant `t`. */
  predicate OccupiedAt(table: Table, spaceId: nat, t: Instant) {
    exists id :: id in table && ActiveAt(table[id], spaceId, t)
  }

  predicate ActiveAt(r: Reservation, spaceId: nat, t: Instant) {
    && r.spaceId == spaceId
    && r.status != Cancelled
    && r.startTime.Some? && r.endTime.Some?
    && r.startTime.value <= t < r.endTime.value
  }

  /** Every timed reservation ends after it starts, as the reservation
      service ensures for everything it stores. */
  predicate WellTimed(table: Table) {
    forall id :: id in table && table[id].startTime.Some? && table[id].endTime.Some? ==>
      table[id].startTime.value < table[id].endTime.value
  }

  /** The store invariant makes the reservation table well timed, which is
      what GetAvailableSlotsCorrect assumes of it. */
  lemma InvIsWellTimed(db: Store.Db)
    requires Store.Inv(db)
    ensures WellTimed(db.reservations)
  {
    forall id | id in db.reservations
      ensures db.reservations[id].startTime.value < db.reservations[id].endTime.value
    {
      assert HasValidTimes(db.reservations[id]);
    }
  }

  /** The rows of a timed table are timed. */
  lemma RowsTimed(table: Table)
    requires AllTimed(table)
    ensures Timed(Rows(table))
  {
    var rows := Rows(table);
    forall i | 0 <= i < |rows| ensures rows[i].startTime.Some? && rows[i].endTime.Some? {
      assert rows[i] in rows;
    }
  }

  /** `x` is the slot of a row of the table. */
  predicate SlotOfRow(table: Table, x: TimeSlot) {
    exists id :: id in table && table[id].startTime == Some(x.start) && table[id].endTime == Some(x.end)
  }

  /** The sorted slots of a timed table are the slots of its rows: each
      slot is the slot of some row, and the slot of each row is among them. */
  lemma SortedSlotsAreRows(table: Table)
    requires AllTimed(table)
    ensures Timed(Rows(table))
    ensures forall x :: x in Sort(SlotsOf(Rows(table)), StartsNoLater) ==> SlotOfRow(table, x)
    ensures forall id :: id in table ==>
      TimeSlot(table[id].startTime.value, table[id].endTime.value) in Sort(SlotsOf(Rows(table)), StartsNoLater)
  {
    var rows := Rows(table);
    RowsTimed(table);
    var slots := SlotsOf(rows);
    SortKeepsMembers(slots, StartsNoLater);
    forall x | x in slots ensures SlotOfRow(table, x) {
      var i :| 0 <= i < |slots| && slots[i] == x;
      assert rows[i] in rows;
    }
    forall id | id in table
      ensures TimeSlot(table[id].startTime.value, table[id].endTime.value) in slots
    {
      assert table[id] in rows;
      var i :| 0 <= i < |rows| && rows[i] == table[id];
      assert slots[i] in slots;
    }
  }

  /** `conflicts` holds exactly the rows of `table` that conflict with the
      window on the space, as the conflict query answers them. */
  predicate ConflictsOf(conflicts: Table, table: Table, spaceId: nat, startTime: Instant, endTime: Instant) {
    && SubTable(conflicts, table)
    && forall id :: id in table ==> (id in conflicts <==> IsConflicting(table[id], spaceId, startTime, endTime))
  }

  /** Slots that are exactly the slots of the conflicting rows cover an
      instant of the window exactly when an active reservation holds it. */
  lemma ConflictSlotsCover(table: Table, spaceId: nat, startTime: Instant, endTime: Instant,
                           conflicts: Table, occupied: seq<TimeSlot>, t: Instant)
    requires ConflictsOf(conflicts, table, spaceId, startTime, endTime)
    requires forall x :: x in occupied ==> SlotOfRow(conflicts, x)
    requires forall id :: id in conflicts ==>
      TimeSlot(conflicts[id].startTime.value, conflicts[id].endTime.value) in occupied
    requires startTime <= t < endTime
    ensures Covered(occupied, t) <==> OccupiedAt(table, spaceId, t)
  {
    if OccupiedAt(table, spaceId, t) {
      var id :| id in table && ActiveAt(table[id], spaceId, t);
      assert id in conflicts;
      assert InSlot(t, TimeSlot(conflicts[id].startTime.value, conflicts[id].endTime.value));
    }
    if Covered(occupied, t) {
      var x :| x in occupied && InSlot(t, x);
      assert SlotOfRow(conflicts, x);
      var id :| id in conflicts && conflicts[id].startTime == Some(x.start) && conflicts[id].endTime == Some(x.end);
      assert ActiveAt(table[id], spaceId, t);
    }
  }

  /** Slots of conflicting rows of a well-timed table are non-empty and meet
      the window. */
  lemma ConflictSlotsShape(table: Table, spaceId: nat, startTime: Instant, endTime: Instant,
                           conflicts: Table, occupied: seq<TimeSlot>)
    requires WellTimed(table)
    requires ConflictsOf(conflicts, table, spaceId, startTime, endTime)
    requires forall x :: x in occupied ==> SlotOfRow(conflicts, x)
    ensures NonEmptySlots(occupied)
    ensures forall x :: x in occupied ==> startTime < x.end && x.start < endTime
  {
    forall x | x in occupied ensures x.start < x.end && startTime < x.end && x.start < endTime {
      assert SlotOfRow(conflicts, x);
    }
    forall i | 0 <= i < |occupied| ensures occupied[i].start < occupied[i].end {
      assert occupied[i] in occupied;
    }
  }

  /** The occupied slots of getAvailableSlots: sorted, non-empty, each ending
      after the window starts and starting before it ends, and together
      holding exactly the instants of the window some active reservation
      holds. */
  lemma OccupiedSlots(table: Table, space: Space, startTime: Instant, endTime: Instant)
    requires WellTimed(table)
    ensures var conflicts := FindConflictingReservations(table, space.id, startTime, endTime);
      Timed(Rows(conflicts)) &&
      var occupied := Sort(SlotsOf(Rows(conflicts)), StartsNoLater);
      && NonEmptySlots(occupied)
      && SortedByStart(occupied)
      && (forall x :: x in occupied ==> startTime < x.end && x.start < endTime)
      && (forall t :: startTime <= t < endTime ==> (Covered(occupied, t) <==> OccupiedAt(table, space.id, t)))
  {
    var conflicts := FindConflictingReservations(table, space.id, startTime, endTime);
    assert ConflictsOf(conflicts, table, space.id, startTime, endTime);
    SortedSlotsAreRows(conflicts);
    var slots := SlotsOf(Rows(conflicts));
    var occupied := Sort(slots, StartsNoLater);
    SortSorted(slots, StartsNoLater);
    ConflictSlotsShape(table, space.id, startTime, endTime, conflicts, occupied);
    forall t | startTime <= t < endTime ensures Covered(occupied, t) <==> OccupiedAt(table, space.id, t) {
      ConflictSlotsCover(table, space.id, startTime, endTime, conflicts, occupied, t);
    }
  }

  /** The gaps around the merged occupied slots: separated, inside the
      window, and covering exactly the instants of the window the slots leave
      free. */
  lemma GapsOfOccupied(occupied: seq<TimeSlot>, startTime: Instant, endTime: Instant)
    requires NonEmptySlots(occupied) && SortedByStart(occupied)
    requires forall x :: x in occupied ==> startTime < x.end && x.start < endTime
    ensures var gaps := CalculateGaps(MergeIntervals(occupied), startTime, endTime);
      && Separated(gaps)
      && (forall g :: g in gaps ==> startTime <= g.start && g.end <= endTime)
      && (forall t :: startTime <= t < endTime ==> (Covered(gaps, t) <==> !Covered(occupied, t)))
  {
    var merged := MergeIntervals(occupied);
    MergeIntervalsCorrect(occupied);
    if occupied != [] {
      MergeFromCorrect(occupied[0], occupied[1..]);
      assert occupied[0] in occupied;
      forall i | 0 <= i < |occupied[1..]| ensures occupied[1..][i].start < endTime {
        assert occupied[1..][i] in occupied;
      }
      MergeFromStartsBelow(occupied[0], occupied[1..], endTime);
    }
    CalculateGapsCorrect(merged, startTime, endTime);
  }

  /** getAvailableSlots over a well-timed table: the gaps are non-empty,
      separated, inside the window, and every instant of the window lies
      either in a gap or in an active reservation of the space, never both. */
  lemma GetAvailableSlotsCorrect(table: Table, space: Space, startTime: Instant, endTime: Instant)
    requires WellTimed(table)
    ensures var gaps := GetAvailableSlots(table, space, startTime, endTime);
      && NonEmptySlots(gaps)
      && Separated(gaps)
      && (forall g :: g in gaps ==> startTime <= g.start && g.end <= endTime)
      && (forall t :: startTime <= t < endTime ==> (Covered(gaps, t) <==> !OccupiedAt(table, space.id, t)))
  {
    var conflicts := FindConflictingReservations(table, space.id, startTime, endTime);
    OccupiedSlots(table, space, startTime, endTime);
    var occupied := Sort(SlotsOf(Rows(conflicts)), StartsNoLater);
    GapsOfOccupied(occupied, startTime, endTime);
  }
}
