/** The queries of ReservationRepository as filters over the reservation table.
    A query answers with the matching rows, keyed by id; SQL comparisons with a
    NULL column are not true, so a row with a null value never passes them. */
module ReservationRepository {
  import opened Wrappers
  import opened Model
  import opened Tables
  import Intervals

  type Table = map<nat, Reservation>

  /** The WHERE clause of findConflictingReservations: same space, not
      cancelled, starting before `endTime` and ending after `startTime`. */
  predicate IsConflicting(r: Reservation, spaceId: nat, startTime: Instant, endTime: Instant) {
    && r.spaceId == spaceId
    && r.status != Cancelled
    && r.startTime.Some? && r.startTime.value < endTime
    && r.endTime.Some? && r.endTime.value > startTime
  }

  /** findConflictingReservations. */
  function FindConflictingReservations(table: Table, spaceId: nat, startTime: Instant, endTime: Instant): (rows: Table)
    ensures SubTable(rows, table)
    ensures forall id :: id in table ==> (id in rows <==> IsConflicting(table[id], spaceId, startTime, endTime))
    ensures forall id :: id in rows ==> table[id].spaceId == spaceId && table[id].status != Cancelled
  {
    map id | id in table && IsConflicting(table[id], spaceId, startTime, endTime) :: table[id]
  }

  /** findWithFilters: a null argument imposes no condition. */
  function FindWithFilters(table: Table, spaceId: Option<nat>, status: Option<ReservationStatus>): (rows: Table)
    ensures SubTable(rows, table)
    ensures forall id :: id in rows <==>
      id in table
      && (spaceId.None? || table[id].spaceId == spaceId.value)
      && (status.None? || table[id].status == status.value)
  {
    map id | id in table
      && (spaceId == None || Some(table[id].spaceId) == spaceId)
      && (status == None || Some(table[id].status) == status)
      :: table[id]
  }

  /** findBySpaceId. A derived query compares a null argument with IS NULL,
      which the non-null space reference never satisfies. */
  function FindBySpaceId(table: Table, spaceId: Option<nat>): (rows: Table)
    ensures SubTable(rows, table)
    ensures spaceId.None? ==> rows == map[]
    ensures forall id :: id in table ==> (id in rows <==> spaceId == Some(table[id].spaceId))
  {
    map id | id in table && Some(table[id].spaceId) == spaceId :: table[id]
  }

  /** findByStatus; the status column is never null. */
  function FindByStatus(table: Table, status: Option<ReservationStatus>): (rows: Table)
    ensures SubTable(rows, table)
    ensures status.None? ==> rows == map[]
    ensures forall id :: id in table ==> (id in rows <==> status == Some(table[id].status))
  {
    map id | id in table && Some(table[id].status) == status :: table[id]
  }

  /** findByUserEmail: a null argument finds the rows with a null e-mail. */
  function FindByUserEmail(table: Table, userEmail: Option<string>): (rows: Table)
    ensures SubTable(rows, table)
    ensures forall id :: id in table ==> (id in rows <==> table[id].userEmail == userEmail)
  {
    map id | id in table && table[id].userEmail == userEmail :: table[id]
  }

  /** findBySpaceIdAndCreatedAtAfter: created strictly after `dateTime`. */
  function FindBySpaceIdAndCreatedAtAfter(table: Table, spaceId: nat, dateTime: Instant): (rows: Table)
    ensures SubTable(rows, table)
    ensures forall id :: id in table ==> (id in rows <==>
      table[id].spaceId == spaceId && table[id].createdAt.Some? && table[id].createdAt.value > dateTime)
  {
    map id | id in table && table[id].spaceId == spaceId
      && table[id].createdAt.Some? && table[id].createdAt.value > dateTime :: table[id]
  }

  /** A reservation that ends exactly when the queried interval starts, or
      starts exactly when it ends, is not a conflict. */
  lemma TouchingIsNoConflict(r: Reservation, spaceId: nat, startTime: Instant, endTime: Instant)
    requires r.endTime == Some(startTime) || r.startTime == Some(endTime)
    ensures !IsConflicting(r, spaceId, startTime, endTime)
  {
  }

  /** The overlap test is symmetric in the two intervals. */
  lemma OverlapIsSymmetric(a: Reservation, b: Reservation)
    requires a.startTime.Some? && a.endTime.Some? && b.startTime.Some? && b.endTime.Some?
    requires a.spaceId == b.spaceId && a.status != Cancelled && b.status != Cancelled
    ensures IsConflicting(a, b.spaceId, b.startTime.value, b.endTime.value)
        <==> IsConflicting(b, a.spaceId, a.startTime.value, a.endTime.value)
  {
  }

  /** For non-empty intervals the overlap test holds exactly when the two
      intervals share an instant. */
  lemma OverlapMeansSharedInstant(r: Reservation, spaceId: nat, startTime: Instant, endTime: Instant)
    requires r.spaceId == spaceId && r.status != Cancelled
    requires r.startTime.Some? && r.endTime.Some? && r.startTime.value < r.endTime.value
    requires startTime < endTime
    ensures IsConflicting(r, spaceId, startTime, endTime) <==>
      exists t :: Intervals.InSlot(t, Intervals.TimeSlot(r.startTime.value, r.endTime.value))
               && Intervals.InSlot(t, Intervals.TimeSlot(startTime, endTime))
  {
    if IsConflicting(r, spaceId, startTime, endTime) {
      var t := if r.startTime.value < startTime then startTime else r.startTime.value;
      assert Intervals.InSlot(t, Intervals.TimeSlot(r.startTime.value, r.endTime.value))
          && Intervals.InSlot(t, Intervals.TimeSlot(startTime, endTime));
    }
  }

  /** With both filters null, findWithFilters returns every reservation. */
  lemma NoFiltersFindsAll(table: Table)
    ensures FindWithFilters(table, None, None) == table
  {
  }

  /** One filter given: findWithFilters agrees with the derived query, which
      keeps every status. */
  lemma SingleFilterAgrees(table: Table, spaceId: nat, status: ReservationStatus)
    ensures FindWithFilters(table, Some(spaceId), None) == FindBySpaceId(table, Some(spaceId))
    ensures FindWithFilters(table, None, Some(status)) == FindByStatus(table, Some(status))
    ensures forall id :: id in table && table[id].spaceId == spaceId ==> id in FindBySpaceId(table, Some(spaceId))
  {
  }

  /** The conflicts of a space are among its reservations. */
  lemma ConflictsAreSpaceRows(table: Table, spaceId: nat, startTime: Instant, endTime: Instant)
    ensures SubTable(FindConflictingReservations(table, spaceId, startTime, endTime),
                     FindBySpaceId(table, Some(spaceId)))
  {
  }
}
