/** The database the services work on: the two tables with their identity
    counters, and the invariant the services keep. */
module Store {
  import opened Model
  import opened ReservationRepository

  /** Both tables, keyed by id, and the next identity value of each. */
  datatype Db = Db(
    spaces: map<nat, Space>,
    reservations: map<nat, Reservation>,
    nextSpaceId: nat,
    nextReservationId: nat)

  /** Two reservations clash: both are active, both are timed, and they
      overlap on the same space in the sense of the conflict query. */
  predicate Clash(a: Reservation, b: Reservation) {
    && a.status != Cancelled
    && a.startTime.Some? && a.endTime.Some?
    && IsConflicting(b, a.spaceId, a.startTime.value, a.endTime.value)
  }

  /** Active reservations of one space never overlap. */
  predicate NoOverlap(table: map<nat, Reservation>) {
    forall i, j :: i in table && j in table && i != j ==> !Clash(table[i], table[j])
  }

  /** Each row is stored under its own id, below the identity counter. */
  predicate KeyedById(db: Db) {
    && (forall id :: id in db.spaces ==> db.spaces[id].id == id && id < db.nextSpaceId)
    && (forall id :: id in db.reservations ==> db.reservations[id].id == id && id < db.nextReservationId)
  }

  /** What every service operation preserves: rows keyed by id, every
      reservation with both times and its end after its start, and no overlap
      between active reservations of one space. */
  predicate Inv(db: Db) {
    && KeyedById(db)
    && (forall id :: id in db.reservations ==> HasValidTimes(db.reservations[id]))
    && NoOverlap(db.reservations)
  }

  /** Clash does not depend on the order of the two reservations. */
  lemma ClashIsSymmetric(a: Reservation, b: Reservation)
    ensures Clash(a, b) <==> Clash(b, a)
  {
  }

  /** A store with no rows satisfies the invariant. */
  lemma EmptyStoreIsValid()
    ensures Inv(Db(map[], map[], 1, 1))
  {
  }
}
