/** SpaceService: the space rules over the store. */
module SpaceService {
  import opened Wrappers
  import opened Model
  import opened Tables
  import opened SpaceRepository
  import ReservationRepository
  import opened Store

  /** findById. */
  function FindById(db: Db, id: nat): (r: Result<Space>)
    ensures r.Ok? <==> id in db.spaces
    ensures r.Ok? ==> r.value == db.spaces[id]
    ensures r.Err? ==> r.error == NotFound
  {
    if id in db.spaces then Ok(db.spaces[id]) else Err(NotFound)
  }

  /** findAvailableWithFilters: the repository query on the space table. */
  function FindAvailableWithFilters(db: Db, spaceType: Option<SpaceType>, minCapacity: Option<int>, maxPrice: Option<Cents>): (rows: Table)
    ensures SubTable(rows, db.spaces)
    ensures forall id :: id in db.spaces ==>
      (id in rows <==> MatchesFilters(db.spaces[id], spaceType, minCapacity, maxPrice))
  {
    FindAvailableSpacesWithFilters(db.spaces, spaceType, minCapacity, maxPrice)
  }

  /** The checks create makes before saving: a capacity below 1 or a price of
      zero or less, each only when given. */
  predicate CreateRejected(space: Space) {
    || (space.capacity.Some? && space.capacity.value < 1)
    || (space.pricePerHour.Some? && space.pricePerHour.value <= 0)
  }

  /** create: saves the space as given, under a fresh id and with its creation
      time set. */
  function Create(db: Db, space: Space, now: Instant): (r: Result<(Db, Space)>)
    ensures r.Err? <==> CreateRejected(space)
    ensures r.Err? ==> r.error == BadRequest
    ensures r.Ok? ==>
      var (db', saved) := r.value;
      && saved.id == db.nextSpaceId
      && saved.createdAt == Some(now)
      && saved.(id := space.id, createdAt := space.createdAt) == space
      && db'.spaces == db.spaces[saved.id := saved]
      && db'.reservations == db.reservations
      && db'.nextReservationId == db.nextReservationId
  {
    if space.capacity.Some? && space.capacity.value < 1 then Err(BadRequest)
    else if space.pricePerHour.Some? && space.pricePerHour.value <= 0 then Err(BadRequest)
    else
      var saved := space.(id := db.nextSpaceId, createdAt := Some(now));
      Ok((db.(spaces := db.spaces[saved.id := saved], nextSpaceId := db.nextSpaceId + 1), saved))
  }

  /** update: copies the ten editable fields from `spaceUpdate`, keeping the id
      and the creation time; no capacity or price check is made. */
  function Update(db: Db, id: nat, spaceUpdate: Space): (r: Result<(Db, Space)>)
    ensures r.Ok? <==> id in db.spaces
    ensures r.Err? ==> r.error == NotFound
    ensures r.Ok? ==>
      var (db', saved) := r.value;
      && saved.id == db.spaces[id].id
      && saved.createdAt == db.spaces[id].createdAt
      && saved.(id := spaceUpdate.id, createdAt := spaceUpdate.createdAt) == spaceUpdate
      && db'.spaces == db.spaces[id := saved]
      && db'.reservations == db.reservations
      && db'.nextSpaceId == db.nextSpaceId && db'.nextReservationId == db.nextReservationId
  {
    match FindById(db, id)
    case Err(e) => Err(e)
    case Ok(existing) =>
      var saved := existing.(
        name := spaceUpdate.name,
        description := spaceUpdate.description,
        spaceType := spaceUpdate.spaceType,
        capacity := spaceUpdate.capacity,
        pricePerHour := spaceUpdate.pricePerHour,
        amenities := spaceUpdate.amenities,
        imageUrl := spaceUpdate.imageUrl,
        available := spaceUpdate.available,
        floor := spaceUpdate.floor,
        location := spaceUpdate.location);
      Ok((db.(spaces := db.spaces[id := saved]), saved))
  }

  /** Some reservation of the space is not cancelled: PENDING, CONFIRMED and
      COMPLETED all count. */
  predicate HasActiveReservation(db: Db, spaceId: nat) {
    exists rid :: rid in db.reservations
      && db.reservations[rid].spaceId == spaceId
      && db.reservations[rid].status != Cancelled
  }

  /** delete: refuses while the space has an active reservation, otherwise
      removes exactly that space. */
  function Delete(db: Db, id: nat): (r: Result<Db>)
    ensures id !in db.spaces ==> r == Err(NotFound)
    ensures id in db.spaces && HasActiveReservation(db, id) ==> r == Err(BadRequest)
    ensures r.Ok? <==> id in db.spaces && !HasActiveReservation(db, id)
    ensures r.Ok? ==>
      && id !in r.value.spaces
      && (forall other :: other != id ==>
            (other in r.value.spaces <==> other in db.spaces)
            && (other in db.spaces ==> r.value.spaces[other] == db.spaces[other]))
      && r.value.reservations == db.reservations
  {
    match FindById(db, id)
    case Err(e) => Err(e)
    case Ok(_) =>
      var ofSpace := ReservationRepository.FindBySpaceId(db.reservations, Some(id));
      var active := map rid | rid in ofSpace && ofSpace[rid].status != Cancelled :: ofSpace[rid];
      assert forall rid :: rid in db.reservations ==>
        (rid in active.Keys <==> db.reservations[rid].spaceId == id && db.reservations[rid].status != Cancelled);
      if |active.Keys| > 0 then
        assert exists rid :: rid in active.Keys;
        Err(BadRequest)
      else Ok(db.(spaces := db.spaces - {id}))
  }

  /** A space meeting the entity's constraints passes create's checks. */
  lemma ValidSpaceIsAccepted(db: Db, space: Space, now: Instant)
    requires ValidSpace(space)
    ensures Create(db, space, now).Ok?
  {
  }

  /** update makes none of create's checks: an update to a capacity of zero
      or a price of zero is saved. */
  lemma UpdateSkipsCreateChecks(db: Db, id: nat, spaceUpdate: Space, now: Instant)
    requires id in db.spaces
    requires CreateRejected(spaceUpdate)
    ensures Create(db, spaceUpdate, now).Err?
    ensures Update(db, id, spaceUpdate).Ok?
  {
  }

  /** The space operations keep the store invariant. */
  lemma SpaceOperationsPreserveInv(db: Db, id: nat, space: Space, now: Instant)
    requires Inv(db)
    ensures Create(db, space, now).Ok? ==> Inv(Create(db, space, now).value.0)
    ensures Update(db, id, space).Ok? ==> Inv(Update(db, id, space).value.0)
    ensures Delete(db, id).Ok? ==> Inv(Delete(db, id).value)
  {
  }
}
