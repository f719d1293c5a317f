/** ReservationService: the reservation lifecycle over the store. Every
    operation either fails, leaving the store as it was, or answers with the
    new store and the saved reservation. The clock is the parameter `now`. */
module ReservationService {
  import opened Wrappers
  import opened Model
  import opened Durations
  import opened ReservationRepository
  import opened Store

  /** findById. */
  function FindById(db: Db, id: nat): (r: Result<Reservation>)
    ensures r.Ok? <==> id in db.reservations
    ensures r.Ok? ==> r.value == db.reservations[id]
    ensures r.Err? ==> r.error == NotFound
  {
    if id in db.reservations then Ok(db.reservations[id]) else Err(NotFound)
  }

  /** validateTimes: both times present, the end strictly after the start,
      and the start not before `now`. Answers with the two times. */
  function ValidateTimes(startTime: Option<Instant>, endTime: Option<Instant>, now: Instant): (r: Result<(Instant, Instant)>)
    ensures r.Ok? <==> startTime.Some? && endTime.Some? && now <= startTime.value < endTime.value
    ensures r.Ok? ==> r.value == (startTime.value, endTime.value)
    ensures r.Err? ==> r.error == BadRequest
  {
    if startTime.None? || endTime.None? then Err(BadRequest)
    else if !(endTime.value > startTime.value) then Err(BadRequest)
    else if startTime.value < now then Err(BadRequest)
    else Ok((startTime.value, endTime.value))
  }

  /** checkConflicts: the conflict query, less the reservation being updated. */
  function CheckConflicts(table: Table, spaceId: nat, start: Instant, end: Instant, excludeId: Option<nat>): (r: Result<()>)
    ensures r.Ok? <==>
      forall id :: id in table && Some(id) != excludeId ==> !IsConflicting(table[id], spaceId, start, end)
    ensures r.Err? ==> r.error == BadRequest
  {
    var conflicts := FindConflictingReservations(table, spaceId, start, end);
    var remaining := if excludeId.None? then conflicts
                     else map id | id in conflicts && id != excludeId.value :: conflicts[id];
    assert forall id ::
      id in table && Some(id) != excludeId && IsConflicting(table[id], spaceId, start, end) ==> id in remaining.Keys;
    if remaining.Keys == {} then Ok(())
    else
      assert exists id :: id in remaining;
      Err(BadRequest)
  }

  /** The hours calculatePrice bills: the whole minutes of the duration divided
      by 60 and rounded up, and at least one. */
  function BilledHours(start: Instant, end: Instant): (hours: int)
    ensures hours >= 1
    ensures ToMinutes(start, end) > 0 ==> (hours - 1) * 60 < ToMinutes(start, end) <= hours * 60
    ensures ToMinutes(start, end) <= 0 ==> hours == 1
  {
    var minutes := ToMinutes(start, end);
    if minutes <= 0 then 1 else (minutes + 59) / 60
  }

  /** calculatePrice: at least one hour's price, and never less than the
      price of the whole minutes at the hourly rate. */
  function CalculatePrice(pricePerHour: Cents, start: Instant, end: Instant): (price: Cents)
    ensures pricePerHour >= 0 ==> price >= pricePerHour
    ensures pricePerHour >= 0 ==> price * 60 >= pricePerHour * ToMinutes(start, end)
  {
    var hours := BilledHours(start, end);
    if pricePerHour < 0 then pricePerHour * hours
    else
      MulMonotone(pricePerHour, 1, hours);
      MulMonotone(pricePerHour, ToMinutes(start, end), hours * 60);
      pricePerHour * hours
  }

  lemma MulMonotone(k: int, a: int, b: int)
    requires k >= 0 && a <= b
    ensures k * a <= k * b
  {
    assert k * b - k * a == k * (b - a);
  }

  /** Everything create checks passes: valid times, a known space id, a space
      not marked unavailable, no conflicting reservation, and a price to bill. */
  predicate CreateAccepted(db: Db, draft: ReservationDraft, now: Instant) {
    && draft.startTime.Some? && draft.endTime.Some?
    && now <= draft.startTime.value < draft.endTime.value
    && draft.spaceId.Some? && draft.spaceId.value in db.spaces
    && db.spaces[draft.spaceId.value].available != Some(false)
    && (forall id :: id in db.reservations ==>
          !IsConflicting(db.reservations[id], draft.spaceId.value, draft.startTime.value, draft.endTime.value))
    && db.spaces[draft.spaceId.value].pricePerHour.Some?
  }

  /** create. A null space id fails as findById(null) does, and a null price
      fails where calculatePrice dereferences it. */
  function Create(db: Db, draft: ReservationDraft, now: Instant): (r: Result<(Db, Reservation)>)
    ensures r.Ok? <==> CreateAccepted(db, draft, now)
    ensures ValidateTimes(draft.startTime, draft.endTime, now).Err? ==> r == Err(BadRequest)
    ensures ValidateTimes(draft.startTime, draft.endTime, now).Ok? ==>
      && (draft.spaceId.None? ==> r == Err(ServerError))
      && (draft.spaceId.Some? && draft.spaceId.value !in db.spaces ==> r == Err(NotFound))
      && ((draft.spaceId.Some? && draft.spaceId.value in db.spaces
           && db.spaces[draft.spaceId.value].available == Some(false)) ==> r == Err(BadRequest))
      && ((draft.spaceId.Some? && draft.spaceId.value in db.spaces
           && db.spaces[draft.spaceId.value].available != Some(false)
           && (exists id :: id in db.reservations && IsConflicting(db.reservations[id], draft.spaceId.value,
                                                                   draft.startTime.value, draft.endTime.value)))
          ==> r == Err(BadRequest))
      && ((draft.spaceId.Some? && draft.spaceId.value in db.spaces
           && db.spaces[draft.spaceId.value].available != Some(false)
           && (forall id :: id in db.reservations ==> !IsConflicting(db.reservations[id], draft.spaceId.value,
                                                                    draft.startTime.value, draft.endTime.value))
           && db.spaces[draft.spaceId.value].pricePerHour.None?)
          ==> r == Err(ServerError))
    ensures r.Ok? ==>
      var (db', saved) := r.value;
      && saved.id == db.nextReservationId
      && saved.spaceId == draft.spaceId.value
      && saved.status == Confirmed
      && saved.userName == draft.userName && saved.userEmail == draft.userEmail
      && saved.userPhone == draft.userPhone && saved.notes == draft.notes
      && saved.startTime == draft.startTime && saved.endTime == draft.endTime
      && saved.totalPrice == Some(db.spaces[saved.spaceId].pricePerHour.value
                                  * BilledHours(draft.startTime.value, draft.endTime.value))
      && saved.createdAt == Some(now)
      && db'.reservations == db.reservations[saved.id := saved]
      && db'.spaces == db.spaces
      && db'.nextSpaceId == db.nextSpaceId
      && db'.nextReservationId == db.nextReservationId + 1
  {
    match ValidateTimes(draft.startTime, draft.endTime, now)
    case Err(e) => Err(e)
    case Ok((start, end)) =>
      if draft.spaceId.None? then Err(ServerError)
      else
        var spaceId := draft.spaceId.value;
        if spaceId !in db.spaces then Err(NotFound)
        else
          var space := db.spaces[spaceId];
          if space.available == Some(false) then Err(BadRequest)
          else if CheckConflicts(db.reservations, spaceId, start, end, None).Err? then Err(BadRequest)
          else if space.pricePerHour.None? then Err(ServerError)
          else
            var id := db.nextReservationId;
            var saved := NewReservation(draft, id, spaceId).(
              totalPrice := Some(CalculatePrice(space.pricePerHour.value, start, end)),
              status := Confirmed,
              createdAt := Some(now));
            Ok((db.(reservations := db.reservations[id := saved], nextReservationId := id + 1), saved))
  }

  /** Everything update checks passes: a known id, valid times, no conflict
      with another reservation, and a space with a price to bill. */
  predicate UpdateAccepted(db: Db, id: nat, draft: ReservationDraft, now: Instant) {
    && id in db.reservations
    && draft.startTime.Some? && draft.endTime.Some?
    && now <= draft.startTime.value < draft.endTime.value
    && (forall other :: other in db.reservations && other != id ==>
          !IsConflicting(db.reservations[other], db.reservations[id].spaceId,
                         draft.startTime.value, draft.endTime.value))
    && db.reservations[id].spaceId in db.spaces
    && db.spaces[db.reservations[id].spaceId].pricePerHour.Some?
  }

  /** update: the reservation keeps its id, space, status and creation time;
      the user's fields, the times and the notes come from `draft` (whose space
      id is ignored), and the price is recomputed from the space's price. */
  function Update(db: Db, id: nat, draft: ReservationDraft, now: Instant): (r: Result<(Db, Reservation)>)
    ensures r.Ok? <==> UpdateAccepted(db, id, draft, now)
    ensures id !in db.reservations ==> r == Err(NotFound)
    ensures id in db.reservations && ValidateTimes(draft.startTime, draft.endTime, now).Err? ==> r == Err(BadRequest)
    ensures id in db.reservations && ValidateTimes(draft.startTime, draft.endTime, now).Ok? ==>
      var spaceId := db.reservations[id].spaceId;
      var conflict := (exists other :: other in db.reservations && other != id
                         && IsConflicting(db.reservations[other], spaceId, draft.startTime.value, draft.endTime.value));
      && (conflict ==> r == Err(BadRequest))
      && (!conflict && (spaceId !in db.spaces || db.spaces[spaceId].pricePerHour.None?) ==> r == Err(ServerError))
    ensures r.Ok? ==>
      var (db', saved) := r.value;
      var existing := db.reservations[id];
      && saved.id == existing.id
      && saved.spaceId == existing.spaceId
      && saved.status == existing.status
      && saved.createdAt == existing.createdAt
      && saved.userName == draft.userName && saved.userEmail == draft.userEmail
      && saved.userPhone == draft.userPhone && saved.notes == draft.notes
      && saved.startTime == draft.startTime && saved.endTime == draft.endTime
      && saved.totalPrice == Some(db.spaces[existing.spaceId].pricePerHour.value
                                  * BilledHours(draft.startTime.value, draft.endTime.value))
      && db'.reservations == db.reservations[id := saved]
      && db'.spaces == db.spaces
      && db'.nextSpaceId == db.nextSpaceId && db'.nextReservationId == db.nextReservationId
  {
    match FindById(db, id)
    case Err(e) => Err(e)
    case Ok(existing) =>
      match ValidateTimes(draft.startTime, draft.endTime, now)
      case Err(e) => Err(e)
      case Ok((start, end)) =>
        if CheckConflicts(db.reservations, existing.spaceId, start, end, Some(id)).Err? then Err(BadRequest)
        else if existing.spaceId !in db.spaces then Err(ServerError)
        else if db.spaces[existing.spaceId].pricePerHour.None? then Err(ServerError)
        else
          var saved := existing.(
            userName := draft.userName,
            userEmail := draft.userEmail,
            userPhone := draft.userPhone,
            startTime := draft.startTime,
            endTime := draft.endTime,
            notes := draft.notes,
            totalPrice := Some(CalculatePrice(db.spaces[existing.spaceId].pricePerHour.value, start, end)));
          Ok((db.(reservations := db.reservations[id := saved]), saved))
  }

  /** cancel: whatever the status was, it becomes CANCELLED and nothing else
      changes. */
  function Cancel(db: Db, id: nat): (r: Result<(Db, Reservation)>)
    ensures r.Ok? <==> id in db.reservations
    ensures r.Err? ==> r.error == NotFound
    ensures r.Ok? ==>
      var (db', saved) := r.value;
      && saved.status == Cancelled
      && saved.(status := db.reservations[id].status) == db.reservations[id]
      && db'.reservations == db.reservations[id := saved]
      && db'.spaces == db.spaces
      && db'.nextSpaceId == db.nextSpaceId && db'.nextReservationId == db.nextReservationId
  {
    match FindById(db, id)
    case Err(e) => Err(e)
    case Ok(existing) =>
      var saved := existing.(status := Cancelled);
      Ok((db.(reservations := db.reservations[id := saved]), saved))
  }

  /** delete: removes exactly that reservation. */
  function Delete(db: Db, id: nat): (r: Result<Db>)
    ensures r.Ok? <==> id in db.reservations
    ensures r.Err? ==> r.error == NotFound
    ensures r.Ok? ==>
      && id !in r.value.reservations
      && (forall other :: other != id ==>
            (other in r.value.reservations <==> other in db.reservations)
            && (other in db.reservations ==> r.value.reservations[other] == db.reservations[other]))
      && r.value.spaces == db.spaces
  {
    match FindById(db, id)
    case Err(e) => Err(e)
    case Ok(_) => Ok(db.(reservations := db.reservations - {id}))
  }

  /** Cancelling twice is cancelling once. */
  lemma CancelIsIdempotent(db: Db, id: nat)
    requires id in db.reservations
    ensures Cancel(Cancel(db, id).value.0, id).value.0 == Cancel(db, id).value.0
  {
  }

  /** A new row that clashes with no row of a table keeps the table free of
      overlaps. */
  lemma {:induction false} InsertKeepsNoOverlap(table: Table, id: nat, row: Reservation)
    requires NoOverlap(table)
    requires forall other :: other in table && other != id ==> !Clash(row, table[other])
    ensures NoOverlap(table[id := row])
  {
    var t := table[id := row];
    forall i, j | i in t && j in t && i != j ensures !Clash(t[i], t[j]) {
      if i == id {
        assert !Clash(row, table[j]);
      } else if j == id {
        assert !Clash(row, table[i]);
        ClashIsSymmetric(row, table[i]);
      } else {
        assert t[i] == table[i] && t[j] == table[j];
      }
    }
  }

  /** create keeps the invariant: the conflict check rules out every clash
      with the new reservation. */
  lemma CreatePreservesInv(db: Db, draft: ReservationDraft, now: Instant)
    requires Inv(db)
    ensures Create(db, draft, now).Ok? ==> Inv(Create(db, draft, now).value.0)
  {
    var r := Create(db, draft, now);
    if r.Ok? {
      var (db', saved) := r.value;
      assert db.nextReservationId !in db.reservations;
      forall other | other in db.reservations && other != saved.id
        ensures !Clash(saved, db.reservations[other])
      {
      }
      InsertKeepsNoOverlap(db.reservations, saved.id, saved);
    }
  }

  /** update keeps the invariant: its conflict check covers every other
      reservation, and the updated one itself is replaced. */
  lemma UpdatePreservesInv(db: Db, id: nat, draft: ReservationDraft, now: Instant)
    requires Inv(db)
    ensures Update(db, id, draft, now).Ok? ==> Inv(Update(db, id, draft, now).value.0)
  {
    var r := Update(db, id, draft, now);
    if r.Ok? {
      var (db', saved) := r.value;
      forall other | other in db.reservations && other != id
        ensures !Clash(saved, db.reservations[other])
      {
      }
      InsertKeepsNoOverlap(db.reservations, id, saved);
    }
  }

  /** cancel keeps the invariant: a cancelled reservation clashes with none. */
  lemma CancelPreservesInv(db: Db, id: nat)
    requires Inv(db)
    ensures Cancel(db, id).Ok? ==> Inv(Cancel(db, id).value.0)
  {
    var r := Cancel(db, id);
    if r.Ok? {
      var (db', saved) := r.value;
      InsertKeepsNoOverlap(db.reservations, id, saved);
    }
  }

  /** delete keeps the invariant. */
  lemma DeletePreservesInv(db: Db, id: nat)
    requires Inv(db)
    ensures Delete(db, id).Ok? ==> Inv(Delete(db, id).value)
  {
    if Delete(db, id).Ok? {
      var t := Delete(db, id).value.reservations;
      forall i, j | i in t && j in t && i != j ensures !Clash(t[i], t[j]) {
        assert t[i] == db.reservations[i] && t[j] == db.reservations[j];
      }
    }
  }

  /** A reservation created from a draft whose fields fit their columns, for a
      price that fits its column, satisfies the entity's constraints. */
  lemma CreatedReservationIsValid(db: Db, draft: ReservationDraft, now: Instant)
    requires PresentText(draft.userName, MaxUserNameLength)
    requires PresentText(draft.userEmail, MaxUserEmailLength)
    requires FitsColumn(draft.userPhone, MaxUserPhoneLength)
    requires FitsColumn(draft.notes, MaxNotesLength)
    requires Create(db, draft, now).Ok?
    requires FitsMoney(Create(db, draft, now).value.1.totalPrice.value)
    ensures ValidReservation(Create(db, draft, now).value.1)
    ensures HasValidTimes(Create(db, draft, now).value.1)
  {
  }
}
