/** The entities of the booking domain: spaces, reservations and their enums,
    with the field constraints the entity classes declare. */
module Model {
  import opened Wrappers

  /** A LocalDateTime, as whole seconds on one fixed timeline. */
  type Instant = int

  /** A BigDecimal amount with scale 2, as a whole number of cents. */
  type Cents = int

  datatype SpaceType =
    | MeetingRoom
    | EventHall
    | CoworkingSpace
    | ConferenceRoom
    | TrainingRoom
    | Auditorium
    | Other

  datatype ReservationStatus = Pending | Confirmed | Cancelled | Completed

  /** A bookable space. Every field but the id may be null in the entity object;
      the database columns and the validation annotations forbid some of those
      nulls, which ValidSpace states. */
  datatype Space = Space(
    id: nat,
    name: Option<string>,
    description: Option<string>,
    spaceType: Option<SpaceType>,
    capacity: Option<int>,
    pricePerHour: Option<Cents>,
    amenities: Option<seq<string>>,
    imageUrl: Option<string>,
    available: Option<bool>,
    floor: Option<string>,
    location: Option<string>,
    createdAt: Option<Instant>)

  /** A booking of one space. `spaceId` is the (non-null) many-to-one reference
      to the space; the space itself lives in the store. */
  datatype Reservation = Reservation(
    id: nat,
    spaceId: nat,
    userName: Option<string>,
    userEmail: Option<string>,
    userPhone: Option<string>,
    startTime: Option<Instant>,
    endTime: Option<Instant>,
    status: ReservationStatus,
    totalPrice: Option<Cents>,
    notes: Option<string>,
    createdAt: Option<Instant>)

  /** The fields a caller fills in on a fresh Reservation object before handing
      it to the service. A fresh object has a null id, a null price, a null
      creation time and the status PENDING, so those are not part of the draft. */
  datatype ReservationDraft = ReservationDraft(
    spaceId: Option<nat>,
    userName: Option<string>,
    userEmail: Option<string>,
    userPhone: Option<string>,
    startTime: Option<Instant>,
    endTime: Option<Instant>,
    notes: Option<string>)

  /** The reservation object built from a draft, before the service touches it:
      the entity's field initialiser makes the status PENDING. */
  function NewReservation(draft: ReservationDraft, id: nat, spaceId: nat): (r: Reservation)
    ensures r.status == Pending && r.totalPrice.None? && r.createdAt.None?
    ensures r.startTime == draft.startTime && r.endTime == draft.endTime
    ensures r.userName == draft.userName && r.userEmail == draft.userEmail
  {
    Reservation(id, spaceId, draft.userName, draft.userEmail, draft.userPhone,
                draft.startTime, draft.endTime, Pending, None, draft.notes, None)
  }

  // Column lengths and numeric bounds declared on the entities.
  const MaxNameLength: nat := 100
  const MaxDescriptionLength: nat := 1000
  const MaxImageUrlLength: nat := 500
  const MaxFloorLength: nat := 50
  const MaxLocationLength: nat := 100
  const MaxUserNameLength: nat := 100
  const MaxUserEmailLength: nat := 100
  const MaxUserPhoneLength: nat := 20
  const MaxNotesLength: nat := 500
  /** The smallest hourly price, 0.01, in cents. */
  const MinPricePerHour: Cents := 1
  /** A decimal column of precision 10 and scale 2 holds less than 10^8 whole units. */
  const MoneyBound: Cents := 10_000_000_000

  /** Blank in the sense of @NotBlank: nothing left once characters up to
      U+0020 are trimmed. */
  predicate Blank(s: string) {
    forall i :: 0 <= i < |s| ==> s[i] <= ' '
  }

  /** A @NotBlank string in a column of the given length. */
  predicate PresentText(s: Option<string>, maxLength: nat) {
    s.Some? && !Blank(s.value) && |s.value| <= maxLength
  }

  /** An optional string in a column of the given length. */
  predicate FitsColumn(s: Option<string>, maxLength: nat) {
    s.None? || |s.value| <= maxLength
  }

  /** A decimal(10, 2) amount. */
  predicate FitsMoney(c: Cents) {
    -MoneyBound < c < MoneyBound
  }

  /** The constraints a stored space satisfies: a non-blank name of at most 100
      characters, a type, a capacity of at least 1, a price of at least 0.01 that
      fits the decimal column, an availability flag, and the column lengths of
      the optional texts. */
  predicate ValidSpace(s: Space) {
    && PresentText(s.name, MaxNameLength)
    && FitsColumn(s.description, MaxDescriptionLength)
    && s.spaceType.Some?
    && s.capacity.Some? && s.capacity.value >= 1
    && s.pricePerHour.Some? && s.pricePerHour.value >= MinPricePerHour
    && FitsMoney(s.pricePerHour.value)
    && FitsColumn(s.imageUrl, MaxImageUrlLength)
    && s.available.Some?
    && FitsColumn(s.floor, MaxFloorLength)
    && FitsColumn(s.location, MaxLocationLength)
  }

  /** The constraints a stored reservation satisfies: a non-blank user name and
      e-mail of at most 100 characters, a phone of at most 20, both times, a
      total price that fits the decimal column, and notes of at most 500. */
  predicate ValidReservation(r: Reservation) {
    && PresentText(r.userName, MaxUserNameLength)
    && PresentText(r.userEmail, MaxUserEmailLength)
    && FitsColumn(r.userPhone, MaxUserPhoneLength)
    && r.startTime.Some? && r.endTime.Some?
    && r.totalPrice.Some? && FitsMoney(r.totalPrice.value)
    && FitsColumn(r.notes, MaxNotesLength)
  }

  /** Both times are present and the end is strictly after the start: what the
      reservation service checks before it stores a reservation. */
  predicate HasValidTimes(r: Reservation) {
    r.startTime.Some? && r.endTime.Some? && r.startTime.value < r.endTime.value
  }
}

/** java.time.Duration between two instants, in the units the services read. */
module Durations {
  import opened Model

  const SecondsPerMinute: int := 60
  const SecondsPerHour: int := 3600

  /** Euclidean division of a non-negative number brackets it. */
  lemma DivBracket(a: int, d: int)
    requires a >= 0 && d > 0
    ensures 0 <= a / d
    ensures (a / d) * d <= a < (a / d + 1) * d
  {
    var q, r := a / d, a % d;
    assert a == q * d + r && 0 <= r < d;
    assert (q + 1) * d == q * d + d;
  }

  /** Java's integer division, which rounds toward zero. */
  function TruncDiv(a: int, d: int): (q: int)
    requires d > 0
    ensures a >= 0 ==> 0 <= q && q * d <= a < (q + 1) * d
    ensures a < 0 ==> q <= 0 && (q - 1) * d < a <= q * d
  {
    if a >= 0 then
      DivBracket(a, d);
      a / d
    else
      var p := (-a) / d;
      DivBracket(-a, d);
      assert (-p) * d == -(p * d);
      assert (-p - 1) * d == -((p + 1) * d);
      -p
  }

  /** Duration.between(start, end).toMinutes(). */
  function ToMinutes(start: Instant, end: Instant): int {
    TruncDiv(end - start, SecondsPerMinute)
  }

  /** Duration.between(start, end).toHours(). */
  function ToHours(start: Instant, end: Instant): int {
    TruncDiv(end - start, SecondsPerHour)
  }
}
