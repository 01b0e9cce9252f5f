/** The ride pages: the bookable-ride list with its prune and "book" button,
    the user's booked and offered rides with cancel and delete, the ride
    editor and the offer form. The queries are functions of the tables and
    `today` (the date behind `STRFTIME('%Y%m%d','now')` and `date.today()`);
    the handlers are methods that change the store in place. */
module Rides {
  import opened Options
  import opened Strings
  import opened Tables
  import opened Schema
  import opened Dates
  import opened Ordering
  import opened Reservations
  import opened Database

  /** `ORDER BY <date key>, time`. */
  function RideKey(r: Row<Ride>): Key
  {
    Key(DateKey(r.fields.date), r.fields.time)
  }

  // ---------------------------------------------------------------------------
  // The bookable-ride list

  /** One row of the list: the ride and its provider's user row. */
  datatype Offer = Offer(ride: Row<Ride>, provider: User)

  function OfferKey(o: Offer): Key
  {
    RideKey(o.ride)
  }

  /** The list's `WHERE`: seats left, not in the past, not the viewer's own
      ride, and not a ride the viewer has booked. */
  predicate Listed(ride: Row<Ride>, bookings: Table<Booking>, viewer: nat, today: Date)
    requires ValidDate(today)
  {
    && ride.fields.seats > 0
    && NotPast(ride.fields.date, today)
    && ride.fields.providerId != viewer
    && !HasBooking(bookings, viewer, ride.id)
  }

  /** The filtered join, in table order. */
  function ListedOffers(users: Table<User>, rides: Table<Ride>, bookings: Table<Booking>, viewer: nat, today: Date)
    : (r: seq<Offer>)
    requires ValidDate(today)
    ensures forall o :: o in r <==>
              o.ride in rides && Listed(o.ride, bookings, viewer, today)
              && Find(users, o.ride.fields.providerId) == Some(o.provider)
  {
    if rides == [] then []
    else
      var rest := ListedOffers(users, rides[1..], bookings, viewer, today);
      assert forall x :: x in rides <==> x == rides[0] || x in rides[1..];
      if Listed(rides[0], bookings, viewer, today) then
        match Find(users, rides[0].fields.providerId)
        case Some(u) => [Offer(rides[0], u)] + rest
        case None => rest
      else rest
  }
  /** Offers listed by strictly ascending ride id. */
  predicate OfferIdsAscending(r: seq<Offer>)
  {
    forall i, j :: 0 <= i < j < |r| ==> r[i].ride.id < r[j].ride.id
  }

  /** The list keeps the rides' rowid order: each ride at most once, by
      ascending ride id. */
  lemma {:induction false} ListedOffersOrdered(users: Table<User>, rides: Table<Ride>, bookings: Table<Booking>,
                                               viewer: nat, today: Date)
    requires ValidDate(today) && Ascending(rides)
    ensures OfferIdsAscending(ListedOffers(users, rides, bookings, viewer, today))
  {
    if rides != [] {
      var rest := ListedOffers(users, rides[1..], bookings, viewer, today);
      ListedOffersOrdered(users, rides[1..], bookings, viewer, today);
      if Listed(rides[0], bookings, viewer, today) && Find(users, rides[0].fields.providerId).Some? {
        var o := Offer(rides[0], Find(users, rides[0].fields.providerId).value);
        assert ListedOffers(users, rides, bookings, viewer, today) == [o] + rest;
        forall y | y in rest
          ensures o.ride.id < y.ride.id
        {
          var k :| 0 <= k < |rides[1..]| && rides[1..][k] == y.ride;
          assert rides[0].id < rides[k + 1].id;
        }
        ConsOfferIds(o, rest);
      } else {
        assert ListedOffers(users, rides, bookings, viewer, today) == rest;
      }
    }
  }

  lemma ConsOfferIds(x: Offer, rest: seq<Offer>)
    requires OfferIdsAscending(rest) && forall y :: y in rest ==> x.ride.id < y.ride.id
    ensures OfferIdsAscending([x] + rest)
  {
    forall i, j | 0 <= i < j < |[x] + rest|
      ensures ([x] + rest)[i].ride.id < ([x] + rest)[j].ride.id
    {
      if i == 0 {
        assert ([x] + rest)[j] == rest[j - 1];
      } else {
        assert ([x] + rest)[i] == rest[i - 1] && ([x] + rest)[j] == rest[j - 1];
      }
    }
  }


  /** The bookable-ride list: exactly the listed rides whose provider exists,
      each with its provider, sorted by date key and then time. */
  function BookableRides(users: Table<User>, rides: Table<Ride>, bookings: Table<Booking>, viewer: nat, today: Date)
    : (r: seq<Offer>)
    requires ValidDate(today)
    ensures SortedBy(r, OfferKey)
    ensures multiset(r) == multiset(ListedOffers(users, rides, bookings, viewer, today))
    ensures forall o :: o in r <==>
              o.ride in rides && Listed(o.ride, bookings, viewer, today)
              && Find(users, o.ride.fields.providerId) == Some(o.provider)
  {
    var listed := ListedOffers(users, rides, bookings, viewer, today);
    var sorted := SortBy(listed, OfferKey);
    forall o
      ensures o in sorted <==> o in listed
    {
      SortByMembers(listed, OfferKey, o);
    }
    sorted
  }

  /** `get_rides_db` and `get_user_bookings_db` order by the stored
      `DD.MM.YYYY` text itself, which is not calendar order: 1 February 2025
      sorts before 2 January 2025. The pages' own queries use `RideKey`,
      which puts them the right way round. */
  lemma RawDateOrderIsNotChronological()
    ensures ValidDate(Date(2025, 1, 2)) && ValidDate(Date(2025, 2, 1))
    ensures Before(Date(2025, 1, 2), Date(2025, 2, 1))
    ensures Lt(FormatDotted(Date(2025, 2, 1)), FormatDotted(Date(2025, 1, 2)))
    ensures Lt(DateKey(FormatDotted(Date(2025, 1, 2))), DateKey(FormatDotted(Date(2025, 2, 1))))
  {
    var feb1 := FormatDotted(Date(2025, 2, 1));
    var jan2 := FormatDotted(Date(2025, 1, 2));
    assert Pad(1, 2) == "01" && Pad(2, 2) == "02";
    assert feb1[0] == jan2[0] == '0' && feb1[1] == '1' && jan2[1] == '2';
    assert feb1[1..][0] < jan2[1..][0];
    DateKeyOrder(Date(2025, 1, 2), Date(2025, 2, 1));
  }

  /** For rides stored by the application (`DD.MM.YYYY` dates, `HH:MM`
      times), the list is in calendar order: an earlier row never has a
      later day, nor a later time on the same day. */
  lemma ListingIsChronological(list: seq<Offer>, i: nat, j: nat, di: Date, dj: Date, ti: Time, tj: Time)
    requires SortedBy(list, OfferKey) && i < j < |list|
    requires ValidDate(di) && ValidDate(dj) && ValidTime(ti) && ValidTime(tj)
    requires list[i].ride.fields.date == FormatDotted(di) && list[j].ride.fields.date == FormatDotted(dj)
    requires list[i].ride.fields.time == FormatTime(ti) && list[j].ride.fields.time == FormatTime(tj)
    ensures !Before(dj, di)
    ensures di == dj ==> !TimeBefore(tj, ti)
  {
    assert KeyLeq(OfferKey(list[i]), OfferKey(list[j]));
    DateKeyOrder(di, dj);
    DateKeyOrder(dj, di);
    TimeOrder(ti, tj);
    TimeOrder(tj, ti);
    if Before(dj, di) {
      LtAsymmetric(DateKey(FormatDotted(dj)), DateKey(FormatDotted(di)));
    }
    if di == dj && TimeBefore(tj, ti) {
      LtAsymmetric(FormatTime(tj), FormatTime(ti));
    }
  }

  /** The prune only removes rides the list's `WHERE` excludes anyway, so
      the list after pruning is the list before it. */
  lemma {:induction false} PruneKeepsListing(users: Table<User>, rides: Table<Ride>, bookings: Table<Booking>,
                                             viewer: nat, today: Date)
    requires ValidDate(today)
    ensures ListedOffers(users, PruneRides(rides, today), bookings, viewer, today)
            == ListedOffers(users, rides, bookings, viewer, today)
  {
    if rides != [] {
      PruneKeepsListing(users, rides[1..], bookings, viewer, today);
      if Current(rides[0].fields, today) {
        assert PruneRides(rides, today) == [rides[0]] + PruneRides(rides[1..], today);
        assert ([rides[0]] + PruneRides(rides[1..], today))[1..] == PruneRides(rides[1..], today);
      }
    }
  }

  /** The button of a listed ride books it, and does what `book_ride_db`
      would: the list never shows a ride the viewer already booked. */
  lemma ListedRideBooks(l: Ledger, users: Table<User>, viewer: nat, today: Date, o: Offer)
    requires Reservations.Valid(l) && ValidDate(today)
    requires o in BookableRides(users, l.rides, l.bookings, viewer, today)
    ensures BookFromButton(l, viewer, o.ride.id).ok
    ensures BookFromButton(l, viewer, o.ride.id) == Book(l, viewer, o.ride.id)
  {
    FindMember(l.rides, o.ride);
    ButtonAgreesWithBook(l, viewer, o.ride.id);
  }

  // ---------------------------------------------------------------------------
  // The user's booked rides

  /** One row of "my booked rides": the booking id, the ride, its provider. */
  datatype BookedRide = BookedRide(bookingId: nat, ride: Row<Ride>, provider: User)

  function BookedKey(b: BookedRide): Key
  {
    RideKey(b.ride)
  }

  /** One booking joined with its ride and provider, when both exist and the
      ride is not in the past. */
  function BookedRow(users: Table<User>, rides: Table<Ride>, b: Row<Booking>, today: Date): (r: Option<BookedRide>)
    requires ValidDate(today)
    ensures r.Some? <==>
              && Find(rides, b.fields.rideId).Some?
              && NotPast(Find(rides, b.fields.rideId).value.date, today)
              && Find(users, Find(rides, b.fields.rideId).value.providerId).Some?
    ensures r.Some? ==> r.value.bookingId == b.id && r.value.ride == Row(b.fields.rideId, Find(rides, b.fields.rideId).value)
  {
    match Find(rides, b.fields.rideId)
    case Some(ride) =>
      if NotPast(ride.date, today) then
        match Find(users, ride.providerId)
        case Some(u) => Some(BookedRide(b.id, Row(b.fields.rideId, ride), u))
        case None => None
      else None
    case None => None
  }

  function JoinBooked(users: Table<User>, rides: Table<Ride>, bookings: Table<Booking>, userId: nat, today: Date)
    : (r: seq<BookedRide>)
    requires ValidDate(today)
    ensures forall x :: x in r <==>
              exists b :: b in bookings && b.fields.userId == userId && BookedRow(users, rides, b, today) == Some(x)
  {
    if bookings == [] then []
    else
      var rest := JoinBooked(users, rides, bookings[1..], userId, today);
      assert forall b :: b in bookings <==> b == bookings[0] || b in bookings[1..];
      if bookings[0].fields.userId == userId then
        match BookedRow(users, rides, bookings[0], today)
        case Some(x) => [x] + rest
        case None => rest
      else rest
  }

  /** Booked rows listed by strictly ascending booking id. */
  predicate BookingIdsAscending(r: seq<BookedRide>)
  {
    forall i, j :: 0 <= i < j < |r| ==> r[i].bookingId < r[j].bookingId
  }

  /** The join keeps the bookings' rowid order: one row per booking, by
      ascending booking id. */
  lemma {:induction false} JoinBookedOrdered(users: Table<User>, rides: Table<Ride>, bookings: Table<Booking>,
                                             userId: nat, today: Date)
    requires ValidDate(today) && Ascending(bookings)
    ensures BookingIdsAscending(JoinBooked(users, rides, bookings, userId, today))
  {
    if bookings != [] {
      var rest := JoinBooked(users, rides, bookings[1..], userId, today);
      JoinBookedOrdered(users, rides, bookings[1..], userId, today);
      if bookings[0].fields.userId == userId && BookedRow(users, rides, bookings[0], today).Some? {
        var x := BookedRow(users, rides, bookings[0], today).value;
        assert JoinBooked(users, rides, bookings, userId, today) == [x] + rest;
        BookingIdsAfterFirst(users, rides, bookings, userId, today, x, rest);
        ConsBookingIds(x, rest);
      } else {
        assert JoinBooked(users, rides, bookings, userId, today) == rest;
      }
    }
  }

  /** The rows joined from the later bookings carry larger booking ids. */
  lemma BookingIdsAfterFirst(users: Table<User>, rides: Table<Ride>, bookings: Table<Booking>, userId: nat, today: Date,
                             x: BookedRide, rest: seq<BookedRide>)
    requires ValidDate(today) && Ascending(bookings) && bookings != []
    requires BookedRow(users, rides, bookings[0], today) == Some(x)
    requires forall y :: y in rest ==>
               exists b :: b in bookings[1..] && b.fields.userId == userId && BookedRow(users, rides, b, today) == Some(y)
    ensures forall y :: y in rest ==> x.bookingId < y.bookingId
  {
    forall y | y in rest
      ensures x.bookingId < y.bookingId
    {
      var b :| b in bookings[1..] && b.fields.userId == userId && BookedRow(users, rides, b, today) == Some(y);
      var k :| 0 <= k < |bookings[1..]| && bookings[1..][k] == b;
      assert bookings[0].id < bookings[k + 1].id;
    }
  }

  lemma ConsBookingIds(x: BookedRide, rest: seq<BookedRide>)
    requires BookingIdsAscending(rest) && forall y :: y in rest ==> x.bookingId < y.bookingId
    ensures BookingIdsAscending([x] + rest)
  {
    forall i, j | 0 <= i < j < |[x] + rest|
      ensures ([x] + rest)[i].bookingId < ([x] + rest)[j].bookingId
    {
      if i == 0 {
        assert ([x] + rest)[j] == rest[j - 1];
      } else {
        assert ([x] + rest)[i] == rest[i - 1] && ([x] + rest)[j] == rest[j - 1];
      }
    }
  }

  /** "My booked rides": the user's bookings whose ride still exists and is
      not in the past, with the ride and its provider, sorted by date key and
      then time. */
  function MyBookedRides(users: Table<User>, rides: Table<Ride>, bookings: Table<Booking>, userId: nat, today: Date)
    : (r: seq<BookedRide>)
    requires ValidDate(today)
    ensures SortedBy(r, BookedKey)
    ensures multiset(r) == multiset(JoinBooked(users, rides, bookings, userId, today))
    ensures forall x :: x in r <==>
              exists b :: b in bookings && b.fields.userId == userId && BookedRow(users, rides, b, today) == Some(x)
  {
    var joined := JoinBooked(users, rides, bookings, userId, today);
    var sorted := SortBy(joined, BookedKey);
    forall x
      ensures x in sorted <==> x in joined
    {
      SortByMembers(joined, BookedKey, x);
    }
    sorted
  }

  /** A booking whose ride is gone (pruned, or deleted by `delete_ride_db`)
      is not listed. */
  lemma OrphanNotListed(users: Table<User>, rides: Table<Ride>, bookings: Table<Booking>, userId: nat, today: Date,
                        bookingId: nat, b: Booking)
    requires ValidDate(today) && Ascending(bookings)
    requires Find(bookings, bookingId) == Some(b) && Find(rides, b.rideId).None?
    ensures forall x :: x in MyBookedRides(users, rides, bookings, userId, today) ==> x.bookingId != bookingId
  {
    forall x | x in MyBookedRides(users, rides, bookings, userId, today)
      ensures x.bookingId != bookingId
    {
      var row :| row in bookings && row.fields.userId == userId && BookedRow(users, rides, row, today) == Some(x);
      if row.id == bookingId {
        FindMember(bookings, row);
      }
    }
  }

  /** Booking the last seat of a ride and then opening the ride list (which
      prunes full rides) removes the ride: the booking row stays, but the
      ride no longer appears among the booker's booked rides. */
  lemma LastSeatThenPrune(l: Ledger, users: Table<User>, userId: nat, rideId: nat, today: Date)
    requires Reservations.Valid(l) && ValidDate(today)
    requires SeatsOf(l.rides, rideId) == 1 && Find(l.rides, rideId).Some? && !HasBooking(l.bookings, userId, rideId)
    ensures var booked := Book(l, userId, rideId);
            var pruned := Prune(booked.after, today);
            && booked.ok
            && HasBooking(pruned.bookings, userId, rideId)
            && Find(pruned.rides, rideId).None?
            && forall x :: x in MyBookedRides(users, pruned.rides, pruned.bookings, userId, today) ==> x.ride.id != rideId
  {
    var booked := Book(l, userId, rideId);
    BookStep(l, userId, rideId);
    var pruned := Prune(booked.after, today);
    PruneEffect(booked.after, today);
    var full := Find(booked.after.rides, rideId).value;
    assert Row(rideId, full) in booked.after.rides;
    assert !Current(full, today);
    forall x | x in MyBookedRides(users, pruned.rides, pruned.bookings, userId, today)
      ensures x.ride.id != rideId
    {
      var row :| row in pruned.bookings && row.fields.userId == userId && BookedRow(users, pruned.rides, row, today) == Some(x);
    }
    assert Row(l.lastBookingId + 1, Booking(userId, rideId)) in pruned.bookings;
  }

  // ---------------------------------------------------------------------------
  // The user's offered rides and their passengers

  /** "My offered rides": the rides the user provides, sorted by date key
      and then time. */
  function MyOfferedRides(rides: Table<Ride>, userId: nat): (r: Table<Ride>)
    ensures SortedBy(r, RideKey)
    ensures multiset(r) == multiset(RidesOf(rides, userId))
    ensures forall x :: x in r <==> x in rides && x.fields.providerId == userId
  {
    var own := RidesOf(rides, userId);
    var sorted := SortBy(own, RideKey);
    forall x
      ensures x in sorted <==> x in own
    {
      SortByMembers(own, RideKey, x);
    }
    sorted
  }

  /** `WHERE provider_id = ?`, in rowid order. */
  function RidesOf(rides: Table<Ride>, userId: nat): (r: Table<Ride>)
    ensures forall x :: x in r <==> x in rides && x.fields.providerId == userId
    ensures Ascending(rides) ==> Ascending(r)
  {
    if rides == [] then []
    else if rides[0].fields.providerId == userId then [rides[0]] + RidesOf(rides[1..], userId)
    else RidesOf(rides[1..], userId)
  }

  /** The passenger list of a ride: the user row of each booking of it, in
      booking order, one entry per booking whose user exists. */
  function Passengers(users: Table<User>, bookings: Table<Booking>, rideId: nat): (r: seq<User>)
    ensures |r| <= BookingsFor(bookings, rideId)
    ensures forall u :: u in r <==>
              exists b :: b in bookings && b.fields.rideId == rideId && Find(users, b.fields.userId) == Some(u)
  {
    if bookings == [] then []
    else
      var rest := Passengers(users, bookings[1..], rideId);
      assert forall b :: b in bookings <==> b == bookings[0] || b in bookings[1..];
      if bookings[0].fields.rideId == rideId then
        match Find(users, bookings[0].fields.userId)
        case Some(u) => [u] + rest
        case None => rest
      else rest
  }

  /** The bookings of the ride whose user row is `u`. */
  ghost function BookingsBy(users: Table<User>, bookings: Table<Booking>, rideId: nat, u: User): set<Row<Booking>>
  {
    set b | b in bookings && b.fields.rideId == rideId && Find(users, b.fields.userId) == Some(u)
  }

  /** A passenger appears once per booking of the ride: a user who booked
      it twice is listed twice. */
  lemma {:induction false} PassengersCounts(users: Table<User>, bookings: Table<Booking>, rideId: nat, u: User)
    requires Ascending(bookings)
    ensures multiset(Passengers(users, bookings, rideId))[u] == |BookingsBy(users, bookings, rideId, u)|
  {
    if bookings == [] {
      assert BookingsBy(users, bookings, rideId, u) == {};
    } else {
      var b0 := bookings[0];
      var rest := Passengers(users, bookings[1..], rideId);
      PassengersCounts(users, bookings[1..], rideId, u);
      BookingsBySplit(users, bookings, rideId, u);
      if b0.fields.rideId == rideId && Find(users, b0.fields.userId).Some? {
        assert Passengers(users, bookings, rideId) == [Find(users, b0.fields.userId).value] + rest;
      } else {
        assert Passengers(users, bookings, rideId) == rest;
      }
    }
  }

  /** The first booking adds itself to the set when it is the ride's and
      its user is `u`. */
  lemma BookingsBySplit(users: Table<User>, bookings: Table<Booking>, rideId: nat, u: User)
    requires Ascending(bookings) && bookings != []
    ensures var b0 := bookings[0];
            |BookingsBy(users, bookings, rideId, u)|
            == |BookingsBy(users, bookings[1..], rideId, u)|
               + (if b0.fields.rideId == rideId && Find(users, b0.fields.userId) == Some(u) then 1 else 0)
  {
    var b0 := bookings[0];
    var all := BookingsBy(users, bookings, rideId, u);
    var later := BookingsBy(users, bookings[1..], rideId, u);
    HeadNotInTail(bookings);
    assert forall b :: b in bookings <==> b == b0 || b in bookings[1..];
    if b0.fields.rideId == rideId && Find(users, b0.fields.userId) == Some(u) {
      assert all == later + {b0};
    } else {
      assert all == later;
    }
  }

  // ---------------------------------------------------------------------------
  // Handlers that change the store

  /** The prune `show_display_rides` runs before listing. */
  method PruneCatalog(db: Store, today: Date)
    requires db.Valid() && ValidDate(today)
    modifies db
    ensures db.Valid()
    ensures db.RideLedger() == Prune(old(db.RideLedger()), today)
    ensures db.RidePart().lastId == old(db.RidePart().lastId)
    ensures db.UserPart() == old(db.UserPart()) && db.VehiclePart() == old(db.VehiclePart())
  {
    db.rides := PruneRides(db.rides, today);
  }

  /** The "book" button of the list: re-read the seat count, then insert the
      booking and run `available_seats = available_seats - 1`. */
  method BookFromListing(db: Store, userId: nat, rideId: nat) returns (ok: bool)
    requires db.Valid()
    modifies db
    ensures db.Valid()
    ensures ok == BookFromButton(old(db.RideLedger()), userId, rideId).ok
    ensures db.RideLedger() == BookFromButton(old(db.RideLedger()), userId, rideId).after
    ensures db.RidePart().lastId == old(db.RidePart().lastId)
    ensures db.UserPart() == old(db.UserPart()) && db.VehiclePart() == old(db.VehiclePart())
  {
    ghost var before := db.RideLedger();
    var current := Find(db.rides, rideId);
    if current.None? || current.value.seats <= 0 {
      return false;
    }
    ButtonReserves(before, userId, rideId, current.value, db.lastRideId);
    var rides := Modify(db.rides, rideId, TakeSeat);
    var bookings := Insert(db.bookings, db.lastBookingId, Booking(userId, rideId));
    db.rides, db.bookings, db.lastBookingId := rides, bookings, db.lastBookingId + 1;
    return true;
  }

  /** "Cancel booking": give the seat back with `available_seats =
      available_seats + 1` when the booking is found, then delete it. */
  method CancelBooking(db: Store, bookingId: nat)
    requires db.Valid()
    modifies db
    ensures db.Valid()
    ensures db.RideLedger() == Cancel(old(db.RideLedger()), bookingId)
    ensures db.RidePart().lastId == old(db.RidePart().lastId)
    ensures db.UserPart() == old(db.UserPart()) && db.VehiclePart() == old(db.VehiclePart())
  {
    var booking := Find(db.bookings, bookingId);
    var rides := db.rides;
    if booking.Some? {
      GiveSeatReturns(db.rides, booking.value.rideId);
      ModifyWellFormed(db.rides, booking.value.rideId, GiveSeat, db.lastRideId);
      rides := Modify(db.rides, booking.value.rideId, GiveSeat);
    }
    db.rides, db.bookings := rides, Delete(db.bookings, bookingId);
  }

  /** The provider's "delete": the ride row, then every booking of it. */
  method DeleteOfferedRide(db: Store, rideId: nat)
    requires db.Valid()
    modifies db
    ensures db.Valid()
    ensures db.RideLedger() == DeleteCascade(old(db.RideLedger()), rideId)
    ensures db.RidePart().lastId == old(db.RidePart().lastId)
    ensures db.UserPart() == old(db.UserPart()) && db.VehiclePart() == old(db.VehiclePart())
  {
    db.rides := Delete(db.rides, rideId);
    db.bookings := DeleteBookingsOf(db.bookings, rideId);
  }

  // ---------------------------------------------------------------------------
  // The ride editor

  /** The values the edit form opens with. */
  datatype EditForm = EditForm(start: string, destination: string, date: Date, time: Time, seats: int)

  /** `edit_ride` loading a ride: nothing when the ride is gone; otherwise its
      fields, with the stored date and time parsed (today and midnight when
      they do not parse). */
  function EditDefaults(rides: Table<Ride>, rideId: nat, today: Date): (r: Option<EditForm>)
    requires ValidDate(today)
    ensures r.None? <==> Find(rides, rideId).None?
    ensures r.Some? ==>
              var ride := Find(rides, rideId).value;
              && r.value.start == ride.start && r.value.destination == ride.destination && r.value.seats == ride.seats
              && r.value.date == DateOrToday(ride.date, today) && r.value.time == TimeOrMidnight(ride.time)
              && ValidDate(r.value.date) && ValidTime(r.value.time)
  {
    match Find(rides, rideId)
    case Some(ride) =>
      Some(EditForm(ride.start, ride.destination, DateOrToday(ride.date, today), TimeOrMidnight(ride.time), ride.seats))
    case None => None
  }

  /** `not all([start, destination, date, time, seats])` is false: the two
      texts are non-empty and the seat count is not 0 (date and time objects
      are always truthy). */
  predicate RideFormComplete(start: string, destination: string, seats: int)
  {
    start != "" && destination != "" && seats != 0
  }

  datatype EditOutcome = RideGone | MissingFields | Saved

  /** Submitting the ride editor: the ride must still be there and the form
      complete; then the same `UPDATE` as `update_ride_db`, with the date and
      time written by `strftime("%d.%m.%Y")` and `strftime("%H:%M")`. */
  method SaveRideEdit(db: Store, rideId: nat, start: string, destination: string, date: Date, time: Time, seats: int)
    returns (outcome: EditOutcome)
    requires db.Valid() && ValidDate(date) && ValidTime(time)
    modifies db
    ensures db.Valid()
    ensures outcome == if Find(old(db.rides), rideId).None? then RideGone
                       else if !RideFormComplete(start, destination, seats) then MissingFields
                       else Saved
    ensures outcome != Saved ==> db.rides == old(db.rides)
    ensures outcome == Saved ==>
              db.rides == Update(old(db.rides), rideId,
                                 EditedRide(Find(old(db.rides), rideId).value, start, destination,
                                            FormatDotted(date), FormatTime(time), seats))
    ensures db.RidePart().lastId == old(db.RidePart().lastId)
    ensures db.bookings == old(db.bookings) && db.lastBookingId == old(db.lastBookingId)
    ensures db.UserPart() == old(db.UserPart()) && db.VehiclePart() == old(db.VehiclePart())
  {
    if Find(db.rides, rideId).None? {
      return RideGone;
    }
    if !RideFormComplete(start, destination, seats) {
      return MissingFields;
    }
    var _ := db.UpdateRide(rideId, start, destination, FormatDotted(date), FormatTime(time), seats);
    return Saved;
  }

  /** Reopening the editor after a save shows exactly what was saved: the
      stored date and time parse back to the chosen ones. */
  lemma SavedEditReloads(rides: Table<Ride>, rideId: nat, start: string, destination: string,
                         date: Date, time: Time, seats: int, today: Date)
    requires ValidDate(date) && ValidTime(time) && ValidDate(today) && Find(rides, rideId).Some?
    ensures var saved := Update(rides, rideId, EditedRide(Find(rides, rideId).value, start, destination,
                                                          FormatDotted(date), FormatTime(time), seats));
            EditDefaults(saved, rideId, today) == Some(EditForm(start, destination, date, time, seats))
  {
    var edited := EditedRide(Find(rides, rideId).value, start, destination, FormatDotted(date), FormatTime(time), seats);
    FindUpdate(rides, rideId, edited, rideId);
    DottedRoundTrip(date);
    TimeRoundTrip(time);
  }

  // ---------------------------------------------------------------------------
  // Offering a ride

  /** The offer form: when complete, insert the ride with the date and time
      written by `strftime`; the new ride's id, or nothing. */
  method OfferRide(db: Store, providerId: nat, start: string, destination: string, date: Date, time: Time, seats: int)
    returns (id: Option<nat>)
    requires db.Valid() && ValidDate(date) && ValidTime(time)
    modifies db
    ensures db.Valid()
    ensures id.Some? <==> RideFormComplete(start, destination, seats)
    ensures id.None? ==> db.RidePart() == old(db.RidePart())
    ensures id.Some? ==>
              && id.value == old(db.lastRideId) + 1 && db.lastRideId == id.value
              && db.rides == old(db.rides)
                             + [Row(id.value, Ride(providerId, start, destination, FormatDotted(date), FormatTime(time), seats))]
    ensures db.bookings == old(db.bookings) && db.lastBookingId == old(db.lastBookingId)
    ensures db.UserPart() == old(db.UserPart()) && db.VehiclePart() == old(db.VehiclePart())
  {
    if !RideFormComplete(start, destination, seats) {
      return None;
    }
    var newId := db.AddRide(providerId, start, destination, FormatDotted(date), FormatTime(time), seats);
    return Some(newId);
  }

  /** A ride offered for today or later, with seats, appears in the list of
      every other user who has not booked it. */
  lemma OfferedRideIsListed(users: Table<User>, rides: Table<Ride>, bookings: Table<Booking>,
                            ride: Row<Ride>, date: Date, provider: User, viewer: nat, today: Date)
    requires ValidDate(date) && ValidDate(today) && !Before(date, today)
    requires ride.fields.date == FormatDotted(date) && ride.fields.seats > 0
    requires Find(users, ride.fields.providerId) == Some(provider)
    requires viewer != ride.fields.providerId && !HasBooking(bookings, viewer, ride.id)
    ensures Offer(ride, provider) in BookableRides(users, rides + [ride], bookings, viewer, today)
  {
    NotPastIsChronological(date, today);
    assert ride in rides + [ride];
  }
}
