/** The booking ledger: the `rides` and `bookings` tables and every operation
    that touches a ride's seat count or a booking row, as pure transitions.
    The database and page handlers are proved to perform exactly these
    transitions; the lemmas here say what the transitions guarantee. */
module Reservations {
  import opened Options
  import opened Tables
  import opened Schema
  import opened Dates

  /** The two tables plus the bookings table's AUTOINCREMENT counter. */
  datatype Ledger = Ledger(rides: Table<Ride>, bookings: Table<Booking>, lastBookingId: nat)

  /** The outcome of a booking attempt: the new state and the value returned
      to the page (`True`/`False`). */
  datatype Attempt = Attempt(after: Ledger, ok: bool)

  ghost predicate Valid(l: Ledger)
  {
    Ascending(l.rides) && WellFormed(l.bookings, l.lastBookingId)
  }

  /** The seat count of a ride, 0 for a ride that is not there. */
  function SeatsOf(rides: Table<Ride>, rideId: nat): int
  {
    match Find(rides, rideId)
    case Some(ride) => ride.seats
    case None => 0
  }

  /** The ride exists and `available_seats > 0`. */
  predicate SeatsAvailable(rides: Table<Ride>, rideId: nat)
  {
    Find(rides, rideId).Some? && Find(rides, rideId).value.seats > 0
  }

  /** `SELECT COUNT(*) FROM bookings WHERE user_id=? AND ride_id=?` is positive. */
  predicate HasBooking(bookings: Table<Booking>, userId: nat, rideId: nat)
  {
    exists b :: b in bookings && b.fields.userId == userId && b.fields.rideId == rideId
  }

  /** The number of booking rows that reference a ride. */
  function BookingsFor(bookings: Table<Booking>, rideId: nat): nat
  {
    if bookings == [] then 0
    else (if bookings[0].fields.rideId == rideId then 1 else 0) + BookingsFor(bookings[1..], rideId)
  }

  /** No ride has a negative seat count. */
  ghost predicate SeatsNonNegative(rides: Table<Ride>)
  {
    forall x :: x in rides ==> x.fields.seats >= 0
  }

  /** The two writes of a successful booking: the booking row is inserted and
      the ride's seat count goes down by one. */
  function Reserve(l: Ledger, userId: nat, rideId: nat, ride: Ride): Ledger
  {
    Ledger(Update(l.rides, rideId, ride.(seats := ride.seats - 1)),
           Insert(l.bookings, l.lastBookingId, Booking(userId, rideId)),
           l.lastBookingId + 1)
  }

  /** `book_ride_db`: read the seat count; a missing ride or no free seat
      fails; then a booking the user already holds fails; otherwise reserve. */
  function Book(l: Ledger, userId: nat, rideId: nat): (r: Attempt)
    ensures r.ok <==> SeatsAvailable(l.rides, rideId) && !HasBooking(l.bookings, userId, rideId)
    ensures !r.ok ==> r.after == l
  {
    match Find(l.rides, rideId)
    case Some(ride) =>
      if ride.seats > 0 then
        if HasBooking(l.bookings, userId, rideId) then Attempt(l, false)
        else Attempt(Reserve(l, userId, rideId, ride), true)
      else Attempt(l, false)
    case None => Attempt(l, false)
  }

  /** The "book" button of the ride list: it re-reads the seat count and
      reserves when a seat is free, without looking for an earlier booking. */
  function BookFromButton(l: Ledger, userId: nat, rideId: nat): (r: Attempt)
    ensures r.ok <==> SeatsAvailable(l.rides, rideId)
    ensures !r.ok ==> r.after == l
  {
    match Find(l.rides, rideId)
    case Some(ride) =>
      if ride.seats <= 0 then Attempt(l, false)
      else Attempt(Reserve(l, userId, rideId, ride), true)
    case None => Attempt(l, false)
  }

  /** `UPDATE rides SET available_seats = available_seats + 1 WHERE id=?`. */
  function ReturnSeat(rides: Table<Ride>, rideId: nat): (r: Table<Ride>)
    ensures Find(rides, rideId).None? ==> r == rides
  {
    match Find(rides, rideId)
    case Some(ride) => Update(rides, rideId, ride.(seats := ride.seats + 1))
    case None => rides
  }

  /** `available_seats = available_seats - 1`, as one row's rewrite. */
  function TakeSeat(ride: Ride): Ride
  {
    ride.(seats := ride.seats - 1)
  }

  /** `available_seats = available_seats + 1`, as one row's rewrite. */
  function GiveSeat(ride: Ride): Ride
  {
    ride.(seats := ride.seats + 1)
  }

  /** The button's two statements on a ride with a free seat, the booking
      `INSERT` and the in-place `UPDATE ... available_seats - 1`, make the
      successful `BookFromButton`, and keep both tables well formed. */
  lemma ButtonReserves(l: Ledger, userId: nat, rideId: nat, ride: Ride, lastRideId: nat)
    requires Valid(l) && WellFormed(l.rides, lastRideId)
    requires Find(l.rides, rideId) == Some(ride) && ride.seats > 0
    ensures BookFromButton(l, userId, rideId)
            == Attempt(Ledger(Modify(l.rides, rideId, TakeSeat),
                              Insert(l.bookings, l.lastBookingId, Booking(userId, rideId)),
                              l.lastBookingId + 1), true)
    ensures WellFormed(Modify(l.rides, rideId, TakeSeat), lastRideId)
    ensures WellFormed(Insert(l.bookings, l.lastBookingId, Booking(userId, rideId)), l.lastBookingId + 1)
  {
    ModifyIsUpdate(l.rides, rideId, TakeSeat, ride);
    ModifyWellFormed(l.rides, rideId, TakeSeat, lastRideId);
    assert BookFromButton(l, userId, rideId) == Attempt(Reserve(l, userId, rideId, ride), true);
  }

  /** The in-place `UPDATE ... available_seats + 1` is `ReturnSeat`, whether
      or not the ride is still there. */
  lemma GiveSeatReturns(rides: Table<Ride>, rideId: nat)
    requires Ascending(rides)
    ensures Modify(rides, rideId, GiveSeat) == ReturnSeat(rides, rideId)
  {
    match Find(rides, rideId)
    case Some(ride) =>
      assert ReturnSeat(rides, rideId) == Update(rides, rideId, GiveSeat(ride));
      ModifyIsUpdate(rides, rideId, GiveSeat, ride);
    case None =>
      ModifyAbsent(rides, rideId, GiveSeat);
  }

  /** "Cancel booking": look up the booking's ride, give its seat back, then
      delete the booking row. */
  function Cancel(l: Ledger, bookingId: nat): (r: Ledger)
    ensures Find(l.bookings, bookingId).None? ==> r == l
    ensures Find(r.bookings, bookingId).None?
    ensures r.lastBookingId == l.lastBookingId
  {
    FindDelete(l.bookings, bookingId, bookingId);
    match Find(l.bookings, bookingId)
    case Some(b) => Ledger(ReturnSeat(l.rides, b.rideId), Delete(l.bookings, bookingId), l.lastBookingId)
    case None =>
      DeleteAbsent(l.bookings, bookingId);
      Ledger(l.rides, Delete(l.bookings, bookingId), l.lastBookingId)
  }

  /** `DELETE FROM bookings WHERE ride_id=?`. */
  function DeleteBookingsOf(bookings: Table<Booking>, rideId: nat): (r: Table<Booking>)
    ensures forall x :: x in r <==> x in bookings && x.fields.rideId != rideId
    ensures Ascending(bookings) ==> Ascending(r)
    ensures forall n: nat :: WellFormed(bookings, n) ==> WellFormed(r, n)
  {
    if bookings == [] then []
    else if bookings[0].fields.rideId == rideId then DeleteBookingsOf(bookings[1..], rideId)
    else [bookings[0]] + DeleteBookingsOf(bookings[1..], rideId)
  }

  /** The provider's "delete": the ride row and then every booking of it. */
  function DeleteCascade(l: Ledger, rideId: nat): Ledger
  {
    Ledger(Delete(l.rides, rideId), DeleteBookingsOf(l.bookings, rideId), l.lastBookingId)
  }

  /** A ride the catalog keeps: seats left and a date that is not in the past. */
  predicate Current(ride: Ride, today: Date)
    requires ValidDate(today)
  {
    ride.seats > 0 && NotPast(ride.date, today)
  }

  /** `DELETE FROM rides WHERE available_seats <= 0 OR <date key> < <today's key>`. */
  function PruneRides(rides: Table<Ride>, today: Date): (r: Table<Ride>)
    requires ValidDate(today)
    ensures forall x :: x in r <==> x in rides && Current(x.fields, today)
    ensures Ascending(rides) ==> Ascending(r)
    ensures forall n: nat :: WellFormed(rides, n) ==> WellFormed(r, n)
  {
    if rides == [] then []
    else if Current(rides[0].fields, today) then [rides[0]] + PruneRides(rides[1..], today)
    else PruneRides(rides[1..], today)
  }

  /** Pruning removes ride rows only; the bookings table is left as it is. */
  function Prune(l: Ledger, today: Date): Ledger
    requires ValidDate(today)
  {
    Ledger(PruneRides(l.rides, today), l.bookings, l.lastBookingId)
  }

  // ---------------------------------------------------------------------------
  // Table facts used below

  lemma {:induction false} DeleteAbsent<T(!new)>(t: Table<T>, id: nat)
    requires Find(t, id).None?
    ensures Delete(t, id) == t
  {
    if t != [] {
      DeleteAbsent(t[1..], id);
      assert t == [t[0]] + t[1..];
    }
  }

  lemma {:induction false} BookingsForAppend(bookings: Table<Booking>, row: Row<Booking>, rideId: nat)
    ensures BookingsFor(bookings + [row], rideId)
            == BookingsFor(bookings, rideId) + if row.fields.rideId == rideId then 1 else 0
  {
    if bookings != [] {
      assert (bookings + [row])[1..] == bookings[1..] + [row];
      BookingsForAppend(bookings[1..], row, rideId);
    }
  }

  /** Deleting one booking (ids are distinct) lowers its ride's count by one. */
  lemma {:induction false} BookingsForDelete(bookings: Table<Booking>, bookingId: nat, b: Booking, rideId: nat)
    requires Ascending(bookings) && Find(bookings, bookingId) == Some(b)
    ensures BookingsFor(Delete(bookings, bookingId), rideId)
            == BookingsFor(bookings, rideId) - if b.rideId == rideId then 1 else 0
  {
    if bookings[0].id == bookingId {
      assert forall x :: x in bookings[1..] ==> x.id > bookingId;
      DeleteAbsent(bookings[1..], bookingId);
    } else {
      BookingsForDelete(bookings[1..], bookingId, b, rideId);
    }
  }

  lemma HasBookingAppend(bookings: Table<Booking>, row: Row<Booking>, userId: nat, rideId: nat)
    ensures HasBooking(bookings + [row], userId, rideId)
            <==> HasBooking(bookings, userId, rideId) || row.fields == Booking(userId, rideId)
  {
    if row.fields == Booking(userId, rideId) {
      assert row in bookings + [row];
    }
    if HasBooking(bookings + [row], userId, rideId) && !HasBooking(bookings, userId, rideId) {
      var b :| b in bookings + [row] && b.fields.userId == userId && b.fields.rideId == rideId;
      assert b !in bookings;
    }
  }

  // ---------------------------------------------------------------------------
  // Booking

  /** What a reservation does, for both booking paths: exactly one new booking
      row for the user and the ride, that ride's seat count down by one with
      its other columns as they were, every other ride untouched. */
  lemma ReserveEffect(l: Ledger, userId: nat, rideId: nat)
    requires Valid(l) && SeatsAvailable(l.rides, rideId)
    ensures var ride := Find(l.rides, rideId).value;
            var after := Reserve(l, userId, rideId, ride);
            && Valid(after)
            && after.bookings == l.bookings + [Row(l.lastBookingId + 1, Booking(userId, rideId))]
            && Find(after.rides, rideId) == Some(ride.(seats := ride.seats - 1))
            && SeatsOf(after.rides, rideId) == SeatsOf(l.rides, rideId) - 1 >= 0
            && (forall x :: x != rideId ==> Find(after.rides, x) == Find(l.rides, x))
            && HasBooking(after.bookings, userId, rideId)
  {
    var ride := Find(l.rides, rideId).value;
    var after := Reserve(l, userId, rideId, ride);
    forall x
      ensures Find(after.rides, x) == if x != rideId then Find(l.rides, x) else Some(ride.(seats := ride.seats - 1))
    {
      FindUpdate(l.rides, rideId, ride.(seats := ride.seats - 1), x);
    }
    HasBookingAppend(l.bookings, Row(l.lastBookingId + 1, Booking(userId, rideId)), userId, rideId);
  }

  /** A reservation keeps `available_seats + number of bookings` of every ride. */
  lemma ReserveConservesSeats(l: Ledger, userId: nat, rideId: nat, x: nat)
    requires SeatsAvailable(l.rides, rideId)
    ensures var after := Reserve(l, userId, rideId, Find(l.rides, rideId).value);
            SeatsOf(after.rides, x) + BookingsFor(after.bookings, x)
            == SeatsOf(l.rides, x) + BookingsFor(l.bookings, x)
  {
    var ride := Find(l.rides, rideId).value;
    FindUpdate(l.rides, rideId, ride.(seats := ride.seats - 1), x);
    BookingsForAppend(l.bookings, Row(l.lastBookingId + 1, Booking(userId, rideId)), x);
  }

  /** `book_ride_db` on success: one booking added, one seat taken, nothing
      else changed. */
  lemma BookSuccess(l: Ledger, userId: nat, rideId: nat)
    requires Valid(l) && Book(l, userId, rideId).ok
    ensures var after := Book(l, userId, rideId).after;
            && Valid(after)
            && after.bookings == l.bookings + [Row(l.lastBookingId + 1, Booking(userId, rideId))]
            && SeatsOf(after.rides, rideId) == SeatsOf(l.rides, rideId) - 1 >= 0
            && (forall x :: x != rideId ==> Find(after.rides, x) == Find(l.rides, x))
  {
    ReserveEffect(l, userId, rideId);
  }

  /** Whatever it returns, `book_ride_db` keeps, for every ride,
      `available_seats + number of bookings of that ride`. */
  lemma BookConservesSeats(l: Ledger, userId: nat, rideId: nat, x: nat)
    ensures var after := Book(l, userId, rideId).after;
            SeatsOf(after.rides, x) + BookingsFor(after.bookings, x)
            == SeatsOf(l.rides, x) + BookingsFor(l.bookings, x)
  {
    if Book(l, userId, rideId).ok {
      ReserveConservesSeats(l, userId, rideId, x);
    }
  }

  /** Booking the same ride twice: the second call fails and changes nothing,
      so the seat count drops by exactly one over both calls when the first
      succeeded, and not at all otherwise. */
  lemma BookTwice(l: Ledger, userId: nat, rideId: nat)
    requires Valid(l)
    ensures var first := Book(l, userId, rideId);
            var second := Book(first.after, userId, rideId);
            && !second.ok
            && second.after == first.after
            && SeatsOf(second.after.rides, rideId) == SeatsOf(l.rides, rideId) - if first.ok then 1 else 0
  {
    if Book(l, userId, rideId).ok {
      ReserveEffect(l, userId, rideId);
    }
  }

  /** On a ride the user has not booked, the button does what `book_ride_db`
      does. */
  lemma ButtonAgreesWithBook(l: Ledger, userId: nat, rideId: nat)
    requires !HasBooking(l.bookings, userId, rideId)
    ensures BookFromButton(l, userId, rideId) == Book(l, userId, rideId)
  {
  }

  /** On a ride the user has already booked, `book_ride_db` refuses while the
      button books a second seat for the same user. */
  lemma ButtonBooksDuplicates(l: Ledger, userId: nat, rideId: nat)
    requires Valid(l) && HasBooking(l.bookings, userId, rideId) && SeatsAvailable(l.rides, rideId)
    ensures !Book(l, userId, rideId).ok
    ensures BookFromButton(l, userId, rideId).ok
    ensures BookingsFor(BookFromButton(l, userId, rideId).after.bookings, rideId) == BookingsFor(l.bookings, rideId) + 1
  {
    BookingsForAppend(l.bookings, Row(l.lastBookingId + 1, Booking(userId, rideId)), rideId);
  }

  // ---------------------------------------------------------------------------
  // Cancelling

  /** Giving a seat back changes that ride's seat count by one, if the ride
      is there, and no other ride. */
  lemma ReturnSeatEffect(rides: Table<Ride>, rideId: nat, x: nat)
    ensures Find(ReturnSeat(rides, rideId), x)
            == if x == rideId && Find(rides, rideId).Some?
               then Some(Find(rides, rideId).value.(seats := Find(rides, rideId).value.seats + 1))
               else Find(rides, x)
    ensures SeatsOf(ReturnSeat(rides, rideId), x)
            == SeatsOf(rides, x) + if x == rideId && Find(rides, rideId).Some? then 1 else 0
  {
    match Find(rides, rideId)
    case Some(ride) =>
      var u := Update(rides, rideId, ride.(seats := ride.seats + 1));
      assert ReturnSeat(rides, rideId) == u;
      FindUpdate(rides, rideId, ride.(seats := ride.seats + 1), x);
      assert Find(u, x) == if x == rideId then Some(ride.(seats := ride.seats + 1)) else Find(rides, x);
    case None =>
  }

  /** Cancelling an existing booking deletes that booking row, keeps every
      other one, and gives one seat back to its ride (see ReturnSeatEffect). */
  lemma CancelEffect(l: Ledger, bookingId: nat, b: Booking)
    requires Valid(l) && Find(l.bookings, bookingId) == Some(b)
    ensures Valid(Cancel(l, bookingId))
    ensures Cancel(l, bookingId).rides == ReturnSeat(l.rides, b.rideId)
    ensures Cancel(l, bookingId).bookings == Delete(l.bookings, bookingId)
    ensures forall x :: x in l.bookings && x.id != bookingId ==> x in Cancel(l, bookingId).bookings
    ensures BookingsFor(Cancel(l, bookingId).bookings, b.rideId) == BookingsFor(l.bookings, b.rideId) - 1
  {
    BookingsForDelete(l.bookings, bookingId, b, b.rideId);
    var after := Delete(l.bookings, bookingId);
    forall x | x in l.bookings && x.id != bookingId
      ensures x in after
    {
      var i :| 0 <= i < |l.bookings| && l.bookings[i] == x;
    }
  }

  /** Cancelling a booking whose ride still exists keeps, for every ride,
      `available_seats + number of bookings of that ride`. */
  lemma CancelConservesSeats(l: Ledger, bookingId: nat, x: nat)
    requires Valid(l) && Find(l.bookings, bookingId).Some?
    requires Find(l.rides, Find(l.bookings, bookingId).value.rideId).Some?
    ensures var after := Cancel(l, bookingId);
            SeatsOf(after.rides, x) + BookingsFor(after.bookings, x)
            == SeatsOf(l.rides, x) + BookingsFor(l.bookings, x)
  {
    var b := Find(l.bookings, bookingId).value;
    assert Cancel(l, bookingId).rides == ReturnSeat(l.rides, b.rideId);
    ReturnSeatEffect(l.rides, b.rideId, x);
    BookingsForDelete(l.bookings, bookingId, b, x);
  }

  /** Cancelling twice is cancelling once. */
  lemma CancelIdempotent(l: Ledger, bookingId: nat)
    ensures Cancel(Cancel(l, bookingId), bookingId) == Cancel(l, bookingId)
  {
  }

  /** Cancelling the booking just made undoes the booking entirely (only the
      AUTOINCREMENT counter remembers it). */
  lemma BookThenCancel(l: Ledger, userId: nat, rideId: nat)
    requires Valid(l) && Book(l, userId, rideId).ok
    ensures var after := Cancel(Book(l, userId, rideId).after, l.lastBookingId + 1);
            after == l.(lastBookingId := l.lastBookingId + 1)
  {
    var ride := Find(l.rides, rideId).value;
    assert Book(l, userId, rideId).after == Reserve(l, userId, rideId, ride);
    ReserveThenCancel(l, userId, rideId, ride);
  }

  /** Giving back the seat just taken from a ride restores the rides table. */
  lemma ReturnTakenSeat(rides: Table<Ride>, rideId: nat, ride: Ride)
    requires Ascending(rides) && Find(rides, rideId) == Some(ride)
    ensures ReturnSeat(Update(rides, rideId, TakeSeat(ride)), rideId) == rides
  {
    var taken := Update(rides, rideId, TakeSeat(ride));
    assert Find(taken, rideId) == Some(TakeSeat(ride)) by {
      FindUpdate(rides, rideId, TakeSeat(ride), rideId);
    }
    assert ReturnSeat(taken, rideId) == Update(taken, rideId, ride);
    assert Update(taken, rideId, ride) == Update(rides, rideId, ride) by {
      UpdateTwice(rides, rideId, TakeSeat(ride), ride);
    }
    assert Update(rides, rideId, ride) == rides by {
      UpdateSame(rides, rideId, ride);
    }
  }

  /** Cancelling an existing booking, unfolded. */
  lemma CancelFound(l: Ledger, bookingId: nat, b: Booking)
    requires Find(l.bookings, bookingId) == Some(b)
    ensures Cancel(l, bookingId) == Ledger(ReturnSeat(l.rides, b.rideId), Delete(l.bookings, bookingId), l.lastBookingId)
  {
  }

  lemma ReserveThenCancel(l: Ledger, userId: nat, rideId: nat, ride: Ride)
    requires Valid(l) && Find(l.rides, rideId) == Some(ride)
    ensures Cancel(Reserve(l, userId, rideId, ride), l.lastBookingId + 1) == l.(lastBookingId := l.lastBookingId + 1)
  {
    var newId := l.lastBookingId + 1;
    var booking := Booking(userId, rideId);
    var booked := Ledger(Update(l.rides, rideId, TakeSeat(ride)), l.bookings + [Row(newId, booking)], newId);
    assert Reserve(l, userId, rideId, ride) == booked;
    assert Find(booked.bookings, newId) == Some(booking) by {
      FindAppend(l.bookings, Row(newId, booking), newId);
    }
    CancelFound(booked, newId, booking);
    assert ReturnSeat(booked.rides, rideId) == l.rides by {
      ReturnTakenSeat(l.rides, rideId, ride);
    }
    assert Delete(booked.bookings, newId) == l.bookings by {
      DeleteInserted(l.bookings, l.lastBookingId, booking);
    }
  }

  // ---------------------------------------------------------------------------
  // Deleting a ride with its bookings

  /** The provider's delete removes the ride and every booking that references
      it, and nothing else; cancelling any of those bookings afterwards does
      nothing. */
  lemma DeleteCascadeEffect(l: Ledger, rideId: nat)
    requires Valid(l)
    ensures var after := DeleteCascade(l, rideId);
            && Valid(after)
            && Find(after.rides, rideId).None?
            && (forall x :: x != rideId ==> Find(after.rides, x) == Find(l.rides, x))
            && BookingsFor(after.bookings, rideId) == 0
            && (forall b :: b in l.bookings && b.fields.rideId != rideId ==> b in after.bookings)
            && (forall b :: b in after.bookings ==> b in l.bookings)
            && (forall bookingId :: Find(l.bookings, bookingId).Some? && Find(l.bookings, bookingId).value.rideId == rideId
                  ==> Cancel(after, bookingId) == after)
  {
    var after := DeleteCascade(l, rideId);
    forall x
      ensures Find(after.rides, x) == if x == rideId then None else Find(l.rides, x)
    {
      FindDelete(l.rides, rideId, x);
    }
    NoBookingsLeft(l.bookings, rideId);
    forall b | b in l.bookings && b.fields.rideId != rideId
      ensures b in after.bookings
    {
      var i :| 0 <= i < |l.bookings| && l.bookings[i] == b;
    }
    forall bookingId | Find(l.bookings, bookingId).Some? && Find(l.bookings, bookingId).value.rideId == rideId
      ensures Cancel(after, bookingId) == after
    {
      if Find(after.bookings, bookingId).Some? {
        var v := Find(after.bookings, bookingId).value;
        var j :| 0 <= j < |after.bookings| && after.bookings[j] == Row(bookingId, v);
        FindMember(l.bookings, Row(bookingId, v));
      }
    }
  }

  lemma {:induction false} NoBookingsLeft(bookings: Table<Booking>, rideId: nat)
    ensures BookingsFor(DeleteBookingsOf(bookings, rideId), rideId) == 0
  {
    if bookings != [] {
      NoBookingsLeft(bookings[1..], rideId);
    }
  }

  // ---------------------------------------------------------------------------
  // Pruning

  /** After pruning, no ride is full or past; every ride that was neither is
      still there, unchanged; the bookings table is untouched, so bookings of
      pruned rides stay behind without their ride. */
  lemma PruneEffect(l: Ledger, today: Date)
    requires Valid(l) && ValidDate(today)
    ensures var after := Prune(l, today);
            && Valid(after)
            && (forall x :: x in after.rides ==> x.fields.seats > 0 && NotPast(x.fields.date, today))
            && (forall x :: x in l.rides && Current(x.fields, today) ==> x in after.rides)
            && (forall x :: x in after.rides ==> x in l.rides)
            && after.bookings == l.bookings
            && (forall b :: b in l.bookings && Find(l.rides, b.fields.rideId).Some?
                  && !Current(Find(l.rides, b.fields.rideId).value, today)
                  ==> b in after.bookings && Find(after.rides, b.fields.rideId).None?)
  {
    var after := Prune(l, today);
    forall x | x in after.rides
      ensures x in l.rides && x.fields.seats > 0 && NotPast(x.fields.date, today)
    {
      var i :| 0 <= i < |after.rides| && after.rides[i] == x;
    }
    forall x | x in l.rides && Current(x.fields, today)
      ensures x in after.rides
    {
      var i :| 0 <= i < |l.rides| && l.rides[i] == x;
    }
    forall b | b in l.bookings && Find(l.rides, b.fields.rideId).Some?
                && !Current(Find(l.rides, b.fields.rideId).value, today)
      ensures Find(after.rides, b.fields.rideId).None?
    {
      var rid := b.fields.rideId;
      if Find(after.rides, rid).Some? {
        var v := Find(after.rides, rid).value;
        assert Row(rid, v) in after.rides;
        FindMember(l.rides, Row(rid, v));
      }
    }
  }

  /** Pruning twice is pruning once. */
  lemma {:induction false} PruneIdempotent(rides: Table<Ride>, today: Date)
    requires ValidDate(today)
    ensures PruneRides(PruneRides(rides, today), today) == PruneRides(rides, today)
  {
    if rides != [] {
      PruneIdempotent(rides[1..], today);
    }
  }

  // ---------------------------------------------------------------------------
  // Seat counts stay non-negative

  /** Booking (either path), cancelling, deleting and pruning never make a
      seat count negative. */
  lemma SeatsStayNonNegative(l: Ledger, userId: nat, rideId: nat, bookingId: nat, today: Date)
    requires Valid(l) && SeatsNonNegative(l.rides) && ValidDate(today)
    ensures SeatsNonNegative(Book(l, userId, rideId).after.rides)
    ensures SeatsNonNegative(BookFromButton(l, userId, rideId).after.rides)
    ensures SeatsNonNegative(Cancel(l, bookingId).rides)
    ensures SeatsNonNegative(DeleteCascade(l, rideId).rides)
    ensures SeatsNonNegative(Prune(l, today).rides)
  {
    if SeatsAvailable(l.rides, rideId) {
      var ride := Find(l.rides, rideId).value;
      var reserved := Reserve(l, userId, rideId, ride);
      assert reserved.rides == Update(l.rides, rideId, ride.(seats := ride.seats - 1));
      UpdateKeepsNonNegative(l.rides, rideId, ride.(seats := ride.seats - 1));
      assert BookFromButton(l, userId, rideId).after == reserved;
      if Book(l, userId, rideId).ok {
        assert Book(l, userId, rideId).after == reserved;
      }
    }
    match Find(l.bookings, bookingId)
    case Some(b) =>
      assert Cancel(l, bookingId).rides == ReturnSeat(l.rides, b.rideId);
      ReturnSeatKeepsNonNegative(l.rides, b.rideId);
    case None =>
    SubsetKeepsNonNegative(l.rides, Prune(l, today).rides);
    SubsetKeepsNonNegative(l.rides, DeleteCascade(l, rideId).rides);
  }

  lemma UpdateKeepsNonNegative(rides: Table<Ride>, rideId: nat, ride: Ride)
    requires SeatsNonNegative(rides) && ride.seats >= 0
    ensures SeatsNonNegative(Update(rides, rideId, ride))
  {
    var u := Update(rides, rideId, ride);
    forall x | x in u
      ensures x.fields.seats >= 0
    {
      var i :| 0 <= i < |u| && u[i] == x;
      assert rides[i] in rides;
    }
  }

  lemma ReturnSeatKeepsNonNegative(rides: Table<Ride>, rideId: nat)
    requires SeatsNonNegative(rides)
    ensures SeatsNonNegative(ReturnSeat(rides, rideId))
  {
    if Find(rides, rideId).Some? {
      var ride := Find(rides, rideId).value;
      assert ride.seats >= 0 by {
        assert Row(rideId, ride) in rides;
      }
      ReturnSeatFound(rides, rideId, ride);
      UpdateKeepsNonNegative(rides, rideId, GiveSeat(ride));
    }
  }

  /** Giving a seat back to an existing ride, unfolded. */
  lemma ReturnSeatFound(rides: Table<Ride>, rideId: nat, ride: Ride)
    requires Find(rides, rideId) == Some(ride)
    ensures ReturnSeat(rides, rideId) == Update(rides, rideId, GiveSeat(ride))
  {
  }

  lemma SubsetKeepsNonNegative(rides: Table<Ride>, kept: Table<Ride>)
    requires SeatsNonNegative(rides)
    requires forall i :: 0 <= i < |kept| ==> kept[i] in rides
    ensures SeatsNonNegative(kept)
  {
    forall x | x in kept
      ensures x.fields.seats >= 0
    {
      var i :| 0 <= i < |kept| && kept[i] == x;
    }
  }

  // ---------------------------------------------------------------------------
  // A worked sequence

  /** One successful `book_ride_db` step, as the sequence below uses it. */
  lemma BookStep(l: Ledger, userId: nat, rideId: nat)
    requires Valid(l) && SeatsAvailable(l.rides, rideId) && !HasBooking(l.bookings, userId, rideId)
    ensures var s := Book(l, userId, rideId);
            && s.ok && Valid(s.after)
            && Find(s.after.rides, rideId).Some?
            && SeatsOf(s.after.rides, rideId) == SeatsOf(l.rides, rideId) - 1
            && s.after.bookings == l.bookings + [Row(l.lastBookingId + 1, Booking(userId, rideId))]
            && s.after.lastBookingId == l.lastBookingId + 1
            && forall v :: v != userId ==> (HasBooking(s.after.bookings, v, rideId) <==> HasBooking(l.bookings, v, rideId))
  {
    var s := Book(l, userId, rideId);
    assert s.after == Reserve(l, userId, rideId, Find(l.rides, rideId).value);
    ReserveEffect(l, userId, rideId);
    forall v | v != userId
      ensures HasBooking(s.after.bookings, v, rideId) <==> HasBooking(l.bookings, v, rideId)
    {
      HasBookingAppend(l.bookings, Row(l.lastBookingId + 1, Booking(userId, rideId)), v, rideId);
    }
  }

  /** One cancellation of a booking whose ride exists, as the sequence below
      uses it. */
  lemma CancelStep(l: Ledger, bookingId: nat, b: Booking)
    requires Valid(l) && Find(l.bookings, bookingId) == Some(b) && Find(l.rides, b.rideId).Some?
    ensures var after := Cancel(l, bookingId);
            && Valid(after)
            && Find(after.rides, b.rideId).Some?
            && SeatsOf(after.rides, b.rideId) == SeatsOf(l.rides, b.rideId) + 1
            && forall v :: HasBooking(after.bookings, v, b.rideId) ==> HasBooking(l.bookings, v, b.rideId)
  {
    var after := Cancel(l, bookingId);
    CancelEffect(l, bookingId, b);
    ReturnSeatEffect(l.rides, b.rideId, b.rideId);
    forall v | HasBooking(after.bookings, v, b.rideId)
      ensures HasBooking(l.bookings, v, b.rideId)
    {
      var x :| x in after.bookings && x.fields.userId == v && x.fields.rideId == b.rideId;
      assert x in l.bookings;
    }
  }

  /** Two seats; A and B book them; C is turned away; A cancels; now C gets
      the seat and the ride is full again. */
  lemma TwoSeatScenario(l: Ledger, rideId: nat, a: nat, b: nat, c: nat)
    requires Valid(l) && SeatsOf(l.rides, rideId) == 2 && Find(l.rides, rideId).Some?
    requires !HasBooking(l.bookings, a, rideId) && !HasBooking(l.bookings, b, rideId) && !HasBooking(l.bookings, c, rideId)
    requires a != b && b != c && a != c
    ensures var s1 := Book(l, a, rideId);
            var s2 := Book(s1.after, b, rideId);
            var s3 := Book(s2.after, c, rideId);
            var s4 := Cancel(s3.after, l.lastBookingId + 1);
            var s5 := Book(s4, c, rideId);
            && s1.ok && SeatsOf(s1.after.rides, rideId) == 1
            && s2.ok && SeatsOf(s2.after.rides, rideId) == 0
            && !s3.ok
            && SeatsOf(s4.rides, rideId) == 1
            && s5.ok && SeatsOf(s5.after.rides, rideId) == 0
  {
    var idA := l.lastBookingId + 1;
    var s1 := Book(l, a, rideId);
    BookStep(l, a, rideId);
    var s2 := Book(s1.after, b, rideId);
    BookStep(s1.after, b, rideId);
    var s3 := Book(s2.after, c, rideId);
    assert s3.after == s2.after;
    FindAppend(l.bookings, Row(idA, Booking(a, rideId)), idA);
    FindAppend(s1.after.bookings, Row(idA + 1, Booking(b, rideId)), idA);
    var s4 := Cancel(s2.after, idA);
    CancelStep(s2.after, idA, Booking(a, rideId));
    BookStep(s4, c, rideId);
  }
}
