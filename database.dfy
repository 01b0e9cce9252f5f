/** The SQLite store (`priminsberg_rides.db`) and the functions of the database
    layer that read and write it. Each table is a `Tables.Table` in rowid
    order together with its AUTOINCREMENT counter; the methods perform the
    INSERT/UPDATE/DELETE statements of the source on those fields. Picture
    files the source deletes are returned as `discarded` paths instead. */
module Database {
  import opened Options
  import opened Strings
  import opened Tables
  import opened Schema
  import opened Ordering
  import opened Reservations

  /** `username TEXT UNIQUE`: no two users share a username. */
  ghost predicate UniqueUsernames(users: Table<User>)
  {
    forall i, j :: 0 <= i < j < |users| ==> users[i].fields.username != users[j].fields.username
  }

  /** An `UPDATE` that leaves the username column alone keeps usernames
      unique. */
  lemma ModifyKeepsUniqueUsernames(users: Table<User>, id: nat, f: User -> User)
    requires UniqueUsernames(users)
    requires forall u: User :: f(u).username == u.username
    ensures UniqueUsernames(Modify(users, id, f))
  {
    var m := Modify(users, id, f);
    forall i | 0 <= i < |m|
      ensures m[i].fields.username == users[i].fields.username
    {
    }
  }

  /** The UNIQUE constraint would reject a new row with this username. */
  predicate UsernameTaken(users: Table<User>, username: string)
  {
    exists u :: u in users && u.fields.username == username
  }

  /** A table with its AUTOINCREMENT counter, for "nothing else changes". */
  datatype Part<T> = Part(rows: Table<T>, lastId: nat)

  class Store {
    var users: Table<User>
    var lastUserId: nat
    var rides: Table<Ride>
    var lastRideId: nat
    var bookings: Table<Booking>
    var lastBookingId: nat
    var vehicles: Table<Vehicle>
    var lastVehicleId: nat

    ghost predicate Valid()
      reads this
    {
      && WellFormed(users, lastUserId) && UniqueUsernames(users)
      && WellFormed(rides, lastRideId)
      && WellFormed(bookings, lastBookingId)
      && WellFormed(vehicles, lastVehicleId)
    }

    function UserPart(): Part<User>
      reads this
    {
      Part(users, lastUserId)
    }

    function RidePart(): Part<Ride>
      reads this
    {
      Part(rides, lastRideId)
    }

    function VehiclePart(): Part<Vehicle>
      reads this
    {
      Part(vehicles, lastVehicleId)
    }

    /** The rides and bookings tables as the booking ledger sees them. */
    function RideLedger(): (l: Ledger)
      reads this
      ensures Valid() ==> Reservations.Valid(l)
    {
      Ledger(rides, bookings, lastBookingId)
    }

    /** `setup_database` on a new database file: the four tables, empty. */
    constructor ()
      ensures Valid()
      ensures users == [] && rides == [] && bookings == [] && vehicles == []
      ensures lastUserId == 0 && lastRideId == 0 && lastBookingId == 0 && lastVehicleId == 0
    {
      users, rides, bookings, vehicles := [], [], [], [];
      lastUserId, lastRideId, lastBookingId, lastVehicleId := 0, 0, 0, 0;
    }

    /** `register_user_db`: `None` when the username is taken (the table is
        left as it was), otherwise the new row's id. */
    method RegisterUser(username: string, passwordHash: string, firstName: string, lastName: string,
                        station: string, email: string, phone: string,
                        licenseDate: Option<string>, picture: Option<Path>)
      returns (id: Option<nat>)
      requires Valid()
      modifies this
      ensures Valid()
      ensures id.None? <==> UsernameTaken(old(users), username)
      ensures id.None? ==> UserPart() == old(UserPart())
      ensures id.Some? ==>
                && id.value == old(lastUserId) + 1
                && users == old(users) + [Row(id.value, User(username, passwordHash, firstName, lastName,
                                                             station, email, phone, licenseDate, picture))]
                && lastUserId == id.value
      ensures RidePart() == old(RidePart()) && RideLedger() == old(RideLedger()) && VehiclePart() == old(VehiclePart())
    {
      if UsernameTaken(users, username) {
        return None;
      }
      var row := Row(lastUserId + 1, User(username, passwordHash, firstName, lastName,
                                          station, email, phone, licenseDate, picture));
      forall u | u in users
        ensures u.fields.username != username
      {
      }
      users := Insert(users, lastUserId, row.fields);
      lastUserId := lastUserId + 1;
      id := Some(lastUserId);
    }

    /** `update_user_profile_db`: rewrites the six profile columns of the row
        with that id (none, if there is no such row) and reports success. */
    method UpdateUserProfile(userId: nat, firstName: string, lastName: string, station: string,
                             email: string, phone: string, licenseDate: Option<string>)
      returns (ok: bool)
      requires Valid()
      modifies this
      ensures Valid()
      ensures ok
      ensures users == match Find(old(users), userId)
                       case Some(u) =>
                         Update(old(users), userId, u.(firstName := firstName, lastName := lastName, station := station,
                                                       email := email, phone := phone, licenseDate := licenseDate))
                       case None => old(users)
      ensures lastUserId == old(lastUserId)
      ensures RidePart() == old(RidePart()) && RideLedger() == old(RideLedger()) && VehiclePart() == old(VehiclePart())
    {
      var f := (u: User) => u.(firstName := firstName, lastName := lastName, station := station,
                              email := email, phone := phone, licenseDate := licenseDate);
      match Find(users, userId) {
        case Some(u) => ModifyIsUpdate(users, userId, f, u);
        case None => ModifyAbsent(users, userId, f);
      }
      ModifyWellFormed(users, userId, f, lastUserId);
      ModifyKeepsUniqueUsernames(users, userId, f);
      users := Modify(users, userId, f);
      return true;
    }

    /** `update_user_profile_picture`: reads the old path (the source indexes
        the fetched row, so the user must exist), deletes that file when the
        path is truthy, and stores the new path. */
    method UpdateUserProfilePicture(userId: nat, path: Option<Path>) returns (ok: bool, discarded: Option<Path>)
      requires Valid() && Find(users, userId).Some?
      modifies this
      ensures Valid()
      ensures ok
      ensures discarded == var previous := Find(old(users), userId).value.picture;
                           if Truthy(previous) then previous else None
      ensures users == Update(old(users), userId, Find(old(users), userId).value.(picture := path))
      ensures lastUserId == old(lastUserId)
      ensures RidePart() == old(RidePart()) && RideLedger() == old(RideLedger()) && VehiclePart() == old(VehiclePart())
    {
      var previous := Find(users, userId).value.picture;
      discarded := if Truthy(previous) then previous else None;
      var f := (u: User) => u.(picture := path);
      ModifyIsUpdate(users, userId, f, Find(users, userId).value);
      ModifyWellFormed(users, userId, f, lastUserId);
      ModifyKeepsUniqueUsernames(users, userId, f);
      users := Modify(users, userId, f);
      ok := true;
    }

    /** `add_ride_db`: inserts the ride and returns its id. */
    method AddRide(providerId: nat, start: string, destination: string, date: string, time: string, seats: int)
      returns (id: nat)
      requires Valid()
      modifies this
      ensures Valid()
      ensures id == old(lastRideId) + 1 && lastRideId == id
      ensures rides == old(rides) + [Row(id, Ride(providerId, start, destination, date, time, seats))]
      ensures bookings == old(bookings) && lastBookingId == old(lastBookingId)
      ensures UserPart() == old(UserPart()) && VehiclePart() == old(VehiclePart())
    {
      rides := Insert(rides, lastRideId, Ride(providerId, start, destination, date, time, seats));
      lastRideId := lastRideId + 1;
      id := lastRideId;
    }

    /** `delete_ride_db`: deletes the ride row only; `rowcount > 0` says
        whether it was there. Bookings of the ride are left behind. */
    method DeleteRide(rideId: nat) returns (deleted: bool)
      requires Valid()
      modifies this
      ensures Valid()
      ensures deleted <==> Find(old(rides), rideId).Some?
      ensures rides == Delete(old(rides), rideId) && lastRideId == old(lastRideId)
      ensures bookings == old(bookings) && lastBookingId == old(lastBookingId)
      ensures UserPart() == old(UserPart()) && VehiclePart() == old(VehiclePart())
    {
      deleted := Find(rides, rideId).Some?;
      rides := Delete(rides, rideId);
    }

    /** `update_ride_db`: overwrites the five editable columns of the ride,
        never its provider; `rowcount > 0` says whether it was there. */
    method UpdateRide(rideId: nat, start: string, destination: string, date: string, time: string, seats: int)
      returns (updated: bool)
      requires Valid()
      modifies this
      ensures Valid()
      ensures updated <==> Find(old(rides), rideId).Some?
      ensures rides == match Find(old(rides), rideId)
                       case Some(r) => Update(old(rides), rideId, EditedRide(r, start, destination, date, time, seats))
                       case None => old(rides)
      ensures lastRideId == old(lastRideId)
      ensures bookings == old(bookings) && lastBookingId == old(lastBookingId)
      ensures UserPart() == old(UserPart()) && VehiclePart() == old(VehiclePart())
    {
      updated := Find(rides, rideId).Some?;
      var f := (r: Ride) => EditedRide(r, start, destination, date, time, seats);
      match Find(rides, rideId) {
        case Some(r) => ModifyIsUpdate(rides, rideId, f, r);
        case None => ModifyAbsent(rides, rideId, f);
      }
      ModifyWellFormed(rides, rideId, f, lastRideId);
      rides := Modify(rides, rideId, f);
    }

    /** `book_ride_db`: the seat check, the duplicate check, then the booking
        row and the new seat count. */
    method BookRide(userId: nat, rideId: nat) returns (ok: bool)
      requires Valid()
      modifies this
      ensures Valid()
      ensures ok == Book(old(RideLedger()), userId, rideId).ok
      ensures RideLedger() == Book(old(RideLedger()), userId, rideId).after
      ensures RidePart().lastId == old(RidePart().lastId)
      ensures UserPart() == old(UserPart()) && VehiclePart() == old(VehiclePart())
    {
      var current := Find(rides, rideId);
      if current.Some? && current.value.seats > 0 {
        if HasBooking(bookings, userId, rideId) {
          return false;
        }
        var ride := current.value;
        bookings := Insert(bookings, lastBookingId, Booking(userId, rideId));
        lastBookingId := lastBookingId + 1;
        UpdateWellFormed(rides, rideId, ride.(seats := ride.seats - 1), lastRideId);
        rides := Update(rides, rideId, ride.(seats := ride.seats - 1));
        return true;
      }
      return false;
    }

    /** `add_vehicul_db`: inserts the vehicle with the four picture columns
        taken from the dict (`.get`, so a missing key stores NULL). */
    method AddVehicle(userId: nat, make: string, model: string, firstRegistration: string,
                      pictures: Option<PictureDict>)
      returns (id: nat)
      requires Valid()
      modifies this
      ensures Valid()
      ensures id == old(lastVehicleId) + 1 && lastVehicleId == id
      ensures vehicles == old(vehicles) + [Row(id, Vehicle(userId, make, model, firstRegistration, PictureColumns(pictures)))]
      ensures UserPart() == old(UserPart()) && RidePart() == old(RidePart()) && RideLedger() == old(RideLedger())
    {
      vehicles := Insert(vehicles, lastVehicleId, Vehicle(userId, make, model, firstRegistration, PictureColumns(pictures)));
      lastVehicleId := lastVehicleId + 1;
      id := lastVehicleId;
    }

    /** `update_vehicul_pictures`: deletes every truthy old picture file of
        the vehicle, then stores the four columns from the dict; `rowcount > 0`
        says whether the vehicle was there. */
    method UpdateVehiclePictures(vehicleId: nat, pictures: Option<PictureDict>)
      returns (updated: bool, discarded: seq<Path>)
      requires Valid()
      modifies this
      ensures Valid()
      ensures updated <==> Find(old(vehicles), vehicleId).Some?
      ensures discarded == match Find(old(vehicles), vehicleId)
                           case Some(v) => TruthyPaths(Columns(v.pictures))
                           case None => []
      ensures vehicles == match Find(old(vehicles), vehicleId)
                          case Some(v) => Update(old(vehicles), vehicleId, v.(pictures := PictureColumns(pictures)))
                          case None => old(vehicles)
      ensures lastVehicleId == old(lastVehicleId)
      ensures UserPart() == old(UserPart()) && RidePart() == old(RidePart()) && RideLedger() == old(RideLedger())
    {
      var previous := Find(vehicles, vehicleId);
      discarded := [];
      if previous.Some? {
        discarded := FilesToDelete(Columns(previous.value.pictures));
      }
      var f := (v: Vehicle) => v.(pictures := PictureColumns(pictures));
      match previous {
        case Some(v) => ModifyIsUpdate(vehicles, vehicleId, f, v);
        case None => ModifyAbsent(vehicles, vehicleId, f);
      }
      ModifyWellFormed(vehicles, vehicleId, f, lastVehicleId);
      vehicles := Modify(vehicles, vehicleId, f);
      updated := previous.Some?;
    }
  }

  /** The five columns `update_ride_db` (and the edit form) overwrite. */
  function EditedRide(r: Ride, start: string, destination: string, date: string, time: string, seats: int): (e: Ride)
    ensures e.providerId == r.providerId
  {
    r.(start := start, destination := destination, date := date, time := time, seats := seats)
  }

  /** `for pic_path in old_pics: if pic_path: delete_image(pic_path)`: the
      files deleted, in column order. */
  method FilesToDelete(paths: seq<Option<Path>>) returns (files: seq<Path>)
    ensures files == TruthyPaths(paths)
  {
    files := [];
    var i := 0;
    while i < |paths|
      invariant 0 <= i <= |paths|
      invariant files == TruthyPaths(paths[..i])
    {
      TruthyPathsAppend(paths[..i], paths[i]);
      assert paths[..i + 1] == paths[..i] + [paths[i]];
      if Truthy(paths[i]) {
        files := files + [paths[i].value];
      }
      i := i + 1;
    }
    assert paths[..i] == paths;
  }

  /** Usernames stay unique whatever `register_user_db` is asked to insert:
      a successful registration's username was not taken before and is
      now held by exactly the new row. */
  lemma RegisteredUsernameIsUnique(users: Table<User>, lastUserId: nat, user: User)
    requires WellFormed(users, lastUserId) && UniqueUsernames(users) && !UsernameTaken(users, user.username)
    ensures var after := Insert(users, lastUserId, user);
            && UniqueUsernames(after)
            && UsernameTaken(after, user.username)
            && Find(after, lastUserId + 1) == Some(user)
  {
    var after := Insert(users, lastUserId, user);
    assert after[|users|] == Row(lastUserId + 1, user);
    FindAppend(users, Row(lastUserId + 1, user), lastUserId + 1);
    forall i, j | 0 <= i < j < |after|
      ensures after[i].fields.username != after[j].fields.username
    {
      if j == |users| {
        assert after[i] in users;
      }
    }
  }

  // ---------------------------------------------------------------------------
  // Read-only queries

  /** The seven columns `get_rides_db` and `get_user_bookings_db` select:
      ride id, provider username, start, destination, date, time, seats. */
  datatype RideSummary = RideSummary(rideId: nat, provider: string, start: string, destination: string,
                                     date: string, time: string, seats: int)

  /** One ride joined with its provider (`JOIN users u ON r.provider_id =
      u.id`): no row when the provider is missing. */
  function SummaryOf(users: Table<User>, ride: Row<Ride>): (r: Option<RideSummary>)
    ensures r.Some? <==> Find(users, ride.fields.providerId).Some?
    ensures r.Some? ==> r.value.rideId == ride.id && r.value.date == ride.fields.date && r.value.time == ride.fields.time
  {
    match Find(users, ride.fields.providerId)
    case Some(u) =>
      var f := ride.fields;
      Some(RideSummary(ride.id, u.username, f.start, f.destination, f.date, f.time, f.seats))
    case None => None
  }

  /** The join in table order, before `ORDER BY`. */
  function JoinProviders(users: Table<User>, rides: Table<Ride>): (r: seq<RideSummary>)
    ensures forall x :: x in r <==> exists ride :: ride in rides && SummaryOf(users, ride) == Some(x)
  {
    if rides == [] then []
    else
      var rest := JoinProviders(users, rides[1..]);
      assert forall ride :: ride in rides <==> ride == rides[0] || ride in rides[1..];
      match SummaryOf(users, rides[0])
      case Some(x) =>
        [x] + rest
      case None => rest
  }

  /** Summaries listed by strictly ascending ride id. */
  predicate RideIdsAscending(r: seq<RideSummary>)
  {
    forall i, j :: 0 <= i < j < |r| ==> r[i].rideId < r[j].rideId
  }

  /** The join keeps the rides' rowid order: one row per ride, by ascending
      ride id. */
  lemma {:induction false} JoinProvidersOrdered(users: Table<User>, rides: Table<Ride>)
    requires Ascending(rides)
    ensures RideIdsAscending(JoinProviders(users, rides))
  {
    if rides != [] {
      var rest := JoinProviders(users, rides[1..]);
      JoinProvidersOrdered(users, rides[1..]);
      if SummaryOf(users, rides[0]).Some? {
        var x := SummaryOf(users, rides[0]).value;
        assert JoinProviders(users, rides) == [x] + rest;
        RideIdsAfterFirst(users, rides, x, rest);
        ConsRideIds(x, rest);
      } else {
        assert JoinProviders(users, rides) == rest;
      }
    }
  }

  /** The rows joined from the later rides carry larger ride ids. */
  lemma RideIdsAfterFirst(users: Table<User>, rides: Table<Ride>, x: RideSummary, rest: seq<RideSummary>)
    requires Ascending(rides) && rides != [] && SummaryOf(users, rides[0]) == Some(x)
    requires forall y :: y in rest ==> exists ride :: ride in rides[1..] && SummaryOf(users, ride) == Some(y)
    ensures forall y :: y in rest ==> x.rideId < y.rideId
  {
    forall y | y in rest
      ensures x.rideId < y.rideId
    {
      var ride :| ride in rides[1..] && SummaryOf(users, ride) == Some(y);
      var k :| 0 <= k < |rides[1..]| && rides[1..][k] == ride;
      assert rides[0].id < rides[k + 1].id;
    }
  }

  lemma ConsRideIds(x: RideSummary, rest: seq<RideSummary>)
    requires RideIdsAscending(rest) && forall y :: y in rest ==> x.rideId < y.rideId
    ensures RideIdsAscending([x] + rest)
  {
    forall i, j | 0 <= i < j < |[x] + rest|
      ensures ([x] + rest)[i].rideId < ([x] + rest)[j].rideId
    {
      if i == 0 {
        assert ([x] + rest)[j] == rest[j - 1];
      } else {
        assert ([x] + rest)[i] == rest[i - 1] && ([x] + rest)[j] == rest[j - 1];
      }
    }
  }

  /** `ORDER BY r.date, r.time` on the stored text. */
  function RawKey(s: RideSummary): Key
  {
    Key(s.date, s.time)
  }

  /** `get_rides_db`: every ride whose provider exists, joined with the
      provider's username, ordered by the raw date text and then the time. */
  function AllRides(users: Table<User>, rides: Table<Ride>): (r: seq<RideSummary>)
    ensures SortedBy(r, RawKey)
    ensures multiset(r) == multiset(JoinProviders(users, rides))
    ensures forall x :: x in r <==> exists ride :: ride in rides && SummaryOf(users, ride) == Some(x)
  {
    var joined := JoinProviders(users, rides);
    var sorted := SortBy(joined, RawKey);
    forall x
      ensures x in sorted <==> x in joined
    {
      SortByMembers(joined, RawKey, x);
    }
    sorted
  }

  /** One booking joined with its ride and the ride's provider. */
  function BookingSummary(users: Table<User>, rides: Table<Ride>, booking: Booking): (r: Option<RideSummary>)
    ensures r.Some? <==> Find(rides, booking.rideId).Some?
                         && Find(users, Find(rides, booking.rideId).value.providerId).Some?
    ensures r.Some? ==> r.value.rideId == booking.rideId
                        && r.value.date == Find(rides, booking.rideId).value.date
                        && r.value.time == Find(rides, booking.rideId).value.time
  {
    match Find(rides, booking.rideId)
    case Some(ride) => SummaryOf(users, Row(booking.rideId, ride))
    case None => None
  }

  /** The joined rows of one user's bookings, in booking order. */
  function JoinBookings(users: Table<User>, rides: Table<Ride>, bookings: Table<Booking>, userId: nat): (r: seq<RideSummary>)
    ensures forall x :: x in r <==>
              exists b :: b in bookings && b.fields.userId == userId && BookingSummary(users, rides, b.fields) == Some(x)
  {
    if bookings == [] then []
    else
      var rest := JoinBookings(users, rides, bookings[1..], userId);
      assert forall b :: b in bookings <==> b == bookings[0] || b in bookings[1..];
      if bookings[0].fields.userId == userId then
        match BookingSummary(users, rides, bookings[0].fields)
        case Some(x) => [x] + rest
        case None => rest
      else rest
  }

  /** The user's bookings whose joined row is `x`. */
  ghost function BookingsShowing(users: Table<User>, rides: Table<Ride>, bookings: Table<Booking>,
                                 userId: nat, x: RideSummary): set<Row<Booking>>
  {
    set b | b in bookings && b.fields.userId == userId && BookingSummary(users, rides, b.fields) == Some(x)
  }

  /** Each joined row appears once per booking that yields it: a ride
      booked twice by the user is listed twice. */
  lemma {:induction false} JoinBookingsCounts(users: Table<User>, rides: Table<Ride>, bookings: Table<Booking>,
                                              userId: nat, x: RideSummary)
    requires Ascending(bookings)
    ensures multiset(JoinBookings(users, rides, bookings, userId))[x] == |BookingsShowing(users, rides, bookings, userId, x)|
  {
    if bookings == [] {
      assert BookingsShowing(users, rides, bookings, userId, x) == {};
    } else {
      var b0 := bookings[0];
      var rest := JoinBookings(users, rides, bookings[1..], userId);
      JoinBookingsCounts(users, rides, bookings[1..], userId, x);
      BookingsShowingSplit(users, rides, bookings, userId, x);
      if b0.fields.userId == userId && BookingSummary(users, rides, b0.fields).Some? {
        var s := BookingSummary(users, rides, b0.fields).value;
        assert JoinBookings(users, rides, bookings, userId) == [s] + rest;
      } else {
        assert JoinBookings(users, rides, bookings, userId) == rest;
      }
    }
  }

  /** The first booking adds itself to the set when it shows `x`. */
  lemma BookingsShowingSplit(users: Table<User>, rides: Table<Ride>, bookings: Table<Booking>, userId: nat, x: RideSummary)
    requires Ascending(bookings) && bookings != []
    ensures var b0 := bookings[0];
            |BookingsShowing(users, rides, bookings, userId, x)|
            == |BookingsShowing(users, rides, bookings[1..], userId, x)|
               + (if b0.fields.userId == userId && BookingSummary(users, rides, b0.fields) == Some(x) then 1 else 0)
  {
    var b0 := bookings[0];
    var all := BookingsShowing(users, rides, bookings, userId, x);
    var later := BookingsShowing(users, rides, bookings[1..], userId, x);
    HeadNotInTail(bookings);
    assert forall b :: b in bookings <==> b == b0 || b in bookings[1..];
    if b0.fields.userId == userId && BookingSummary(users, rides, b0.fields) == Some(x) {
      assert all == later + {b0};
    } else {
      assert all == later;
    }
  }

  /** `get_user_bookings_db`: the rides the user has booked (once per
      booking) whose ride and provider still exist, ordered by the raw date
      text and then the time. */
  function UserBookings(users: Table<User>, rides: Table<Ride>, bookings: Table<Booking>, userId: nat): (r: seq<RideSummary>)
    ensures SortedBy(r, RawKey)
    ensures multiset(r) == multiset(JoinBookings(users, rides, bookings, userId))
    ensures forall x :: x in r <==>
              exists b :: b in bookings && b.fields.userId == userId && BookingSummary(users, rides, b.fields) == Some(x)
  {
    var joined := JoinBookings(users, rides, bookings, userId);
    var sorted := SortBy(joined, RawKey);
    forall x
      ensures x in sorted <==> x in joined
    {
      SortByMembers(joined, RawKey, x);
    }
    sorted
  }

  /** `get_user_vehiculs_db`: the user's vehicles, in rowid order (the query
      has no `ORDER BY`; SQLite's table scan yields rowid order). */
  function UserVehicles(vehicles: Table<Vehicle>, userId: nat): (r: Table<Vehicle>)
    ensures forall x :: x in r <==> x in vehicles && x.fields.userId == userId
    ensures Ascending(vehicles) ==> Ascending(r)
  {
    if vehicles == [] then []
    else if vehicles[0].fields.userId == userId then [vehicles[0]] + UserVehicles(vehicles[1..], userId)
    else UserVehicles(vehicles[1..], userId)
  }
}
