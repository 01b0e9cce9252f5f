# Fahrten carpooling core in Dafny

This project models the core of Fahrten, a carpooling web app built on Streamlit and SQLite. The model covers:

- The SQLite data layer in `Database_Fahrten.py`: users, rides, bookings and vehicles, each an `AUTOINCREMENT` table.
- The ride pages in `Rides.py`:
  - the list of bookable rides, with the prune that runs before it and its "book" button;
  - the user's booked and offered rides, with cancel and the cascading delete;
  - the ride editor and the offer form.
- The account pages in `Fahrten.py`:
  - registration and the new-vehicle form;
  - the vehicle editor, with its picture merge, and the vehicle delete;
  - the profile editor, with its picture default.

## How the model is built

Each table is a sequence of rows in rowid order (`Tables`), together with its `AUTOINCREMENT` counter. The `SELECT`/`INSERT`/`UPDATE`/`DELETE ... WHERE id=?` statements the app issues are functions on those sequences.

The database is a class, `Database.Store`. It holds the four tables and four counters. The functions of `Database_Fahrten.py` are methods that change them in place. The page handlers are methods that take the store, call those methods, or run the pages' own SQL on the store's fields.

Each method states its new state exactly, including what it leaves alone. Every method keeps `Store.Valid()`: ids ascending and within their counter, and usernames unique.

The seat bookkeeping lives in `Reservations`, as pure transitions on a `Ledger`. A ledger is the rides table, the bookings table and the bookings counter. The transitions are:

- `Book` (`book_ride_db`);
- `BookFromButton` (the list's button, which does not check for duplicates);
- `Cancel`, `DeleteCascade` and `Prune`.

Each handler that touches seats or bookings ensures `db.RideLedger() == X(old(db.RideLedger()), ...)`. The lemmas about the transitions carry the bookkeeping properties:

- seats are conserved;
- a booking is never doubled through `book_ride_db`;
- cancelling twice is cancelling once;
- seat counts never go negative;
- the two-seat scenario plays out as expected.

Dates and times are `Dates.Date` and `Dates.Time`. `FormatDotted`, `FormatDashed` and `FormatTime` are the `strftime` formats the app stores. `DateKey` is the SQL key `SUBSTR(date,7,4)||SUBSTR(date,4,2)||SUBSTR(date,1,2)`. The lemmas show that this key, and the `HH:MM` text, sort in calendar and clock order under SQLite's BINARY collation. `ORDER BY` is a stable insertion sort (`Ordering.SortBy`), specified as sorted, a permutation of its input, and having the same members.

The model follows the code in these places:

- **The prune leaves orphan bookings.** The prune before the ride list deletes full and past rides but not their bookings; those booking rows remain as orphans. `Rides.LastSeatThenPrune` shows that booking a ride's last seat and then opening the list deletes the ride, while the booking row stays.
- **`delete_ride_db` does not cascade.** It deletes the ride row only. The cascade is done by the "my rides" page (`Rides.DeleteOfferedRide`).
- **`get_rides_db` and `get_user_bookings_db` sort by the raw `DD.MM.YYYY` text, which is not calendar order.** The pages' own queries use the date key. `Rides.RawDateOrderIsNotChronological` gives a pair of dates that come out in the wrong order.
- **Kept pictures are deleted from disk.** When a profile or a vehicle is saved without a new picture, the current picture's file is deleted and its path is stored again, so the row then names a missing file:
  - for a profile, `update_user_profile_picture` deletes the file of whatever path was stored before (`Fahrten.KeptProfilePictureIsDeleted`);
  - for a vehicle, `update_vehicul_pictures` deletes every old picture, including the kept ones (`Fahrten.KeptVehiclePictureIsDeleted`).

## Model

| member | source | states |
|---|---|---|
| Tables.Find | Database_Fahrten.py:309-310 | `SELECT ... WHERE id=?` + `fetchone()`: a result is a row of the table with that id; no result means no row has that id |
| Tables.Insert | Database_Fahrten.py:211-216 | an `AUTOINCREMENT` insert gives the new row the id after the counter, which no row had, and keeps ids ascending and within the new counter |
| Tables.Update | Database_Fahrten.py:320 | `UPDATE ... WHERE id=?`: exactly the rows with that id get the new fields; the others and the length are unchanged |
| Tables.Modify | Database_Fahrten.py:230-233 | an `UPDATE` whose new values depend on the row: exactly the rows with that id are rewritten |
| Tables.Delete | Database_Fahrten.py:285 | `DELETE ... WHERE id=?`: the rows left are exactly the old rows with another id; ids stay ascending and within the counter |
| Tables.FindMember | Database_Fahrten.py:309-310 | with distinct ids, every row is what a lookup of its id returns |
| Tables.FindUpdate | Database_Fahrten.py:320 | after an `UPDATE`, that id reads back the new fields if the row existed; every other id reads as before |
| Tables.FindDelete | Database_Fahrten.py:285 | after a `DELETE`, that id is gone and every other id reads as before |
| Tables.FindAppend | Database_Fahrten.py:211-216 | after an insert, old ids read as before and the new id reads the new row |
| Tables.FindModify | Database_Fahrten.py:230-233 | after a row-dependent `UPDATE`, the id reads the rewritten row if it existed; other ids are unchanged |
| Tables.UpdateSame | Database_Fahrten.py:320 | writing back a row's own fields changes nothing |
| Tables.UpdateTwice | Database_Fahrten.py:253 | of two `UPDATE`s of one row, the second one wins |
| Tables.DeleteInserted | Database_Fahrten.py:319 | deleting the row just inserted restores the table |
| Tables.ModifyIsUpdate | Rides.py:249 | with distinct ids, an `UPDATE` computed from the row equals writing the rewritten row |
| Tables.ModifyAbsent | Rides.py:55-56 | an `UPDATE` of an id no row has changes nothing |
| Tables.ModifyWellFormed | Database_Fahrten.py:230-233 | an `UPDATE` keeps every id, so the table stays well formed |
| Tables.UpdateAppended | Fahrten.py:468-477 | updating the row just appended rewrites that row only |
| Tables.UpdateWellFormed | Database_Fahrten.py:320 | an `UPDATE` keeps the table well formed |
| Strings.Substr | Rides.py:176 | SQLite `SUBSTR` with a 1-based start: a slice of at most `count` characters, empty past the end |
| Strings.Lt | Rides.py:188 | definition: SQLite's BINARY comparison, character by character, a proper prefix first; its order properties are the lemmas below |
| Strings.LtIrreflexive | Rides.py:188 | BINARY collation: no text sorts before itself |
| Strings.LtTransitive | Rides.py:188 | BINARY collation is transitive |
| Strings.LtTotal | Rides.py:188 | any two different texts are ordered one way or the other |
| Strings.LtAsymmetric | Rides.py:188 | two texts never sort before each other |
| Strings.LtConcat | Rides.py:188 | comparing equal-length prefixes decides the comparison of the concatenations |
| Strings.LtConcat3 | Rides.py:188 | the same for three equal-width fields, as in the date key |
| Dates.Pad | Rides.py:273-274 | `%d`, `%m`, `%Y`, `%H`, `%M` print exactly `width` digits |
| Dates.ValuePad | Rides.py:273-274 | a zero-filled number reads back as that number |
| Dates.PadValue | Rides.py:130-134 | a digit string is the zero-filled form of its value |
| Dates.PadOrder | Rides.py:188 | zero-filled numbers of one width sort as strings exactly as the numbers sort |
| Dates.FormatDotted | Rides.py:273 | `strftime("%d.%m.%Y")` is 10 characters |
| Dates.FormatDashed | Fahrten.py:468 | `strftime("%Y-%m-%d")` is 10 characters |
| Dates.FormatTime | Rides.py:274 | `strftime("%H:%M")` is 5 characters |
| Dates.CompactDate | Rides.py:176 | `STRFTIME('%Y%m%d','now')` is 8 characters |
| Dates.DateKey | Rides.py:188 | definition: the year, month and day `SUBSTR` slices of any stored text, concatenated in that order; `DateKeyOfDotted` and `DateKeyOrder` give its meaning |
| Dates.NotPast | Rides.py:185 | definition: the key is not below `STRFTIME('%Y%m%d','now')`; `NotPastIsChronological` gives its meaning |
| Dates.DateKeyOfDotted | Rides.py:176 | the SQL key of a stored `DD.MM.YYYY` date is that date's `YYYYMMDD` |
| Dates.FieldsOrder | Rides.py:188 | three zero-filled fields of widths 4, 2, 2 sort before one another exactly when the number triple is smaller, both directions |
| Dates.FieldsEqual | Rides.py:188 | three zero-filled fields of widths 4, 2, 2 spell the same text exactly when the number triples are equal |
| Dates.CompactDateOrder | Rides.py:176 | `YYYYMMDD` strings sort in calendar order, and are equal exactly for equal dates |
| Dates.DateKeyOrder | Rides.py:188 | the pages' sort key orders stored dates chronologically, and ties exactly on equal dates |
| Dates.NotPastIsChronological | Rides.py:176 | a stored date passes the SQL "not before today" test exactly when it is today or later |
| Dates.TimeOrder | Rides.py:188 | stored `HH:MM` times sort in clock order, both directions, and are the same text exactly for the same time |
| Dates.ParseDotted | Rides.py:130 | `strptime("%d.%m.%Y")` on canonical input yields only valid dates |
| Dates.ParseTime | Rides.py:134 | `strptime("%H:%M")` on canonical input yields only valid times |
| Dates.DottedRoundTrip | Rides.py:130-160 | a date written with `%d.%m.%Y` parses back to itself |
| Dates.DottedParseCanonical | Rides.py:130 | whatever parses is re-printed unchanged |
| Dates.TimeRoundTrip | Rides.py:134-161 | a time written with `%H:%M` parses back to itself |
| Dates.TimeParseCanonical | Rides.py:134 | whatever parses as a time is re-printed unchanged |
| Dates.DateOrToday | Rides.py:129-132 | the editor's start date: the parsed stored date, or today when it does not parse |
| Dates.TimeOrMidnight | Rides.py:133-136 | the editor's start time: the parsed stored time, or midnight when it does not parse |
| Dates.EditKeepsStoredDate | Rides.py:129-160 | opening the editor on a stored date and saving keeps the date text unchanged |
| Ordering.KeyLeq | Rides.py:188 | definition: `ORDER BY major ASC, minor ASC` under the BINARY collation; total and transitive by the next two lemmas |
| Ordering.KeyLeqTotal | Rides.py:188 | any two `ORDER BY` keys are comparable |
| Ordering.KeyLeqTransitive | Rides.py:188 | the `ORDER BY` key order is transitive |
| Ordering.InsertSorted | Rides.py:188 | inserting into a sorted list keeps it sorted and adds exactly that element |
| Ordering.SortBy | Rides.py:188 | `ORDER BY`: the result is sorted by the key and is a permutation of the input |
| Ordering.SortByMembers | Rides.py:188 | sorting keeps exactly the same members |
| Schema.PictureColumns | Database_Fahrten.py:359-371 | `pictures.get(name)` per column: the dict's path for that slot, or NULL when the dict or the key is missing |
| Schema.Columns | Database_Fahrten.py:402-406 | the four picture columns in `SELECT` order |
| Schema.TruthyPaths | Database_Fahrten.py:408-411 | the paths a `for ... if path:` loop acts on: exactly the non-NULL, non-empty ones |
| Schema.SlotNameInjective | Fahrten.py:625-628 | the four slot names are distinct dict keys |
| Schema.SlotOrderCoversSlots | Fahrten.py:665 | iterating the upload dict visits each of the four slots |
| Schema.TruthyPathsAppend | Database_Fahrten.py:409-411 | the paths acted on for one more column are the earlier ones plus that column's, when truthy |
| Database.Store.RideLedger | Database_Fahrten.py:163-185 | a valid store's rides and bookings form a valid ledger |
| Database.Store.constructor | Database_Fahrten.py:138-198 | a new database has four empty tables and valid counters |
| Database.UsernameTaken | Database_Fahrten.py:141 | definition: some user row already has the username, which the `UNIQUE` constraint rejects |
| Database.Store.RegisterUser | Database_Fahrten.py:203-219 | fails exactly when the username is taken, changing nothing; otherwise appends the user under the next id and returns it |
| Database.Store.UpdateUserProfile | Database_Fahrten.py:223-235 | rewrites the six profile columns of that user, if any; always reports success |
| Database.Store.UpdateUserProfilePicture | Database_Fahrten.py:237-255 | for an existing user: returns the old path as the file to delete when it is truthy, and stores the new path |
| Database.Store.AddRide | Database_Fahrten.py:259-268 | appends the ride under the next id and returns the id |
| Database.Store.DeleteRide | Database_Fahrten.py:281-287 | deletes that ride only, leaving its bookings; reports whether it existed |
| Database.Store.UpdateRide | Database_Fahrten.py:289-298 | overwrites the five editable columns of that ride, keeping the provider; reports whether it existed |
| Database.Store.BookRide | Database_Fahrten.py:302-323 | succeeds exactly when the ride exists, has a free seat and the user has no booking of it; the ledger moves as `Book` says |
| Database.Store.AddVehicle | Database_Fahrten.py:344-373 | appends the vehicle with each picture column taken from the dict by `.get`, and returns the new id |
| Database.Store.UpdateVehiclePictures | Database_Fahrten.py:389-431 | returns every truthy old picture path of the vehicle as deleted, stores the four columns from the dict, and reports whether the vehicle existed |
| Database.ModifyKeepsUniqueUsernames | Database_Fahrten.py:141 | an `UPDATE` that leaves usernames alone keeps them unique |
| Database.EditedRide | Database_Fahrten.py:293-296 | an edit never changes a ride's provider |
| Database.FilesToDelete | Database_Fahrten.py:408-411 | the loop deletes exactly the truthy paths, in column order |
| Database.RegisteredUsernameIsUnique | Database_Fahrten.py:141 | a registration that passes the UNIQUE check keeps usernames unique and is found under its new id |
| Database.SummaryOf | Database_Fahrten.py:274-278 | the join yields a row exactly when the provider exists, carrying the ride's id, date and time |
| Database.JoinProviders | Database_Fahrten.py:274-278 | the join holds exactly the rides whose provider exists |
| Database.JoinProvidersOrdered | Database_Fahrten.py:274-278 | the join yields one row per ride, by strictly ascending ride id, so together with its members it is determined |
| Database.AllRides | Database_Fahrten.py:270-279 | `get_rides_db`: exactly the joined rides, sorted by the raw date text then the time, and a permutation of the join |
| Database.BookingSummary | Database_Fahrten.py:332-339 | a booking yields a row exactly when its ride exists and the ride's provider exists, carrying the ride's id, date and time |
| Database.JoinBookings | Database_Fahrten.py:332-339 | the join holds exactly the rows of the user's bookings whose ride and provider exist |
| Database.JoinBookingsCounts | Database_Fahrten.py:332-339 | each joined row occurs once per booking of the user that yields it, so a ride booked twice is listed twice |
| Database.UserBookings | Database_Fahrten.py:325-340 | `get_user_bookings_db`: exactly those rows, sorted by the raw date text then the time, and a permutation of the join |
| Database.UserVehicles | Database_Fahrten.py:375-387 | `get_user_vehiculs_db`: exactly the user's vehicles, in ascending id order |
| Reservations.HasBooking | Database_Fahrten.py:314-315 | definition: the duplicate check `COUNT(*) > 0` over the user's bookings of the ride |
| Reservations.BookingsFor | Database_Fahrten.py:177-183 | definition: the number of booking rows that reference a ride, used by the seat-conservation lemmas |
| Reservations.Reserve | Database_Fahrten.py:319-320 | definition: the INSERT of the booking and the seat decrement; `ReserveEffect` states its effect |
| Reservations.Book | Database_Fahrten.py:302-323 | succeeds exactly when the ride has a free seat and the user has no booking of it; a failure changes nothing |
| Reservations.BookFromButton | Rides.py:241-250 | the button succeeds exactly when the ride has a free seat (no duplicate check); a failure changes nothing |
| Reservations.ReturnSeat | Rides.py:53-56 | giving a seat back to a missing ride changes nothing |
| Reservations.ButtonReserves | Rides.py:247-249 | the button's insert and in-place decrement are the successful `BookFromButton`, and keep both tables well formed |
| Reservations.GiveSeatReturns | Rides.py:56 | the in-place `available_seats + 1` is `ReturnSeat`, whether or not the ride exists |
| Reservations.Cancel | Rides.py:53-58 | cancelling a missing booking changes nothing; the booking is gone afterwards; the booking counter is kept |
| Reservations.DeleteBookingsOf | Rides.py:105 | exactly the bookings of other rides remain; ids stay well formed |
| Reservations.PruneRides | Rides.py:176 | exactly the rides with a free seat and a date not in the past remain; ids stay well formed |
| Reservations.DeleteAbsent | Rides.py:57 | deleting a missing booking changes nothing |
| Reservations.BookingsForAppend | Database_Fahrten.py:319 | a new booking adds one to its ride's booking count and none to the others |
| Reservations.BookingsForDelete | Rides.py:57 | deleting a booking takes one off its ride's booking count |
| Reservations.HasBookingAppend | Database_Fahrten.py:314-319 | after the insert the user holds a booking of that ride; other user-ride pairs are unchanged |
| Reservations.ReserveEffect | Database_Fahrten.py:319-320 | a reservation takes one seat from that ride, adds one booking for it, and changes no other ride |
| Reservations.ReserveConservesSeats | Database_Fahrten.py:319-320 | a reservation keeps seats plus bookings of the ride constant |
| Reservations.BookSuccess | Database_Fahrten.py:312-322 | a successful booking is that reservation, and leaves the ledger valid |
| Reservations.BookConservesSeats | Database_Fahrten.py:302-323 | booking, successful or not, keeps seats plus bookings of every ride constant |
| Reservations.BookTwice | Database_Fahrten.py:314-317 | a second booking of the same ride by the same user fails and changes nothing: one seat taken in total |
| Reservations.ButtonAgreesWithBook | Rides.py:241-250 | when the user has no booking of the ride, the button does what `book_ride_db` does |
| Reservations.ButtonBooksDuplicates | Rides.py:241-250 | the button does book a ride the user already holds: it takes a second seat and adds a second booking |
| Reservations.ReturnSeatEffect | Rides.py:56 | giving a seat back adds one seat to that ride, if it exists, and changes no other ride |
| Reservations.CancelEffect | Rides.py:53-58 | cancelling an existing booking gives its ride one seat back, deletes exactly that booking, takes one off the ride's booking count, and keeps the ledger valid |
| Reservations.CancelConservesSeats | Rides.py:53-58 | cancelling keeps seats plus bookings of a still-existing ride constant |
| Reservations.CancelIdempotent | Rides.py:53-58 | cancelling the same booking twice is cancelling it once |
| Reservations.BookThenCancel | Rides.py:53-58 | cancelling a booking just made restores the rides and bookings tables |
| Reservations.ReturnTakenSeat | Rides.py:53-56 | giving back the seat just taken from a ride restores the rides table |
| Reservations.ReserveThenCancel | Rides.py:53-58 | cancelling the booking a reservation just inserted restores both tables |
| Reservations.DeleteCascade | Rides.py:104-105 | definition: the ride row is deleted, then every booking of it; `DeleteCascadeEffect` states its effect |
| Reservations.DeleteCascadeEffect | Rides.py:104-106 | the provider's delete removes the ride and every booking of it, and nothing else |
| Reservations.NoBookingsLeft | Rides.py:105 | after the cascade no booking names the ride |
| Reservations.Prune | Rides.py:176 | definition: the DELETE on rides only, the bookings table left as it is; `PruneEffect` states its effect |
| Reservations.PruneEffect | Rides.py:176 | after the prune no remaining ride is full or past, every current ride survives, and bookings are untouched |
| Reservations.PruneIdempotent | Rides.py:176 | pruning twice is pruning once |
| Reservations.SeatsStayNonNegative | Database_Fahrten.py:312 | booking, button booking, cancelling, the cascade and the prune never drive a seat count below zero |
| Reservations.UpdateKeepsNonNegative | Database_Fahrten.py:320 | writing a non-negative seat count keeps all counts non-negative |
| Reservations.ReturnSeatKeepsNonNegative | Rides.py:56 | giving a seat back keeps all counts non-negative |
| Reservations.SubsetKeepsNonNegative | Rides.py:176 | deleting rides keeps all counts non-negative |
| Reservations.BookStep | Database_Fahrten.py:302-323 | a booking with a free seat and no duplicate succeeds, takes exactly one seat and records the booking |
| Reservations.CancelStep | Rides.py:53-58 | cancelling an existing booking returns exactly one seat and removes the booking |
| Reservations.TwoSeatScenario | Database_Fahrten.py:302-323 | two seats: A and B book, C is refused, A cancels, C books, and the seat count ends at zero |
| Rides.Listed | Rides.py:184-187 | definition: the list's `WHERE` on one ride: seats left, not past, not the viewer's, not booked by the viewer |
| Rides.ListedOffers | Rides.py:179-189 | the list's `WHERE`: exactly the rides with seats, not past, not the viewer's, not booked by the viewer, whose provider exists |
| Rides.ListedOffersOrdered | Rides.py:179-189 | the filtered join lists each ride at most once, by strictly ascending ride id |
| Rides.BookableRides | Rides.py:179-189 | the same rides, sorted by the date key and then the time, as a permutation of the filtered join |
| Rides.RawDateOrderIsNotChronological | Database_Fahrten.py:270-279 | under raw-text order, 1 February sorts before an earlier 2 January; the date key orders them correctly |
| Rides.ListingIsChronological | Rides.py:188 | for app-stored dates and times, the list is in calendar order and then clock order |
| Rides.PruneKeepsListing | Rides.py:176-189 | the prune removes only rides the list excludes anyway: the list is the same before and after |
| Rides.ListedRideBooks | Rides.py:237-250 | the button of a listed ride succeeds, and does exactly what `book_ride_db` would |
| Rides.BookedRow | Rides.py:22-31 | a booking yields a row exactly when its ride exists, is not past, and has a provider |
| Rides.JoinBooked | Rides.py:22-31 | the join holds exactly the user's bookings that yield a row |
| Rides.JoinBookedOrdered | Rides.py:22-31 | the join yields one row per booking, by strictly ascending booking id |
| Rides.MyBookedRides | Rides.py:22-31 | "my booked rides": exactly those rows, sorted by the date key then the time |
| Rides.OrphanNotListed | Rides.py:22-31 | a booking whose ride is gone never shows among the booked rides |
| Rides.LastSeatThenPrune | Rides.py:176 | booking the last seat and then opening the list deletes the ride but keeps the booking row, and the ride vanishes from "my booked rides" |
| Rides.MyOfferedRides | Rides.py:66-69 | "my offered rides": a permutation of the user's rides, sorted by the date key then the time |
| Rides.RidesOf | Rides.py:66-69 | exactly the rides the user provides, each once, in rowid order |
| Rides.Passengers | Rides.py:82-87 | exactly the users of the ride's bookings that exist, no more entries than bookings |
| Rides.PassengersCounts | Rides.py:82-87 | each passenger occurs once per booking of the ride whose user row it is, so a user who booked twice is listed twice |
| Rides.PruneCatalog | Rides.py:176 | the prune leaves the ledger as `Prune` says, and changes nothing else |
| Rides.BookFromListing | Rides.py:241-250 | the button re-reads the seats, and the outcome and new ledger are `BookFromButton`'s; nothing else changes |
| Rides.CancelBooking | Rides.py:53-58 | the new ledger is `Cancel`'s; nothing else changes |
| Rides.DeleteOfferedRide | Rides.py:104-106 | the new ledger is `DeleteCascade`'s; nothing else changes |
| Rides.EditDefaults | Rides.py:117-136 | nothing when the ride is gone; otherwise its fields, with the parsed date (or today) and time (or midnight) |
| Rides.SaveRideEdit | Rides.py:156-167 | a missing ride or an incomplete form changes nothing; otherwise the ride gets the five fields with the date and time as `strftime` writes them |
| Rides.SavedEditReloads | Rides.py:117-167 | reopening the editor after a save shows exactly the values saved |
| Rides.RideFormComplete | Rides.py:270 | definition: `all([...])` over the offer and edit forms: both texts non-empty and a seat count that is not 0 |
| Rides.OfferRide | Rides.py:269-282 | an incomplete form inserts nothing; otherwise the ride is appended with its date and time written by `strftime`, and its id returned |
| Rides.OfferedRideIsListed | Rides.py:179-189 | a ride offered for today or later with seats appears in the list of every other user who has not booked it |
| Fahrten.RegisteredPicture | Fahrten.py:470-477 | a new account has a picture only when the upload saved to a truthy path |
| Fahrten.RegistrationComplete | Fahrten.py:460 | definition: `all([...])` over the seven registration texts, each non-empty |
| Fahrten.SubmitRegistration | Fahrten.py:459-489 | an incomplete form changes nothing; a taken username changes nothing; otherwise one user row is appended, with the licence date as `YYYY-MM-DD` and the saved picture, if any |
| Fahrten.SavedOrNull | Fahrten.py:586-591 | a new vehicle's slot is the saved path when a file was chosen, else NULL |
| Fahrten.VehicleFormComplete | Fahrten.py:584 | definition: make and model non-empty, the guard of both vehicle forms |
| Fahrten.SubmitNewVehicle | Fahrten.py:583-604 | an incomplete form changes nothing; otherwise one vehicle is appended with the date as `YYYY-MM-DD` and each slot's saved path or NULL |
| Fahrten.SlotChoice | Fahrten.py:665-669 | a chosen file replaces the slot's path with whatever saving returned; no file keeps the current path |
| Fahrten.Merged | Fahrten.py:665-669 | each of the four stored paths is its slot's choice |
| Fahrten.MergePictures | Fahrten.py:663-669 | the loop builds a dict with exactly the four slot keys, each holding its slot's choice, whose columns are `Merged` |
| Fahrten.MergedDictIsMerged | Fahrten.py:663-669 | a dict holding exactly the four slot keys, each with its slot's choice, reads back as `Merged` column by column |
| Fahrten.OwnerEdit | Fahrten.py:671-677 | the details change only when the user owns the vehicle; owner and pictures never change |
| Fahrten.UpdateVehicleDetails | Fahrten.py:671-677 | the owner-guarded `UPDATE`: the named vehicle gets the details if it exists; nothing else changes |
| Fahrten.DetailsUpdateIsOwnerGuarded | Fahrten.py:673-676 | only the owner's row reads back edited; a non-owner's update leaves the table as it was |
| Fahrten.EditedVehicle | Fahrten.py:663-679 | after the whole edit, the pictures are the merged ones whoever owns the vehicle; the details change only for the owner |
| Fahrten.SubmitVehicleEdit | Fahrten.py:662-686 | an incomplete form changes nothing; otherwise the vehicle, if it exists, becomes `EditedVehicle`, and all its old truthy picture paths are reported deleted |
| Fahrten.KeptVehiclePictureIsDeleted | Fahrten.py:665-679 | a truthy picture kept by not uploading is among the deleted files and is also the path stored again |
| Fahrten.DeleteVehicle | Fahrten.py:833-840 | the shown row's truthy pictures are deleted, then the vehicle row, without an owner check; every other vehicle is unchanged |
| Fahrten.CurrentPicture | Fahrten.py:722 | the shown picture, or none when it is NULL or empty |
| Fahrten.ProfilePictureToSave | Fahrten.py:743-749 | the current path is replaced only by an upload that saved to a truthy path, and a truthy current path is never lost |
| Fahrten.ProfileComplete | Fahrten.py:740 | definition: `all([...])` over the five personal texts of the profile form, each non-empty |
| Fahrten.SubmitProfileEdit | Fahrten.py:739-758 | an incomplete form changes nothing; otherwise the user row gets the six fields, the licence date as `YYYY-MM-DD`, and the chosen picture; the previously stored truthy path is reported deleted |
| Fahrten.KeptProfilePictureIsDeleted | Fahrten.py:743-758 | without a usable upload, the path stored again is the path whose file is deleted |

## Left out

- Database.Store.UpdateUserProfilePicture: requires the user to exist: for a missing id the source's `fetchone()[0]` raises an error before anything is written.
- **Streamlit and the UI.** The page layout, session state, navigation, `st.rerun`, messages and translations are left out. The acting user and the form values are parameters.
- **Picture and password helpers.** Reading and writing image files, PIL resizing and bcrypt hashing are left out. The result of `save_vehicle_image`/`save_profile_picture` is an input (`Fahrten.Upload`). Files to delete are returned as paths instead of being deleted. The password hash is an input.
- **The clock.** `STRFTIME('%Y%m%d','now')` (UTC in SQLite) and `date.today()` (local time) are both the parameter `today`. Their possible one-day disagreement around midnight is not modelled.
- **Transactions and concurrency.** Each handler is one atomic step. The read-then-write races between requests are not modelled, and neither is a crash between two statements.
- **SQL `NULL` in text columns other than the licence date and the pictures.** These columns are never NULL in the rows the app writes.
- **64-bit rowids and seat counts.** They are unbounded integers here.
- **`strptime` on non-canonical input.** Python also accepts unpadded days and months, and years before 1000 print differently on some platforms. The model parses only the zero-padded form the app writes, so any other text falls back to today or midnight.
- **Tie order in `ORDER BY`.** SQL leaves it unspecified. The model keeps table order, and the contracts say only sorted, permutation and members.
- Database.UserVehicles: `get_user_vehiculs_db` has no `ORDER BY`. The model assumes SQLite's rowid scan order and states it as ascending ids.
- **The schema migration** (`ALTER TABLE users ADD COLUMN`, Database_Fahrten.py:154-160) is left out; the model starts from the current schema.
- **Form widget limits.** `min_value=1` on seat counts and `min_value=today` on ride dates are not preconditions. The model accepts any seat count and any valid date, as the SQL does.
- **The second offer form** (Rides.py:287-314) repeats `show_offer_ride`'s insert and is not modelled separately.
- **The vehicle editor's reading of the stored first-registration date** (Fahrten.py:618) and the profile editor's reading of the licence date (Fahrten.py:713) are left out. The date the form submits is an input.
- Rides.BookedRow: provider contact columns (names, email, phone) in the joined rows are carried as the whole `User` row rather than as the selected columns.
