# Car-rental service layer in Dafny

This project models the service layer of a car-rental backend: the functions that
sit between the HTTP controllers and the relational store and decide which rows a
request reads or writes. Each table is a sequence of rows in storage order, held
as a field of one `Database` class (`database.dfy`). Services that write
(`createBookingService`, `createReservationService`, `createCarService`,
`updateCarsService`, `createInsuranceService`, `createUserService`,
`verifyUserService`) are methods with field-by-field `modifies` frames. Their
`ensures` say what each table holds afterwards. Services that only read are
functions over the table sequences. Each is a `where` filter (`Tables.Where`),
the first row of one (`Tables.FindFirst`), or, for the list-all services, the
whole table.

The main parts are:

- **Reservation classifier** (`reservation_service.dfy`). It has the returned,
  currently-reserved and by-customer-name views. Today's date is the part of
  `toISOString()` before the first `T` (`Dates.Today`). For a `toISOString()`
  timestamp this is the `full-date` of section 5.6 of RFC 3339.
  `Dates.FullDateOrder` proves that comparing two such strings gives calendar
  order (section 5.1 of RFC 3339). The lemmas cover the view boundaries. No
  row is in two views. A row due back today is in neither. Every picked-up row
  is classified. An insert extends each view in order.
- **Older reservation variant** (`legacy_reservation_service.dfy`). There `now`
  is `new Date()` itself. node-postgres sends it as text in the server's local
  time, and the comparison with a date column reads that text as a date. So the
  older views compare with the server's local calendar date rather than the UTC
  date. The lemmas show that they agree with the current views whenever those two
  dates coincide.
- **Bookings, cars, insurance** (`booking_service.dfy`, `car_service.dfy`,
  `insurance_service.dfy`, `legacy_insurance_service.dfy`). These cover inserts
  with the exact error-message contracts, lookups by key, and swallowed failures
  (`[]`) in the car service. The car update overwrites only the supplied fields.
  The provider search is SQL `ILIKE '%provider%'` (`ilike.dfy`). For a provider
  with no wildcards it is proved to be a case-insensitive substring test.
- **Authentication** (`authentication_service.dfy`). Creating a user inserts an
  admin or a customer row, depending on the role. Verification marks the users
  with an email. Login is a lookup by email that returns only some columns.

Store failures are parameters. A read takes `failure: Option<string>` (the
driver's error message) or, in the car service, `failed: bool`. An insert takes
an `InsertReply`: `Stored`, `NoRow` when `returning()` yields nothing, or
`Fails(message)`. Thrown errors are `Result.Err(message)` values carrying the
exact message strings.

## Model

| member | source | states |
|---|---|---|
| `Tables.Where` | src/components/Booking/booking.service.ts:34-37 | `findMany`/`select().where`: the result holds exactly the rows of the table that satisfy the condition, and is no longer than the table |
| `Tables.WhereCounts` | src/components/Booking/booking.service.ts:34-37 | a filter keeps each matching row as many times as the table holds it and drops every other row |
| `Tables.WhereAppend` | src/components/reservation/reservation.service.ts:101-103 | filtering a table with rows appended gives the old matches followed by the matches among the new rows |
| `Tables.FindFirst` | src/components/Booking/booking.service.ts:20-22 | `findFirst`: `None` exactly when no row matches; otherwise the first matching row in storage order, at an index before which no row matches |
| `Tables.FindFirstSnoc` | src/components/Booking/booking.service.ts:20-22 | after appending a row, the first match is unchanged if one existed, else it is the new row if that row matches |
| `Dates.Today` | src/components/reservation/reservation.service.ts:40 | `split("T")[0]`: the result is a prefix of the timestamp with no `T` in it, followed in the timestamp by a `T` or by nothing |
| `Dates.TodayOfIsoTimestamp` | src/components/reservation/reservation.service.ts:53 | for a `YYYY-MM-DDTHH:mm:ss.sssZ` timestamp, `now` is its first ten characters, a full date |
| `Dates.FullDateOrder` | src/components/reservation/reservation.service.ts:47 | for two `YYYY-MM-DD` strings, string `<` holds exactly when the first date is earlier by year, then month, then day |
| `Dates.LexLessDigits` | src/components/reservation/reservation.service.ts:63 | for digit strings of one length, string order is numeric order |
| `Dates.LexLessTotal` | src/components/reservation/reservation.service.ts:62-67 | any two date strings are ordered one way, the other, or equal |
| `ReservationService.ReservationsByCustomer` | src/components/reservation/reservation.service.ts:17-23 | the result holds exactly the reservations whose customerID is the argument; it may be empty |
| `ReservationService.ReservationsByCar` | src/components/reservation/reservation.service.ts:28-34 | the result holds exactly the reservations whose carID is the argument; it may be empty |
| `ReservationService.ReturnedCars` | src/components/reservation/reservation.service.ts:39-47 | the result holds exactly the reservations with a return date strictly before today's date taken from the clock |
| `ReservationService.CurrentlyReservedCars` | src/components/reservation/reservation.service.ts:52-69 | the result holds exactly the reservations picked up today or earlier whose return date is null or after today |
| `ReservationService.CurrentlyReservedByCustomerName` | src/components/reservation/reservation.service.ts:73-96 | "Customer not found" exactly when no user has that first name, `""` included; otherwise the result holds exactly the open reservations whose customerID is the userID of the first user with that name |
| `ReservationService.CreateReservation` | src/components/reservation/reservation.service.ts:101-103 | the given row is appended unchecked and returned as `[row]`; no returned row gives `[]`; a driver error propagates; no other table is touched |
| `ReservationService.ReturnedAndCurrentDisjoint` | src/components/reservation/reservation.service.ts:47-67 | no reservation is both returned and currently reserved |
| `ReservationService.DueTodayInNeither` | src/components/reservation/reservation.service.ts:47-67 | a reservation whose return date is today is in neither view |
| `ReservationService.PickedUpIsClassified` | src/components/reservation/reservation.service.ts:61-69 | a reservation picked up by today is returned, currently reserved, or due back today |
| `ReservationService.FuturePickupNotCurrent` | src/components/reservation/reservation.service.ts:63 | a reservation whose pickup date is after today is not currently reserved |
| `ReservationService.ByNameOmitsScheduledReturns` | src/components/reservation/reservation.service.ts:91-96 | a running reservation with a return date ahead is currently reserved but missing from the by-name view |
| `ReservationService.CreateExtendsViews` | src/components/reservation/reservation.service.ts:101-103 | after an insert, each view is the old view followed by the new row exactly when the row meets its condition; it always joins its customer's and car's lists |
| `ReservationService.CurrentlyReservedByCustomerAccount` | src/components/reservation/reservation.service.ts:88-92 | corrected by-name view: "Customer not found" unless some user has that first name and the first such user has a customer row; otherwise exactly the open reservations carrying the customerID of that user's first customer row |
| `ReservationService.ByNameLeaksToOtherUser` | src/components/reservation/reservation.service.ts:92 | as written, a name whose user has no customer row can receive another customer's open reservation |
| `ReservationService.ByNameMissesOwnReservation` | src/components/reservation/reservation.service.ts:92 | as written, a customer's own open reservation can be missing from the view for their name |
| `ReservationService.ByAccountFindsOwnReservation` | src/components/reservation/reservation.service.ts:88-92 | the corrected view returns the customer's own open reservation on the same tables |
| `ReservationService.ByAccountRejectsNonCustomer` | src/components/reservation/reservation.service.ts:80-82 | the corrected view reports "Customer not found" for a user with no customer row |
| `LegacyReservationService.ReturnedCars` | src/reservation/reservation.service.ts:32-37 | exactly the reservations with a return date strictly before the date read from `new Date()` |
| `LegacyReservationService.CurrentlyReservedCars` | src/reservation/reservation.service.ts:42-56 | exactly the reservations picked up on or before that date whose return date is null or after it |
| `LegacyReservationService.CurrentlyReservedByCustomer` | src/reservation/reservation.service.ts:60-66 | exactly the reservations of that customerID, with no condition on the return date |
| `LegacyReservationService.ByCustomerIncludesReturned` | src/reservation/reservation.service.ts:60-66 | a returned reservation of the customer is still in the older "currently reserved by customer" view |
| `LegacyReservationService.ReturnedAndCurrentDisjoint` | src/reservation/reservation.service.ts:37-53 | no reservation is both returned and currently reserved |
| `LegacyReservationService.DueTodayInNeither` | src/reservation/reservation.service.ts:37-53 | a reservation due back on the compared date is in neither view, whatever the time of day |
| `LegacyReservationService.SameDateViewsAgree` | src/reservation/reservation.service.ts:32-56 | when the server's local date is the clock's UTC date, both older views equal the current ones |
| `BookingService.CreateBooking` | src/components/Booking/booking.service.ts:6-15 | the booking is appended unchanged and returned; no row gives "Failed to create booking: There was an error creating the booking."; a driver error gives "Failed to create booking: " and its message; only the booking table changes, and nothing is checked |
| `BookingService.GetBookingById` | src/components/Booking/booking.service.ts:18-26 | a read failure is rethrown as "Failed to get booking by ID: " and its message; otherwise `None` exactly when no booking has that ID, else a stored booking with that ID |
| `BookingService.GetBookingsByCarId` | src/components/Booking/booking.service.ts:30-40 | exactly the bookings of that car, `[]` when none; a failure gets the prefix "Failed to get bookings by car ID: " |
| `BookingService.GetBookingsByCustomerId` | src/components/Booking/booking.service.ts:44-52 | exactly the bookings of that customer, `[]` when none; a failure gets the prefix "Failed to get bookings by customer ID: " |
| `BookingService.GetAllBookings` | src/components/Booking/booking.service.ts:56-62 | every booking, `[]` on an empty table; a failure gets the prefix "Failed to get all bookings: " |
| `BookingService.CreatedBookingIsFound` | src/components/Booking/booking.service.ts:20-23 | a booking created with an unused ID is what the by-ID lookup then returns |
| `BookingService.DuplicateIdShadowsCreated` | src/components/Booking/booking.service.ts:20-23 | a booking created with an ID already in use is shadowed by the earlier booking in the by-ID lookup |
| `BookingService.CreatedBookingIsListed` | src/components/Booking/booking.service.ts:34-49 | a created booking is appended to its car's and its customer's lists, whatever its dates |
| `CarService.CreateCar` | src/components/car/car.service.ts:6-19 | the car is appended and returned; no row or a driver error gives `[]` and leaves the table as it was |
| `CarService.GetCarById` | src/components/car/car.service.ts:22-38 | exactly the cars with that carID (possibly none); `[]` on failure |
| `CarService.GetCarsByCarModel` | src/components/car/car.service.ts:41-58 | exactly the cars whose model equals the argument; `[]` when none or on failure |
| `CarService.GetAllAvailableCars` | src/components/car/car.service.ts:81-95 | every car returned is a stored car with availability true, and without a failure every such car is returned |
| `CarService.GetAllCarsInACertainLocation` | src/components/car/car.service.ts:100-124 | `[]` when no location has that exact name or on failure; otherwise exactly the cars at the first such location's ID |
| `CarService.ApplyPatch` | src/components/car/car.service.ts:126-132 | the table keeps its length and keys; rows with another carID are unchanged; rows with that carID are overwritten in the supplied fields |
| `CarService.UpdateCars` | src/components/car/car.service.ts:126-132 | the car table becomes the patched table and the result holds the rows with that carID after the update |
| `CarService.UpdatedRowsCarrySuppliedFields` | src/components/car/car.service.ts:128-130 | every updated row carries each supplied value |
| `CarService.UpdateIdempotent` | src/components/car/car.service.ts:126-132 | running the same update twice leaves the table as running it once |
| `CarService.UpdateReturnsPatchedRows` | src/components/car/car.service.ts:126-132 | the update returns exactly the patched forms of the rows it selected |
| `Patterns.ILike` | src/components/Insurance/insurance.service.ts:51 | `ilike(column, pattern)`: `%` matches any run of characters, `_` exactly one, and every other character itself up to ASCII case; a pattern without wildcards matches exactly the strings equal to it up to case |
| `Patterns.SubstringPattern` | src/components/Insurance/insurance.service.ts:51 | for a provider without `%` or `_`, `ILIKE '%provider%'` holds exactly when the provider occurs in the string ignoring ASCII case |
| `Patterns.LiteralPrefix` | src/components/Insurance/insurance.service.ts:51 | a pattern that starts with a wildcard-free part matches exactly when the string starts with that part, ignoring case, and the rest of the pattern matches the rest of the string |
| `Patterns.LeadingPercent` | src/components/Insurance/insurance.service.ts:51 | a leading `%` matches exactly when the rest of the pattern matches some suffix of the string |
| `Patterns.CaseOfPatternIrrelevant` | src/components/Insurance/insurance.service.ts:51 | patterns that differ only in case match the same strings |
| `InsuranceService.CreateInsurance` | src/components/Insurance/insurance.service.ts:6-15 | the insurance is appended and returned; no row gives "Create insurance error: Failed to create insurance."; a driver error gives "Create insurance error: " and its message |
| `InsuranceService.GetInsuranceById` | src/components/Insurance/insurance.service.ts:18-28 | exactly the rows with that insuranceID, `[]` rather than null when none; a failure gets the prefix "Get insurance by ID error: " |
| `InsuranceService.GetInsurancesByCarId` | src/components/Insurance/insurance.service.ts:32-42 | exactly the insurances of that car; a failure gets the prefix "Get insurances by car ID error: " |
| `InsuranceService.GetInsurancesByProvider` | src/components/Insurance/insurance.service.ts:46-56 | exactly the insurances whose provider is `ILIKE '%provider%'`; a failure gets the prefix "Get insurances by provider error: " |
| `InsuranceService.GetAllInsurances` | src/components/Insurance/insurance.service.ts:60-69 | every insurance; a failure gets the prefix "Get all insurances error: " |
| `InsuranceService.ProviderSearchIsSubstring` | src/components/Insurance/insurance.service.ts:51 | for a provider without wildcards, the search keeps exactly the rows whose provider contains it, ignoring case |
| `InsuranceService.EmptyProviderListsAll` | src/components/Insurance/insurance.service.ts:51 | the empty provider lists every insurance |
| `InsuranceService.ProviderCaseIrrelevant` | src/components/Insurance/insurance.service.ts:51 | providers that differ only in case give the same list |
| `LegacyInsuranceService.GetInsuranceById` | src/Insurance/insurance.service.ts:18-26 | `None` exactly when no insurance has that ID, else a stored insurance with that ID; a failure gets the prefix "Get insurance by ID error: " |
| `LegacyInsuranceService.ByIdVariantsAgree` | src/Insurance/insurance.service.ts:20-23 | the older lookup answers null exactly where the current one answers `[]`, and otherwise the first row of the current answer |
| `AuthenticationService.CreateUser` | src/Authentication/authentication.service.ts:5-17 | always "User created successfully"; exactly one user row is appended; role "admin" adds one admin row and role "user" one customer row, each carrying the new userID; any other role, null included, adds neither; admin and customer rows keep pointing at stored users |
| `AuthenticationService.GetUserByEmail` | src/Authentication/authentication.service.ts:19-23 | `None` exactly when no user has that email, else a stored user with that email |
| `AuthenticationService.VerifyRows` | src/Authentication/authentication.service.ts:26-30 | users with that email become verified with a null code; every other row is unchanged; the table keeps its length |
| `AuthenticationService.VerifyUser` | src/Authentication/authentication.service.ts:26-30 | the user table becomes the verified table and admin and customer rows still point at stored users |
| `AuthenticationService.SameUserIds` | src/Authentication/authentication.service.ts:27-29 | verification keeps every userID present |
| `AuthenticationService.VerifyIdempotent` | src/Authentication/authentication.service.ts:26-30 | verifying twice leaves the table as verifying once |
| `AuthenticationService.VerifiedThenFound` | src/Authentication/authentication.service.ts:26-30 | after verification, the email lookup finds a verified user with no code |
| `AuthenticationService.UserLogin` | src/Authentication/authentication.service.ts:34-45 | `None` exactly when no user has the given email, else userID, email, password and role of a stored user with that email |
| `AuthenticationService.LoginProjectsLookup` | src/Authentication/authentication.service.ts:34-45 | login returns the selected columns of the user the email lookup finds |
| `AuthenticationService.CreatedUserCanLogIn` | src/Authentication/authentication.service.ts:5-17 | a user created with an unused email is then found by login, whatever password is offered |

## Left out

- Controllers, routers and the server entry point are not part of this model. This includes the HTTP status and message shaping built on these services.
- The right joins with customers, users, cars and locations are left out. Each view is its `where` condition over the base table. A joined row with a null reservation or car fails that condition, so it never appears. The joins can still drop a row whose key has no partner row. For example, the reservation views join users on `userID = customerID`. The model assumes every key has its partner and every key is unique, so the joins keep each row exactly once.
- The wall clock is a parameter. The current reservation views take the `toISOString()` text. The older ones take the calendar date that the comparison reads from `new Date()`. node-postgres sends the `Date` as local-time text, and Postgres reads it as a date when it compares it with a date column. The schema is not part of this model. If the columns were timestamps, the older views would instead compare with the exact instant.
- `Tables.Where`: storage order stands for the order a query without `ORDER BY` returns. The database does not promise that order.
- Store failures in services without `try`/`catch` are not parameters. This covers the reservation lookups, `updateCarsService` and the authentication services. Their errors propagate unchanged. `CreateReservation` does model a driver error, as `Err` with the driver's own message.
- AuthenticationService.CreateUser: a failure of the admin or customer insert after the user insert is not modelled. In that case the user row would stay without its role row.
- The database's serial keys are not generated for users, cars, bookings, reservations or insurances. Those rows keep the ID they are given. Admin and customer keys are generated from a counter.
- Patterns.ILike: the backslash escape of `LIKE` is not modelled. Case folding is ASCII only.
- Money and rate strings (`rentalRate`, `totalAmount`), `year`, and the users' `createdAt` column are not interpreted.
- Dates.IsFullDate checks the shape `YYYY-MM-DD` only, not the ranges of month and day. The order lemma does not need them.
- The older file's lookups by customer and by car use the same conditions as the current file's, without the joins. Its insert is the same statement. `ReservationService.ReservationsByCustomer`, `ReservationsByCar` and `CreateReservation` model both.
- The older insurance file's insert, by-car, by-provider and list-all services use the same conditions and messages as the current file's, without the left join with cars. The `InsuranceService` members model both.
- The code has no booking date-order check and no car or customer existence check. It also has no reservation or booking overlap or availability check. None is modelled: `CreateBooking` and `CreateReservation` insert whatever they are given.
- `async`/`await`: each service call is one atomic step. Concurrent interleavings are not modelled.
- `console.log` calls are left out.
- The pass-through services for payments, maintenance, customers and locations are not part of this model. Neither are the placeholder car, booking and location files of the older tree.

## Findings

| source | as written | input that shows it | evidently intended | confidence | as-written member | corrected member |
|---|---|---|---|---|---|---|
| src/components/reservation/reservation.service.ts:92 | keeps reservations whose `customerID` equals the found user's `userID`. `customerID` refers to the customer table (joined at line 88) and `userID` to the users table | users Ann (userID 1, no customer row) and John (userID 2, customer 1), one open reservation of customer 1: asking for "Ann" returns John's reservation, asking for "John" returns nothing (`ReservationService.ByNameLeaksToOtherUser`, `ReservationService.ByNameMissesOwnReservation`) | go from the user to that user's customer row and compare `customerID` with that row's `customerID` | medium, not executed | `ReservationService.CurrentlyReservedByCustomerName` | `ReservationService.CurrentlyReservedByCustomerAccount` |

The as-written member stays the model of the service. Nothing else in the model reads either view. The corrected member's contract states what the view means, and `ReservationService.ByAccountFindsOwnReservation` shows it on the same tables.
