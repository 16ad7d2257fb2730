/** The booking services: an insert that reports failure with a prefixed message,
    and four lookups that rethrow a read failure with their own prefix. The
    insert checks neither the date order, nor that the car and the customer
    exist, nor any overlap with other bookings. */
module BookingService {
  import opened Common
  import opened Entities
  import opened Tables
  import Db

  const CreatePrefix := "Failed to create booking: "
  const NoRowMessage := "There was an error creating the booking."
  const ByIdPrefix := "Failed to get booking by ID: "
  const ByCarPrefix := "Failed to get bookings by car ID: "
  const ByCustomerPrefix := "Failed to get bookings by customer ID: "
  const AllPrefix := "Failed to get all bookings: "

  function WithId(bookingId: int): Booking -> bool { (b: Booking) => b.bookingID == bookingId }
  function ForCar(carId: int): Booking -> bool { (b: Booking) => b.carID == carId }
  function ForCustomer(customerId: int): Booking -> bool { (b: Booking) => b.customerID == customerId }

  /** createBookingService: the booking is stored as given and returned; when no
      row comes back, or the driver throws, the error is rethrown with the prefix
      and the table is left as it was. No other table is touched. */
  method CreateBooking(db: Db.Database, bookingData: Booking, reply: InsertReply) returns (r: Result<Booking>)
    modifies db`bookings
    ensures reply == Stored ==> r == Ok(bookingData) && db.bookings == old(db.bookings) + [bookingData]
    ensures reply == NoRow ==> r == Err(CreatePrefix + NoRowMessage) && db.bookings == old(db.bookings)
    ensures reply.Fails? ==> r == Err(CreatePrefix + reply.message) && db.bookings == old(db.bookings)
  {
    match reply {
      case Stored =>
        db.bookings := db.bookings + [bookingData];
        r := Ok(bookingData);
      case NoRow =>
        r := Err(CreatePrefix + NoRowMessage);
      case Fails(message) =>
        r := Err(CreatePrefix + message);
    }
  }

  /** getBookingByIdService: the first booking with that ID, `None` for `null`. */
  function GetBookingById(rows: seq<Booking>, bookingId: int, failure: Option<string>)
    : (r: Result<Option<Booking>>)
    ensures failure.Some? ==> r == Err(ByIdPrefix + failure.value)
    ensures failure.None? ==> r.Ok?
    ensures failure.None? ==> (r.value.None? <==> forall b :: b in rows ==> b.bookingID != bookingId)
    ensures failure.None? && r.value.Some? ==> r.value.value in rows && r.value.value.bookingID == bookingId
  {
    if failure.Some? then Err(ByIdPrefix + failure.value)
    else Ok(FindFirst(rows, WithId(bookingId)))
  }

  /** getBookingsByCarIdService */
  function GetBookingsByCarId(rows: seq<Booking>, carId: int, failure: Option<string>)
    : (r: Result<seq<Booking>>)
    ensures failure.Some? ==> r == Err(ByCarPrefix + failure.value)
    ensures failure.None? ==> r.Ok? && forall b :: b in r.value <==> b in rows && b.carID == carId
  {
    if failure.Some? then Err(ByCarPrefix + failure.value)
    else Ok(Where(rows, ForCar(carId)))
  }

  /** getBookingsByCustomerIdService */
  function GetBookingsByCustomerId(rows: seq<Booking>, customerId: int, failure: Option<string>)
    : (r: Result<seq<Booking>>)
    ensures failure.Some? ==> r == Err(ByCustomerPrefix + failure.value)
    ensures failure.None? ==> r.Ok? && forall b :: b in r.value <==> b in rows && b.customerID == customerId
  {
    if failure.Some? then Err(ByCustomerPrefix + failure.value)
    else Ok(Where(rows, ForCustomer(customerId)))
  }

  /** getAllBookingsService */
  function GetAllBookings(rows: seq<Booking>, failure: Option<string>): (r: Result<seq<Booking>>)
    ensures failure.Some? ==> r == Err(AllPrefix + failure.value)
    ensures failure.None? ==> r == Ok(rows)
  {
    if failure.Some? then Err(AllPrefix + failure.value) else Ok(rows)
  }

  /** A stored booking is what a lookup of its ID then finds, provided no booking
      stored before it carries the same ID (the lookup returns the first match). */
  lemma CreatedBookingIsFound(rows: seq<Booking>, b: Booking)
    requires forall x :: x in rows ==> x.bookingID != b.bookingID
    ensures GetBookingById(rows + [b], b.bookingID, None) == Ok(Some(b))
  {
    FindFirstSnoc(rows, b, WithId(b.bookingID));
  }

  /** With an earlier booking of the same ID, that earlier booking shadows it. */
  lemma DuplicateIdShadowsCreated(rows: seq<Booking>, b: Booking)
    requires exists x :: x in rows && x.bookingID == b.bookingID
    ensures GetBookingById(rows + [b], b.bookingID, None) == GetBookingById(rows, b.bookingID, None)
  {
    FindFirstSnoc(rows, b, WithId(b.bookingID));
  }

  /** A stored booking joins the lists of its car and of its customer, after the
      bookings already there, whatever its dates. */
  lemma CreatedBookingIsListed(rows: seq<Booking>, b: Booking)
    ensures GetBookingsByCarId(rows + [b], b.carID, None) ==
            Ok(GetBookingsByCarId(rows, b.carID, None).value + [b])
    ensures GetBookingsByCustomerId(rows + [b], b.customerID, None) ==
            Ok(GetBookingsByCustomerId(rows, b.customerID, None).value + [b])
  {
    WhereSnoc(rows, b, ForCar(b.carID));
    WhereSnoc(rows, b, ForCustomer(b.customerID));
  }
}
