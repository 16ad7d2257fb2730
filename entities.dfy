/** The rows of the tables the services read and write. Identifiers are the
    tables' serial keys; money amounts and rates are decimal strings the
    services never compute with; dates are `YYYY-MM-DD` strings. */
module Entities {
  import opened Common

  datatype User = User(
    userID: int,
    firstName: string,
    lastName: string,
    email: string,
    password: string,
    phoneNumber: Option<string>,
    address: Option<string>,
    role: Option<string>,
    isVerified: bool,
    verificationCode: Option<string>)

  /** A customer or admin row only points at its user. */
  datatype Customer = Customer(customerID: int, userID: int)
  datatype Admin = Admin(adminID: int, userID: int)

  datatype Location = Location(locationID: int, locationName: string, address: string, contactNumber: string)

  datatype Car = Car(
    carID: int,
    carModel: string,
    year: string,
    color: string,
    rentalRate: string,
    availability: bool,
    locationID: int)

  datatype Booking = Booking(
    bookingID: int,
    carID: int,
    customerID: int,
    rentalStartDate: string,
    rentalEndDate: string,
    totalAmount: string)

  /** `returnDate` is `None` while the car has not come back. */
  datatype Reservation = Reservation(
    reservationID: int,
    customerID: int,
    carID: int,
    reservationDate: string,
    pickupDate: string,
    returnDate: Option<string>)

  datatype Insurance = Insurance(
    insuranceID: int,
    carID: int,
    insuranceProvider: string,
    policyNumber: string,
    startDate: string,
    endDate: string)
}
