/** The database the services share: one sequence of rows per table, in storage
    order, and the serial counters of the two tables whose keys the database
    generates when a user is created. */
module Db {
  import opened Entities

  class Database {
    var users: seq<User>
    var admins: seq<Admin>
    var customers: seq<Customer>
    var locations: seq<Location>
    var cars: seq<Car>
    var bookings: seq<Booking>
    var reservations: seq<Reservation>
    var insurances: seq<Insurance>
    var nextAdminID: int
    var nextCustomerID: int

    /** Every admin and customer row belongs to a stored user, and the serial
        counters are past every key already handed out. */
    predicate Valid()
      reads this
    {
      (forall a :: a in admins ==> a.adminID < nextAdminID && exists u :: u in users && u.userID == a.userID) &&
      (forall c :: c in customers ==> c.customerID < nextCustomerID && exists u :: u in users && u.userID == c.userID)
    }

    constructor ()
      ensures Valid()
      ensures users == [] && admins == [] && customers == [] && locations == []
      ensures cars == [] && bookings == [] && reservations == [] && insurances == []
      ensures nextAdminID == 1 && nextCustomerID == 1
    {
      users, admins, customers, locations := [], [], [], [];
      cars, bookings, reservations, insurances := [], [], [], [];
      nextAdminID, nextCustomerID := 1, 1;
    }
  }
}
